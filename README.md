# Huffman text compressor and chunked book reader — a Dafny model

The system compresses a text file with one global Huffman code and splits
the compressed bytes into chunks that can be decoded on their own. A book
reader opens the result and decodes only the chunks the current page needs.

- **Tokenizer.** Character mode makes every character a token. Word mode
  makes a token of each maximal run of `[A-Za-z_]`, each digit, each other
  non-space symbol and each whitespace character. The file is read in
  blocks; the last word of a block is held back so that a block boundary
  does not cut it.
- **Frequency table.** One pass over the token stream counts each distinct
  token and the total.
- **Huffman tree and codes.** Leaves are merged greedily, the two least
  frequent first. A code is a root-to-leaf path ("0" left, "1" right), and a
  tree that is a single leaf gives its token the code "0".
- **Encoder (second pass).** Each token's code is appended to a bit buffer,
  and whole bytes are written out. A chunk is closed once it holds the byte
  target and, in word mode, ends in a sentence boundary token (`.`, `!`,
  `?` or a newline). Closing pads the buffer with zero bits to a byte and
  records `index`, `offset`, `length`, `padding` and `tokens`.
- **Decompressor.** The tree is rebuilt from the saved table. Each chunk's
  bytes are unpacked, the padding is cut off and the bits are walked down
  the tree. The chunks' texts are joined.
- **Reader.** `ChunkedHuffmanReader` keeps the loaded chunks and an index.
  The index takes each chunk record's token count as that chunk's number of
  words ("counted words" below), and holds their running ranges and 250
  counted words a page. A memo maps each chunk to its decoded words, the
  text split on whitespace. `show_page` clamps the page, decodes the
  overlapping chunks and cuts the page's window out of their words.

The model covers `code/huffman_tool.py` (tokenizer, tree, code generation,
bit packing, streaming compression and decompression) and the paging state
of `code/huffman_reader.py`.

- Files become values. The input file is the sequence of its reads up to
  the first empty one. The compressed file is a byte sequence. The two JSON
  metadata files are the table and the chunk records.
- The state that methods change in place becomes classes:
  - `HuffmanCoding`, with its code tables;
  - `ChunkedReader`, with its index, memo and current page.
- Loops become methods with invariants. Each such method is proved against
  a specification function: `Tokenize`, `Counted`, `ChunksValid`,
  `DecodeChunks` or `PageView`.

Modules, leaf first:

| file | module |
|---|---|
| `common.dfy` | option, join, slicing, sums |
| `tokenizer.dfy` | Tokenizer |
| `frequency.dfy` | Frequency |
| `bits.dfy` | Bits |
| `huffman.dfy` | Huffman |
| `decoder.dfy` | Decoder |
| `encoder.dfy` | Encoder |
| `decompressor.dfy` | Decompressor |
| `pipeline.dfy` | Pipeline |
| `reader.dfy` | Reader |

## Model

| member | source | states |
|---|---|---|
| Tokenizer.RunLength | code/huffman_tool.py:37 | the letter run at the front is maximal: all of it is `[A-Za-z_]` and the next character is not |
| Tokenizer.HeadLength | code/huffman_tool.py:36-42 | every match of the pattern at the front of a non-empty text is at least one character and fits in the text |
| Tokenizer.WordTokensShape | code/huffman_tool.py:36-48 | `findall` in word mode: the tokens join back to the text, each matches one alternative of the pattern, and no two neighbours could have been one letter run |
| Tokenizer.WordTokensJoin | code/huffman_tool.py:36-48 | word-mode tokens concatenate to the text they came from |
| Tokenizer.WordTokensAreTokens | code/huffman_tool.py:36-42 | every word-mode token is a letter run, one digit, one symbol or one whitespace character |
| Tokenizer.WordTokensMaximal | code/huffman_tool.py:37 | letter runs are maximal: two adjacent tokens are never both letter runs |
| Tokenizer.FirstToken | code/huffman_tool.py:36-48 | a non-empty text's first token starts with its first character |
| Tokenizer.CharTokensJoin | code/huffman_tool.py:49-50 | character mode yields exactly the characters of the text, one per token, in order |
| Tokenizer.TokenizeJoin | code/huffman_tool.py:45-50 | in both modes the tokens join back to the text, and there are none exactly when the text is empty |
| Tokenizer.WordTokensSplit | code/huffman_tool.py:36-48 | cutting a text between two characters that cannot share a letter run splits its token list at the same place |
| Tokenizer.RunIsOneToken | code/huffman_tool.py:37 | a non-empty run of letters is a single token |
| Tokenizer.HoldBack | code/huffman_tool.py:81-91 | when a text ends in a letter, text read after it can only change its last token, which is why that token is held back |
| Tokenizer.TrailingRunStart | code/huffman_tool.py:37 | the letter run at the end of a text is maximal |
| Tokenizer.ReadStep | code/huffman_tool.py:73-76 | the reads up to end of file: an empty read ends the file, a non-empty read is followed by the rest |
| Tokenizer.StreamTokens | code/huffman_tool.py:53-99 | streaming gives exactly the tokens of the whole file's text, whatever the block sizes |
| Tokenizer.StreamCharTokens | code/huffman_tool.py:62-69 | character mode streams every character of every read, in order |
| Tokenizer.AppendCharTokens | code/huffman_tool.py:68-69 | one read in character mode adds one token per character |
| Tokenizer.HoldBackStep | code/huffman_tool.py:82-91 | a read ending in a letter run emits all tokens but the last and keeps the last as the buffer, and the whole-text tokens are preserved |
| Tokenizer.FlushStep | code/huffman_tool.py:92-95 | any other read emits all its tokens and empties the buffer, and the whole-text tokens are preserved |
| Tokenizer.ReadWordBlock | code/huffman_tool.py:74-95 | one read step keeps the invariant: tokens emitted, then tokens of the buffer and the reads to come, equal the tokens of the whole text |
| Tokenizer.StreamWordTokens | code/huffman_tool.py:70-99 | word-mode streaming equals `findall` over the whole text |
| Tokenizer.StreamWordTokensAsWritten | code/huffman_tool.py:70-99 | the word-mode loop as written (hold-back on `isalpha`): every token it gives is a match of the token pattern |
| Tokenizer.AsWrittenJoins | code/huffman_tool.py:70-99 | the loop as written (hold-back on `isalpha`) still joins back to the whole text |
| Tokenizer.HeldJoin | code/huffman_tool.py:84-91 | holding back the last token and prepending it to the next read loses no text |
| Tokenizer.FlushJoin | code/huffman_tool.py:92-95 | emitting every token and carrying nothing loses no text |
| Tokenizer.UnderscoreSplitsWord | code/huffman_tool.py:82 | reads "a_" then "b" give the tokens "a_", "b" as written, while the whole text gives the one token "a_b" |
| Tokenizer.LastRead | code/huffman_tool.py:97-99 | a held-back buffer is tokenized at end of file |
| Frequency.SumCountsRemove | code/huffman_tool.py:102-112 | the sum of a table's counts does not depend on the order the keys are visited |
| Frequency.SumCountsUpdate | code/huffman_tool.py:110 | setting one count changes the sum by exactly the difference |
| Frequency.CountStep | code/huffman_tool.py:109-111 | counting one more token keeps the table exact: keys are the tokens seen, counts their occurrences, and the sum is the total |
| Frequency.CountedSnoc | code/huffman_tool.py:110-111 | the count update for one more token (its old count, or zero, plus one; the total plus one) counts the sequence extended by that token |
| Frequency.CountKeys | code/huffman_tool.py:110 | after the update, a token is a key exactly when it occurs, with its number of occurrences |
| Frequency.CountedPositive | code/huffman_tool.py:107-112 | every key of the table occurs at least once |
| Frequency.CountTokens | code/huffman_tool.py:107-112 | the counting loop builds the exact multiset of the tokens, with total equal to their number |
| Frequency.BuildFrequencyTableStreaming | code/huffman_tool.py:102-112 | the table and total count exactly the tokens of the file's text, and no count is zero |
| Bits.ToBits | code/huffman_tool.py:199 | a number written in `width` binary digits has exactly `width` characters, all '0' or '1' |
| Bits.BitsValueBound | code/huffman_tool.py:356 | `int(bits, 2)` of an n-bit string is below 2^n |
| Bits.ToBitsValue | code/huffman_tool.py:356 | writing `int(bits, 2)` back in as many digits gives the bit string again |
| Bits.ValueToBits | code/huffman_tool.py:199 | reading a number written in enough digits gives the number back |
| Bits.ByteBitsValue | code/huffman_tool.py:199 | a byte written as `{byte:08b}` reads back as the same byte |
| Bits.BytesToBits | code/huffman_tool.py:199 | unpacking gives eight bits per byte, all '0' or '1' |
| Bits.BytesToBitsAppend | code/huffman_tool.py:199 | unpacking two byte runs gives their bits one after the other |
| Bits.BytesToBitsSnoc | code/huffman_tool.py:199 | unpacking one more byte appends its eight bits |
| Bits.BytesToBitsAt | code/huffman_tool.py:199 | bit `i` is digit `i % 8` of byte `i / 8` |
| Bits.UnpackBitsSpec | code/huffman_tool.py:198-202 | `unpack_bits`: a padding that fits leaves `8*len - padding` bits, the leading bits of the bytes; zero padding keeps them all; too large a padding leaves none |
| Bits.Zeros | code/huffman_tool.py:374 | `"0" * n` is n zero bits |
| Bits.UnpackPadded | code/huffman_tool.py:198-202 | cutting off as many bits as zeros were added for padding gives the bits before padding |
| Bits.FlushWholeBytes | code/huffman_tool.py:354-358 | the byte-writing loop writes `len // 8` bytes whose bits, then the remaining fewer than 8 bits, are the buffer |
| Huffman.Size | code/huffman_tool.py:116-125 | a tree has at least one node |
| Huffman.Symbols | code/huffman_tool.py:116-125 | a tree has at least one leaf token |
| Huffman.ForestAppend | code/huffman_tool.py:142-150 | leaf tokens and root counts of a heap add up over its parts |
| Huffman.RemoveAt | code/huffman_tool.py:147-148 | a pop leaves one tree fewer |
| Huffman.RemoveAtElements | code/huffman_tool.py:147-148 | a pop keeps the other trees in order |
| Huffman.RemoveAtTotals | code/huffman_tool.py:147-148 | a pop removes exactly that tree's tokens and count from the heap's totals |
| Huffman.ArgMin | code/huffman_tool.py:124-125 | a non-empty heap has a tree of least count, so `heappop` is defined |
| Huffman.AddLeaf | code/huffman_tool.py:142 | adding the leaf of one more table entry keeps the heap's leaves exactly the entries seen so far |
| Huffman.AllGoodRemove | code/huffman_tool.py:147-148 | a popped tree and the trees left are well formed, with leaves from the table |
| Huffman.MergeGood | code/huffman_tool.py:147-150 | the parent of two popped trees is well formed (its count is the sum of its children's) |
| Huffman.MergeTotals | code/huffman_tool.py:147-150 | a merge keeps the heap's total count |
| Huffman.MergeSymbols | code/huffman_tool.py:147-150 | a merge keeps the multiset of leaf tokens |
| Huffman.MergeFreqs | code/huffman_tool.py:147-150 | a merge keeps the sum of root counts |
| Huffman.Merge | code/huffman_tool.py:146-150 | one round of the merge loop preserves the heap invariant: good trees whose leaves are the table's tokens once each, with counts that sum to the table's |
| Huffman.LeafHeap | code/huffman_tool.py:142-143 | the heap starts with one leaf per table entry, with its count |
| Huffman.HeapPop | code/huffman_tool.py:147-148 | `heappop` returns a tree of the heap whose count is least, and the heap holds one tree fewer: exactly the others, in order |
| Huffman.BuildHuffmanTree | code/huffman_tool.py:141-151 | no tree for an empty table; otherwise a well-formed tree whose leaves are exactly the table's tokens, once each, with their counts, whose root count is the total, and which is not a lone leaf when there are two tokens or more |
| Huffman.CodesKeys | code/huffman_tool.py:153-174 | every leaf token gets a code and nothing else does |
| Huffman.CodesShape | code/huffman_tool.py:157-174 | every code in either table is a non-empty bit string that extends the prefix, strictly below an internal node |
| Huffman.SidesDiffer | code/huffman_tool.py:173-174 | codes from the left ("0") and right ("1") subtrees are never prefixes of one another |
| Huffman.PrefixFree | code/huffman_tool.py:153-174 | no token's code is a prefix of another token's code |
| Huffman.ReverseIsInverse | code/huffman_tool.py:159-160 | with distinct tokens, `reverse_codes` is exactly the inverse of `codes` |
| Huffman.InverseJoin | code/huffman_tool.py:173-174 | the tables of the two subtrees join into an inverse pair |
| Huffman.CodesArePaths | code/huffman_tool.py:157-174 | below the root, or in a tree that is not a lone leaf, a token's code is its root-to-leaf path |
| Huffman.LoneLeafCode | code/huffman_tool.py:158 | a tree that is a single leaf gives its token the code "0", and its reverse maps "0" to it |
| Huffman.HuffmanCoding.constructor | code/huffman_tool.py:129-132 | a fresh coder has empty code tables and no tree |
| Huffman.HuffmanCoding.GenerateCodes | code/huffman_tool.py:153-174 | the tables gain exactly the codes of the subtree (nothing for no tree), and the tree field is unchanged |
| Decoder.DecodeWithTree | code/huffman_tool.py:178-195 | the bit loop equals the walk: "" for no bits or no tree, otherwise the emitted tokens joined, or a crash once it steps below a leaf |
| Decoder.CombinePrepend | code/huffman_tool.py:190-193 | emitting a token and continuing agrees with appending it to the tokens so far |
| Decoder.EncodeAppend | code/huffman_tool.py:348-349 | the encoding of two token runs is their encodings one after the other |
| Decoder.DecodePath | code/huffman_tool.py:189-193 | from an internal node, walking a token's path emits that token and returns to the root with the rest of the bits |
| Decoder.DecodeEncode | code/huffman_tool.py:178-195 | with a tree that is not a lone leaf, decoding the concatenated codes of its tokens gives the tokens back |
| Decoder.RoundTrip | code/huffman_tool.py:178-195 | `decode(encode(tokens))` is the tokens joined, for a tree with at least two leaves |
| Decoder.LoneLeafDecode | code/huffman_tool.py:178-195 | as written, a lone leaf's code "0" decodes to "" and "00" crashes |
| Decoder.DecodeWithTreeCorrected | code/huffman_tool.py:178-195 | the decoder with the lone-leaf case handled; it computes the corrected walk |
| Decoder.LoneLeafEncode | code/huffman_tool.py:158 | tokens of a lone leaf each take one bit, and joined they are the token repeated once per bit |
| Decoder.CorrectedRoundTrip | code/huffman_tool.py:178-195 | with the corrected decoder, `decode(encode(tokens))` is the tokens joined for every tree, a lone leaf included |
| Decoder.WalkNeverFails | code/huffman_tool.py:178-195 | in a tree with an internal root, the walk never steps from no node, whatever the bits |
| Decoder.CorrectedNeverFails | code/huffman_tool.py:178-195 | the corrected decoder gives a text for every tree and every bit string |
| Encoder.ChunksCover | code/huffman_tool.py:381-417 | the chunk records add up to every token and every payload byte |
| Encoder.ChunksLayout | code/huffman_tool.py:381-417 | chunk `k` is numbered `k`, holds at least one token and pads 0 to 7 bits; the first starts at offset 0, each starts where the previous ends, and the last ends at the end of the payload |
| Encoder.ClosedEnds | code/huffman_tool.py:371 | every chunk closed in the loop ends where the close rule allows |
| Encoder.ClosedInPrefix | code/huffman_tool.py:371 | a chunk boundary among earlier chunks stays a boundary when more chunks follow |
| Encoder.ChunkBoundaries | code/huffman_tool.py:361-371 | in the recorded chunks, every chunk but the last has at least the target bytes and, in word mode, ends with a sentence boundary token |
| Encoder.ChunkBoundary | code/huffman_tool.py:361-371 | the same rule for one chunk `k` before the last |
| Encoder.ChunkContents | code/huffman_tool.py:347-417 | chunk `k`'s bytes are the codes of exactly its tokens followed by its zero padding |
| Encoder.LastChunkHolds | code/huffman_tool.py:399-417 | the same for the last chunk |
| Encoder.HoldsInPrefix | code/huffman_tool.py:382-388 | what an earlier chunk holds is kept when more chunks are recorded |
| Encoder.ChunksValidSnoc | code/huffman_tool.py:382-388 | recording one more valid chunk after valid ones keeps the records valid |
| Encoder.ClosedInLoopSnoc | code/huffman_tool.py:371-388 | a chunk closed by the rule extends the chunks closed in the loop |
| Encoder.EncodeStep | code/huffman_tool.py:348-349 | the encoding of a token range grows by the next token's code |
| Encoder.OpenGrows | code/huffman_tool.py:356 | writing bytes leaves the earlier bytes alone |
| Encoder.BufferStep | code/huffman_tool.py:348-358 | the open chunk's bytes and buffer grow by the next token's code |
| Encoder.TokenStep | code/huffman_tool.py:347-358 | appending a code and writing whole bytes keeps the encoder's progress invariant |
| Encoder.CloseValid | code/huffman_tool.py:372-388 | the chunk closed over the open tokens, its bytes and padding, is a valid record |
| Encoder.ChunkAfter | code/huffman_tool.py:372-388 | the open bytes plus the padded last byte make a valid record after the earlier ones |
| Encoder.CloseStep | code/huffman_tool.py:371-394 | closing a chunk by the rule keeps the invariant and resets the open chunk |
| Encoder.CloseAtEnd | code/huffman_tool.py:399-417 | the end-of-input chunk completes the records: valid, and all but that last were closed by the rule |
| Encoder.Finish | code/huffman_tool.py:399-417 | with nothing open at end of input, the records are complete as they stand |
| Encoder.PadAndClose | code/huffman_tool.py:372-388 | padding is `(8 - len % 8) % 8`, the padded buffer is written as whole bytes, and the record carries index, offset, length including those bytes, padding and token count |
| Encoder.AppendCode | code/huffman_tool.py:347-358 | appending a token's code and writing whole bytes keeps the state invariant between tokens |
| Encoder.CloseInLoop | code/huffman_tool.py:371-394 | recording a chunk closed by the rule keeps the state invariant, with an empty open chunk |
| Encoder.CloseChunk | code/huffman_tool.py:371-394 | closing adds exactly one record of at least the target bytes and resets buffer, counters and start offset |
| Encoder.MaybeClose | code/huffman_tool.py:361-394 | the close rule: a chunk is closed when it holds the target bytes and, in word mode, the token is a sentence boundary; either way the invariant holds |
| Encoder.EncodeToken | code/huffman_tool.py:347-396 | one loop step keeps the invariant |
| Encoder.CompressChunks | code/huffman_tool.py:334-420 | the second pass counts every token, its records describe the payload and the token stream exactly, and every chunk but the last was closed by the rule |
| Decompressor.ChunkTexts | code/huffman_tool.py:479-488 | one decoded text per chunk record |
| Decompressor.ChunkTextsAt | code/huffman_tool.py:481-488 | entry `k` is what record `k` decodes to |
| Decompressor.DecodeOneChunk | code/huffman_tool.py:481-487 | slicing, unpacking and decoding record `i` gives its text |
| Decompressor.DecompressChunks | code/huffman_tool.py:479-490 | the loop's result is the chunks' texts joined in record order, or a crash if any chunk crashes |
| Decompressor.JoinStep | code/huffman_tool.py:488 | appending one more part keeps the joined parts equal to the join of the texts so far |
| Decompressor.CrashPropagates | code/huffman_tool.py:479-490 | once a chunk crashes, the whole decompression fails |
| Decompressor.JoinAllAppend | code/huffman_tool.py:490 | joining two runs of texts gives their joins one after the other |
| Decompressor.ChunkTextsAppend | code/huffman_tool.py:479-488 | the texts of two runs of records are those of each run, in order |
| Decompressor.DecodeChunksAppend | code/huffman_tool.py:479-490 | decoding two runs of records gives their texts one after the other |
| Decompressor.CodedTokensAreLeaves | code/huffman_tool.py:153-174 | a token has a code only when it is a leaf of the tree |
| Decompressor.ChunkDecodes | code/huffman_tool.py:485-487 | a chunk whose bytes are tokens' codes followed by its padding decodes to those tokens joined |
| Decompressor.ChunkBits | code/huffman_tool.py:485-486 | without its padding, a chunk's bits are what was padded |
| Decompressor.PayloadBytes | code/huffman_tool.py:485 | a chunk's bytes are the same whether read from the payload or from a file that starts with it |
| Decompressor.ChunkDecodesAlone | code/huffman_tool.py:479-488 | chunk `k` decodes on its own to the text of exactly the tokens it counts |
| Decompressor.HeldChunkDecodes | code/huffman_tool.py:485-487 | a chunk that holds its tokens' codes decodes to their text |
| Decompressor.LastChunkDecodes | code/huffman_tool.py:485-487 | the last chunk decodes to the text of the last tokens |
| Decompressor.DecodeChunksValid | code/huffman_tool.py:479-490 | decoding records that describe the payload and the tokens gives the tokens joined, even with extra bytes after the payload |
| Decompressor.JoinLast | code/huffman_tool.py:479-490 | all records decode to the text of all but the last followed by the last one's |
| Decompressor.DecodeChunksSnoc | code/huffman_tool.py:479-490 | the records' text, read from the back |
| Decompressor.JoinFlatten | code/huffman_tool.py:490 | the text of the tokens before a point plus that of the rest is the whole text |
| Pipeline.Compress | code/huffman_tool.py:231-420 | nothing is written exactly when the file has no text; otherwise the table counts the file's tokens, the records describe payload and tokens exactly, all chunks but the last obey the close rule, and decoding them with the tree gives the file's text back |
| Pipeline.SecondPass | code/huffman_tool.py:326-420 | the second pass encodes the file's tokens into valid chunks that decode back to the file's text |
| Pipeline.DecodesToText | code/huffman_tool.py:337-420 | records of a text's tokens, decoded with the encoding tree, give the text |
| Pipeline.NoTokensNoText | code/huffman_tool.py:250-253 | the table is empty exactly when the file has no text |
| Pipeline.TokensHaveCodes | code/huffman_tool.py:347-348 | `hc.codes[token]` never misses: every streamed token has a code, and every code is a bit string |
| Pipeline.Decompress | code/huffman_tool.py:441-490 | no tree exactly for an empty table; otherwise a well-formed tree with the table's tokens and counts; the text is the records' texts joined |
| Reader.WordEnd | code/huffman_reader.py:152 | the first word of `split()` is the maximal run of non-whitespace |
| Reader.NonSpaceRun | code/huffman_reader.py:152 | a run of non-whitespace is kept whole by `split()` |
| Reader.SplitWordsSpec | code/huffman_reader.py:152 | `split()` gives non-empty words without whitespace that together are exactly the text's non-whitespace characters |
| Reader.PageCount | code/huffman_reader.py:108 | the ceiling of the counted words over 250: enough pages for every counted word, no empty last page, and none when nothing is counted |
| Reader.TokenCounts | code/huffman_reader.py:99-102 | one count per chunk record: its token count, which the index takes as the chunk's number of words |
| Reader.TokenCountAt | code/huffman_reader.py:101-102 | count `k` is record `k`'s token count |
| Reader.WordRanges | code/huffman_reader.py:110-117 | one range of counted words per chunk |
| Reader.RangeAt | code/huffman_reader.py:112-117 | range `k` runs from the counts of the chunks before `k` to those up to and including `k` |
| Reader.RangesContiguous | code/huffman_reader.py:110-117 | the ranges start at position 0, each is as long as its chunk's count, and each starts where the previous ends |
| Reader.SumPrefixGrows | code/huffman_reader.py:105 | running word totals never decrease |
| Reader.CoveringChunk | code/huffman_reader.py:110-117 | every counted position below the total lies in some chunk's range |
| Reader.OverlappingSpec | code/huffman_reader.py:125-134 | the needed chunks are exactly those whose range overlaps the page window, in increasing order |
| Reader.OverlappingOrdered | code/huffman_reader.py:129-132 | the needed indices are chunk indices, in increasing order |
| Reader.OverlappingSound | code/huffman_reader.py:131 | every needed chunk overlaps the window |
| Reader.OverlappingComplete | code/huffman_reader.py:130-132 | every chunk overlapping the window is needed |
| Reader.FirstNeeded | code/huffman_reader.py:177-178 | a window that starts inside the book needs a chunk, and the first starts at or before the window, so the slice start is not negative |
| Reader.Clamp | code/huffman_reader.py:168 | the clamped page is a page of the book: unchanged if valid, 0 below, the last page above |
| Reader.PageStartsInBook | code/huffman_reader.py:126 | every page's first position is below the counted total |
| Reader.BookWords | code/huffman_reader.py:143-152 | one decoded word list (or failure) per chunk |
| Reader.CacheTransparent | code/huffman_reader.py:139-141 | a memo whose entries are what decoding gives answers as decoding would |
| Reader.StoreAgrees | code/huffman_reader.py:154 | storing what decoding gives keeps the memo in agreement |
| Reader.IncreasingFresh | code/huffman_reader.py:129-132 | a needed chunk is never needed twice on one page |
| Reader.GatherStep | code/huffman_reader.py:173-174 | extending `all_words` with one more chunk's words, or failing on a crash |
| Reader.GatherFails | code/huffman_reader.py:173-174 | once a chunk fails to decode, the page fails |
| Reader.GatherTransparent | code/huffman_reader.py:172-174 | with a memo that agrees with the book, the gathered words are those of decoding afresh |
| Reader.CutPage | code/huffman_reader.py:177-178 | a page holds at most 250 words |
| Reader.PageView | code/huffman_reader.py:160-185 | what is shown: the placeholder exactly for a book without words; otherwise page `clamp+1` of `page_count` with at most 250 words, or a decode failure |
| Reader.ShownPage | code/huffman_reader.py:168-178 | the view built from the index, the clamped page's window and the gathered words is the specified view |
| Reader.CutPageAt | code/huffman_reader.py:177-178 | the page's words are the window counted from the first needed chunk's start |
| Reader.PageChunks | code/huffman_reader.py:170-178 | a page of an indexed book needs chunks of the book, in increasing order, the first starting at or before the window |
| Reader.PageViewClamp | code/huffman_reader.py:168 | a requested page shows what its clamped page shows |
| Reader.PageTransparent | code/huffman_reader.py:139-185 | with a memo that agrees with the book, every page shows what decoding afresh shows |
| Reader.EmptyChunkBook | code/huffman_reader.py:143-152 | a chunk with no bytes decodes to no words |
| Reader.OneWordIndex | code/huffman_reader.py:99-134 | the index of a one-chunk, one-word book: one page, needing chunk 0 |
| Reader.StaleCacheShown | code/huffman_reader.py:62-120 | a memo entry left from another book is shown as this book's words |
| Reader.PageViewOf | code/huffman_reader.py:168-178 | a page whose chunks all decode shows its window cut out of their words |
| Reader.SpacedTokens | code/huffman_tool.py:36-48 | a text of `k` words, each followed by a space, is `2 * k` word-mode tokens |
| Reader.SpacedSplit | code/huffman_reader.py:152 | `split()` gives `k` words for that text |
| Reader.TokensAreNotWords | code/huffman_reader.py:99-102 | a chunk's record token count can be twice the number of words the reader gets for it |
| Reader.TwoChunkIndex | code/huffman_reader.py:99-134 | the index of two chunks counted 300 each: ranges [0, 300) and [300, 600), three pages, and the chunks each page needs |
| Reader.FirstPageOfTwo | code/huffman_reader.py:160-185 | for two chunks counted 300 with 150 words each, page 1 shows the first chunk's words |
| Reader.SecondPageOfTwo | code/huffman_reader.py:160-185 | for that book, page 2 shows only the second chunk's last 50 words |
| Reader.ThirdPageOfTwo | code/huffman_reader.py:160-185 | for that book, page 3 shows nothing |
| Reader.TokenCountsSkipWords | code/huffman_reader.py:99-102 | with token counts as the index, the second chunk's first 100 words are on no page |
| Reader.JoinWordsAppend | code/huffman_reader.py:172-174 | the words of two runs of chunks are those of the first run, then those of the second |
| Reader.JoinWordsLength | code/huffman_reader.py:99-105 | with word counts, the book has as many words as the counts add up to |
| Reader.BetweenOverlaps | code/huffman_reader.py:129-132 | a chunk between two chunks that overlap a window overlaps it too |
| Reader.NeededConsecutive | code/huffman_reader.py:125-134 | the chunks a window needs are consecutive chunk indices |
| Reader.GatherConsecutive | code/huffman_reader.py:172-174 | gathering consecutive decoded chunks gives their words one chunk after the other |
| Reader.WindowEnd | code/huffman_reader.py:125-134 | the last chunk a window needs ends at or after the window |
| Reader.WindowInChunks | code/huffman_reader.py:125-134 | a page's window lies inside the consecutive chunks it needs, from the first one's start to the last one's end |
| Reader.JoinThree | code/huffman_reader.py:172-174 | the book's words are those of the chunks before a run, of the run, and of the chunks after |
| Reader.PrefixWords | code/huffman_reader.py:105-117 | with word counts, the first `n` chunks hold exactly as many words as their counts add up to |
| Reader.ChunksInBook | code/huffman_reader.py:177-178 | a window inside a run of chunks, counted from the run's start, is that window of the whole book |
| Reader.WordCountPage | code/huffman_reader.py:160-185 | with each chunk counted by its `split()` words, page `p` shows exactly the book's words `250 p` up to the end of its window |
| Reader.WordCountPagesShowBook | code/huffman_reader.py:160-185 | with word counts, every word of the book is on page `i / 250`, at place `i % 250` |
| Reader.ChunkedReader.constructor | code/huffman_reader.py:44-57 | the reader starts with no chunks, an empty memo, page 0 and no pages |
| Reader.ChunkedReader.BuildIndex | code/huffman_reader.py:99-117 | the index fields describe the loaded chunks: counts, total, page count and ranges |
| Reader.ChunkedReader.FindChunksForPage | code/huffman_reader.py:125-134 | the page window, capped at the total, and the chunks overlapping it |
| Reader.ChunkedReader.DecodeChunk | code/huffman_reader.py:139-155 | a hit returns the stored words and changes nothing; a miss returns the chunk's decoded words and stores exactly that entry |
| Reader.ChunkedReader.ShowPage | code/huffman_reader.py:160-185 | no pages: page and memo unchanged and the placeholder shown; otherwise the page is clamped and the specified view shown, and the memo gains entries only for chunks the clamped page needs, each what decoding that chunk gives, while earlier entries stay |
| Reader.ChunkedReader.RenderPage | code/huffman_reader.py:170-178 | the body of `show_page` for a valid page gives the specified view; the memo gains entries only for the chunks the page needs, each what decoding gives, and keeps the others |
| Reader.ChunkedReader.GatherPage | code/huffman_reader.py:172-174 | the loop over the needed chunks gives their words in order, or a failure; the memo gains entries only for those chunks, each what decoding gives, and keeps the entries it had |
| Reader.ChunkedReader.GatherInvariant | code/huffman_reader.py:173-174 | one chunk of that loop keeps its invariant: the memo grew only for chunks seen so far, by decoded entries |
| Reader.ChunkedReader.StoreAgreesIf | code/huffman_reader.py:154 | a decoded entry stored keeps the memo in agreement |
| Reader.ChunkedReader.NextPage | code/huffman_reader.py:189-191 | one page on, then shown (clamped); the memo changes as `show_page` changes it for that page |
| Reader.ChunkedReader.PrevPage | code/huffman_reader.py:193-195 | one page back, then shown (clamped); the memo changes as `show_page` changes it for that page |
| Reader.ChunkedReader.LoadFiles | code/huffman_reader.py:78-97 | the loaded table, chunks and payload, and the tree built from the table |
| Reader.ChunkedReader.OpenBook | code/huffman_reader.py:78-119 | the book's files, tree and index are loaded and the page is 0 |
| Reader.ChunkedReader.LoadBook | code/huffman_reader.py:78-120 | the book is opened and page 1 is shown with the memo left from before; the memo gains decoded entries only for the chunks page 1 needs |
| Reader.ChunkedReader.LoadBookClearingCache | code/huffman_reader.py:78-120 | with the memo cleared first, page 1 is what decoding the new book gives and the memo agrees with the book |

## Left out

- File selection, path handling, existence checks and error dialogs
  (`askopenfilename`, `os.path.exists`, `messagebox`): files are parameters.
- JSON reading and writing: the table and chunk records are values. The
  records' `int()` conversions and their `version`, `mode`, `total_chunks`
  and `total_tokens` fields are not modelled.
- The code report, its bit counts and compression ratios: floating point
  and text output.
- `visualize_tree` (graphviz), the command-line entry point, `print`, and
  the Tk widgets with their rendering (header and body text).
- `code/chunk_compressor.py` and `code/test_cases.py` are not part of this
  model. The properties its assertions name (round
  trip, prefix-free codes, one code per token) are lemmas here.
- The mode check that raises `ValueError`: `Mode` is a two-value datatype,
  so no other mode can be passed.
- The `mode` argument of `decode_with_tree` is unused by the source and is
  left out.
- `generate_codes`'s `output_file` / `freq_table` report branch.
- Exceptions become values. A walk that steps below a leaf is `None`; a
  chunk that fails to decode in the reader shows `DecodeFailed` and stores
  nothing.
- Tokenizer.IsPunct: the character classes are the ASCII ones. The source
  compiles its pattern with `re.UNICODE`. Its `[^\w\s]` then excludes every
  Unicode word character, so a non-ASCII letter or digit (`é`, `ж`, `中`,
  `٣`) matches no alternative and is dropped. The model keeps such a
  character as a one-character token. So Tokenizer.WordTokensShape,
  Tokenizer.TokenizeJoin, Tokenizer.StreamTokens and
  Frequency.BuildFrequencyTableStreaming hold of the source in word mode
  only on text without such characters. The same goes for Pipeline.Compress
  (its empty-file condition and its round trip) and for
  Tokenizer.StreamWordTokensAsWritten and Tokenizer.AsWrittenJoins. The
  round trip the model proves is that of text without non-ASCII word
  characters.
- Reader.SplitWords: `IsSpace` is ASCII whitespace. Python's `split()` also
  splits on Unicode whitespace (U+0085, U+00A0, U+2000 to U+200A and
  others), which the model keeps inside words. (In the tokenizer such a
  character is a one-character token either way.)
- Tokenizer.StreamTokens: holds a token back whenever the buffer ends in a
  `[A-Za-z_]` character. This corrects the source; the first Findings row
  gives the input. Frequency.BuildFrequencyTableStreaming,
  Pipeline.SecondPass and Pipeline.Compress take their tokens from it. On
  the reads "a_" then "b" they count and encode the one token "a_b", where
  the source counts and encodes "a_" and "b". The text decoded is the same
  either way (Tokenizer.AsWrittenJoins). The counts, the tree and the
  `tokens` fields of the records are not those of the source.
- Decompressor.DecodeChunk: decodes with the corrected
  Decoder.DecodeTextCorrected, which the third Findings row describes, not
  with the walk as written (Decoder.DecodeWithTree). Pipeline.Compress,
  Pipeline.Decompress and the reader therefore decode a lone-leaf tree where
  the source drops or crashes. With the corrected decoder no chunk fails
  (Decoder.CorrectedNeverFails). So the failure paths the model carries
  (Decompressor.CrashPropagates, Reader.GatherFails, `DecodeFailed`) are
  reached only under the walk as written.
- Reader.BookWords: the reader's `decode_chunk` likewise decodes with
  Decoder.DecodeTextCorrected. On a lone-leaf book the source shows fewer
  words or raises where the model shows the chunk's tokens.
- Huffman.BuildHuffmanTree: does not fix which of several equal-count trees
  `heapq` pops first. Any least-count tree may be taken, so it does not
  state the exact tree, and the tree's optimality is not stated.
- Pipeline.Decompress: does not state that the rebuilt tree equals the
  compressor's tree. The table's key order after JSON and `heapq`'s tie
  order are not modelled, so the round trip (Pipeline.Compress) is stated
  for the tree that encoded the chunks.
- Memory bounds and streaming (read sizes, one pass) are not modelled beyond
  the sequence of reads.

## Findings

| source | as written | input that shows it | evidently intended | confidence | as-written member | corrected member |
|---|---|---|---|---|---|---|
| code/huffman_tool.py:82 | the word-mode reader holds the last token back only when the buffer ends in an `isalpha` character, and `_` is a letter-run character that is not alphabetic | reads "a_" then "b": tokens "a_" and "b", while the text "a_b" is one token "a_b" | hold back whenever the buffer ends in a `[A-Za-z_]` character, so the stream gives the tokens of the whole text whatever the reads | not executed | Tokenizer.UnderscoreSplitsWord | Tokenizer.StreamTokens |
| code/huffman_reader.py:62-120 | `load_book` keeps `decoded_cache` from the book opened before | open one book and show page 1, so chunk 0 is memoised, then open another: its page 1 shows the first book's words (witness: memo entry 0 = ["stale"], then a one-chunk, one-word book with no payload bytes, whose page 1 shows "stale" instead of nothing) | clear the memo when a book is opened | not executed | Reader.StaleCacheShown | Reader.ChunkedReader.LoadBookClearingCache |
| code/huffman_reader.py:99-102 | the index takes each record's `tokens` count as the chunk's number of words, but a page is cut from the `split()` words of the chunks (lines 152, 177-178), and tokens include whitespace and punctuation (Reader.TokensAreNotWords: `k` words each followed by a space are `2 k` tokens) | two chunks of 300 tokens and 150 words each: three pages; page 1 shows chunk 1, page 2 only the last 50 words of chunk 2, page 3 nothing, so chunk 2's first 100 words are shown on no page | count each chunk by the number of words `split()` gives for it, so page `p` shows words `250 p` to `250 p + 249` of the book | not executed | Reader.TokenCountsSkipWords | Reader.WordCountPage |
| code/huffman_tool.py:178-195 | for a tree that is a single leaf (one distinct token), the bit "0" steps to `node.left`, which is `None`; no token is emitted, and a second bit dereferences `None` | text "a": code "0", decoded "" ; text "aa": bits "00", decoding raises | each "0" decodes to the lone token (it is the code `generate_codes` gives it at line 158) | not executed | Decoder.LoneLeafDecode | Decoder.CorrectedRoundTrip |

