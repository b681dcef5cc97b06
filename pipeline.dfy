/** The two passes of `compress_file_streaming_hybrid` put together, and the
    tree-building step of `decompress_file_streaming_hybrid` in front of the
    per-chunk decode loop. The files become values: the input file is the
    sequence of its reads, the compressed file is the payload, and the two
    metadata files are the frequency table and the chunk records. */
module Pipeline {
  import opened Common
  import opened Tokenizer
  import opened Bits
  import opened Frequency
  import opened Huffman
  import opened Decoder
  import opened Encoder
  import opened Decompressor

  /** What compression writes: the global metadata (table and total), the
      tree the codes were read from, the payload and the chunk records. */
  datatype Compressed = Compressed(freq: map<string, nat>, totalTokens: nat, root: Node,
                                   payload: seq<byte>, chunks: seq<Chunk>)

  /** The text of a file read block by block up to the first empty read. */
  function FileText(blocks: seq<string>): string
  {
    Flatten(ReadUntilEof(blocks))
  }

  /** `compress_file_streaming_hybrid`: nothing is written for a file with
      no tokens; otherwise the table counts the file's tokens, the chunk
      records describe the payload and the token stream exactly, every
      chunk but the last was closed by the rule, and decoding the chunks
      with the tree gives the file's text back. */
  method Compress(blocks: seq<string>, mode: Mode, targetChunkBytes: int) returns (r: Option<Compressed>)
    ensures r.None? <==> FileText(blocks) == []
    ensures r.Some? ==>
              var c := r.value;
              var tokens := Tokenize(FileText(blocks), mode);
              Counted(tokens, c.freq, c.totalTokens) &&
              ChunksValid(c.chunks, c.payload, tokens, CodesOf(c.root, "")) &&
              AllButLastClosed(c.chunks, tokens, mode, targetChunkBytes)
    ensures r.Some? ==> DecodeChunks(r.value.payload, r.value.chunks, Some(r.value.root)) == Some(FileText(blocks))
  {
    var freqTable, totalTokens := BuildFrequencyTableStreaming(blocks, mode);
    NoTokensNoText(FileText(blocks), mode, freqTable, totalTokens);
    if freqTable == map[] {
      return None;
    }
    var root := BuildHuffmanTree(freqTable);
    var hc := new HuffmanCoding();
    hc.GenerateCodes(root, "");
    hc.root := root;
    MapMergeEmpty(CodesOf(root.value, ""));
    var payload, chunks := SecondPass(blocks, mode, targetChunkBytes, freqTable, totalTokens, root.value, hc.codes);
    r := Some(Compressed(freqTable, totalTokens, root.value, payload, chunks));
  }

  /** The second pass: the file is streamed again and its tokens encoded
      into chunks with the codes of the tree. */
  method SecondPass(blocks: seq<string>, mode: Mode, targetChunkBytes: int, freqTable: map<string, nat>,
                    totalTokens: nat, root: Node, codes: map<string, string>)
    returns (payload: seq<byte>, chunks: seq<Chunk>)
    requires Counted(Tokenize(FileText(blocks), mode), freqTable, totalTokens)
    requires multiset(Symbols(root)) == multiset(freqTable.Keys) && codes == CodesOf(root, "")
    ensures ChunksValid(chunks, payload, Tokenize(FileText(blocks), mode), codes)
    ensures AllButLastClosed(chunks, Tokenize(FileText(blocks), mode), mode, targetChunkBytes)
    ensures DecodeChunks(payload, chunks, Some(root)) == Some(FileText(blocks))
  {
    var tokens := StreamTokens(blocks, mode);
    TokensHaveCodes(tokens, freqTable, totalTokens, root);
    var totalTokensSeen;
    payload, chunks, totalTokensSeen := CompressChunks(tokens, codes, mode, targetChunkBytes);
    DecodesToText(payload, chunks, tokens, root, FileText(blocks), mode);
  }

  /** The payload of a text's tokens, decoded with the tree that encoded
      it, is the text. */
  lemma DecodesToText(payload: seq<byte>, chunks: seq<Chunk>, tokens: seq<string>, root: Node, text: string, mode: Mode)
    requires tokens == Tokenize(text, mode)
    requires ChunksValid(chunks, payload, tokens, CodesOf(root, ""))
    ensures DecodeChunks(payload, chunks, Some(root)) == Some(text)
  {
    assert payload[..|payload|] == payload;
    DecodeChunksValid(payload, chunks, payload, tokens, root);
    TokenizeJoin(text, mode);
  }

  /** The table is empty exactly when the file has no text. */
  lemma NoTokensNoText(text: string, mode: Mode, freq: map<string, nat>, total: nat)
    requires Counted(Tokenize(text, mode), freq, total)
    ensures freq == map[] <==> text == []
  {
    var tokens := Tokenize(text, mode);
    TokenizeJoin(text, mode);
    if tokens != [] {
      assert tokens[0] in freq;
    }
  }

  /** Every token of the stream has a code, and every code is a bit
      string. */
  lemma TokensHaveCodes(tokens: seq<string>, freq: map<string, nat>, total: nat, root: Node)
    requires Counted(tokens, freq, total)
    requires multiset(Symbols(root)) == multiset(freq.Keys)
    ensures AllIn(tokens, CodesOf(root, "")) && AllBitCodes(CodesOf(root, ""))
  {
    CodesKeys(root, "");
    CodesShape(root, "");
    forall k | 0 <= k < |tokens|
      ensures tokens[k] in CodesOf(root, "")
    {
      assert tokens[k] in freq;
      assert tokens[k] in multiset(freq.Keys);
    }
  }

  /** `decompress_file_streaming_hybrid`: the tree is built again from the
      saved table (a tree with its leaves and counts), and the chunks are
      decoded with it one after another. */
  method Decompress(data: seq<byte>, chunks: seq<Chunk>, freqTable: map<string, nat>)
    returns (fullText: Option<string>, root: Option<Node>)
    ensures root.None? <==> freqTable == map[]
    ensures root.Some? ==> WellFormed(root.value) && LeavesMatch(root.value, freqTable) &&
                           multiset(Symbols(root.value)) == multiset(freqTable.Keys)
    ensures fullText == DecodeChunks(data, chunks, root)
  {
    root := BuildHuffmanTree(freqTable);
    var hc := new HuffmanCoding();
    hc.GenerateCodes(root, "");
    hc.root := root;
    fullText := DecompressChunks(data, chunks, hc.root);
  }
}
