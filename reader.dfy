/** The paging state of the book reader (`ChunkedHuffmanReader` without its
    widgets): an index from word positions to chunks built when a book is
    opened, a memo of decoded chunks, and the page shown. A page is a window
    of `PageWordCount` word positions; the chunks whose word ranges overlap
    it are decoded (or taken from the memo), split into words on whitespace,
    and the window is cut out of their words. */
module Reader {
  import opened Common
  import opened Tokenizer
  import opened Bits
  import opened Huffman
  import opened Decoder
  import opened Encoder
  import opened Decompressor

  /** `PAGE_WORD_COUNT` */
  const PageWordCount: nat := 250

  // ---------------------------------------------------------------------------
  // `str.split()`: words are the maximal runs of non-whitespace characters.
  // ---------------------------------------------------------------------------

  /** The length of the run of non-whitespace characters `s` starts with. */
  function WordEnd(s: string): (n: nat)
    ensures n <= |s|
    ensures forall k :: 0 <= k < n ==> !IsSpace(s[k])
    ensures n < |s| ==> IsSpace(s[n])
    ensures s != [] && !IsSpace(s[0]) ==> n >= 1
  {
    if s == [] || IsSpace(s[0]) then 0 else 1 + WordEnd(s[1..])
  }

  function SplitWords(s: string): seq<string>
    decreases |s|
  {
    if s == [] then []
    else if IsSpace(s[0]) then SplitWords(s[1..])
    else
      var n := WordEnd(s);
      [s[..n]] + SplitWords(s[n..])
  }

  /** A word of `split()`: non-empty and without whitespace. */
  predicate IsWord(w: string)
  {
    w != [] && forall k :: 0 <= k < |w| ==> !IsSpace(w[k])
  }

  /** The characters of `s` that are not whitespace, in order. */
  function NonSpace(s: string): string
  {
    if s == [] then [] else (if IsSpace(s[0]) then [] else [s[0]]) + NonSpace(s[1..])
  }

  lemma {:induction false} NonSpaceRun(s: string, n: nat)
    requires n <= |s| && forall k :: 0 <= k < n ==> !IsSpace(s[k])
    ensures NonSpace(s) == s[..n] + NonSpace(s[n..])
  {
    if n > 0 {
      assert s[1..][..n - 1] == s[1..n];
      assert s[1..][n - 1..] == s[n..];
      NonSpaceRun(s[1..], n - 1);
      assert s[..n] == [s[0]] + s[1..n];
    }
  }

  /** What `split()` returns: words only, and together they are exactly the
      text's non-whitespace characters in order. */
  lemma {:induction false} SplitWordsSpec(s: string)
    ensures forall i :: 0 <= i < |SplitWords(s)| ==> IsWord(SplitWords(s)[i])
    ensures Flatten(SplitWords(s)) == NonSpace(s)
    decreases |s|
  {
    if s != [] {
      if IsSpace(s[0]) {
        SplitWordsSpec(s[1..]);
      } else {
        var n := WordEnd(s);
        SplitWordsSpec(s[n..]);
        FlattenCons(s[..n], SplitWords(s[n..]));
        NonSpaceRun(s, n);
        assert IsWord(s[..n]);
      }
    }
  }

  // ---------------------------------------------------------------------------
  // The index built when a book is opened.
  // ---------------------------------------------------------------------------

  /** `(total_words + PAGE_WORD_COUNT - 1) // PAGE_WORD_COUNT`: the number of
      pages is the ceiling of words over words per page. */
  function PageCount(totalWords: nat): (n: nat)
    ensures n * PageWordCount >= totalWords
    ensures n > 0 ==> (n - 1) * PageWordCount < totalWords
    ensures n == 0 <==> totalWords == 0
  {
    (totalWords + PageWordCount - 1) / PageWordCount
  }

  /** `words_per_chunk`: the `tokens` count of each chunk record. */
  function TokenCounts(chunks: seq<Chunk>): (counts: seq<nat>)
    ensures |counts| == |chunks|
  {
    if chunks == [] then [] else TokenCounts(chunks[..|chunks| - 1]) + [chunks[|chunks| - 1].tokens]
  }

  /** `chunk_word_ranges`: a chunk's range starts where the running sum of
      the counts before it stands and is as long as its own count. */
  function WordRanges(counts: seq<nat>): (ranges: seq<(nat, nat)>)
    ensures |ranges| == |counts|
  {
    if counts == [] then []
    else
      var n := |counts| - 1;
      WordRanges(counts[..n]) + [(Sum(counts[..n]), Sum(counts[..n]) + counts[n])]
  }

  /** The index of a book: per-chunk counts taken from the chunk records'
      token counts (which the index treats as word counts), their total, the
      ranges and the page count. */
  ghost predicate Indexed(chunks: seq<Chunk>, counts: seq<nat>, ranges: seq<(nat, nat)>, totalWords: nat, pageCount: nat)
  {
    counts == TokenCounts(chunks) && totalWords == Sum(counts) && ranges == WordRanges(counts) &&
    pageCount == PageCount(totalWords)
  }

  lemma {:induction false} SumPrefixStep(counts: seq<nat>, k: nat)
    requires k < |counts|
    ensures Sum(counts[..k + 1]) == Sum(counts[..k]) + counts[k]
  {
    assert counts[..k + 1] == counts[..k] + [counts[k]];
    SumAppend(counts[..k], counts[k]);
  }

  /** Each count is its chunk record's token count. */
  lemma {:induction false} TokenCountAt(chunks: seq<Chunk>, k: nat)
    requires k < |chunks|
    ensures TokenCounts(chunks)[k] == chunks[k].tokens
    decreases |chunks|
  {
    var n := |chunks| - 1;
    if k < n {
      assert chunks[..n][k] == chunks[k];
      TokenCountAt(chunks[..n], k);
    }
  }

  /** Range `k` is `[sum of the counts before k, sum of the counts up to and
      including k)`. */
  lemma {:induction false} RangeAt(counts: seq<nat>, k: nat)
    requires k < |counts|
    ensures WordRanges(counts)[k] == (Sum(counts[..k]), Sum(counts[..k + 1]))
    decreases |counts|
  {
    var n := |counts| - 1;
    SumPrefixStep(counts, k);
    if k < n {
      assert counts[..n][..k] == counts[..k] && counts[..n][..k + 1] == counts[..k + 1];
      RangeAt(counts[..n], k);
    }
  }

  /** The ranges are contiguous: the first starts at word 0, each is as long
      as its chunk's count, each ends where the next starts, and the last
      ends at the total. */
  lemma {:induction false} RangesContiguous(counts: seq<nat>)
    ensures var ranges := WordRanges(counts);
            (|ranges| > 0 ==> ranges[0].0 == 0) &&
            (forall k :: 0 <= k < |ranges| ==> ranges[k].1 == ranges[k].0 + counts[k]) &&
            (forall k :: 0 <= k < |ranges| - 1 ==> ranges[k].1 == ranges[k + 1].0) &&
            (|ranges| > 0 ==> ranges[|ranges| - 1].1 == Sum(counts))
  {
    var ranges := WordRanges(counts);
    if |ranges| > 0 {
      RangeAt(counts, 0);
      assert counts[..0] == [];
      RangeAt(counts, |counts| - 1);
      assert counts[..|counts|] == counts;
    }
    forall k | 0 <= k < |ranges|
      ensures ranges[k].1 == ranges[k].0 + counts[k]
    {
      RangeAt(counts, k);
      SumPrefixStep(counts, k);
    }
    forall k | 0 <= k < |ranges| - 1
      ensures ranges[k].1 == ranges[k + 1].0
    {
      RangeAt(counts, k);
      RangeAt(counts, k + 1);
    }
  }

  /** Sums of longer prefixes are no smaller. */
  lemma {:induction false} SumPrefixGrows(counts: seq<nat>, i: nat, j: nat)
    requires i <= j <= |counts|
    ensures Sum(counts[..i]) <= Sum(counts[..j])
    decreases j - i
  {
    if i < j {
      SumPrefixStep(counts, i);
      SumPrefixGrows(counts, i + 1, j);
    }
  }

  /** Every word position below the total lies in the range of some chunk. */
  lemma {:induction false} CoveringChunk(counts: seq<nat>, w: nat) returns (i: nat)
    requires w < Sum(counts)
    ensures i < |counts| && WordRanges(counts)[i].0 <= w < WordRanges(counts)[i].1
    decreases |counts|
  {
    var n := |counts| - 1;
    assert counts[..n + 1] == counts;
    RangeAt(counts, n);
    if w >= Sum(counts[..n]) {
      i := n;
    } else {
      i := CoveringChunk(counts[..n], w);
      assert WordRanges(counts)[i] == WordRanges(counts[..n])[i];
    }
  }

  // ---------------------------------------------------------------------------
  // Which chunks a page needs.
  // ---------------------------------------------------------------------------

  /** `not (end_word <= cstart or start_word >= cend)` */
  predicate Overlaps(r: (nat, nat), startWord: int, endWord: int)
  {
    !(endWord <= r.0 || startWord >= r.1)
  }

  /** The indices whose range overlaps `[startWord, endWord)`, in the order
      of the ranges. */
  function Overlapping(ranges: seq<(nat, nat)>, startWord: int, endWord: int): seq<nat>
  {
    if ranges == [] then []
    else
      var n := |ranges| - 1;
      Overlapping(ranges[..n], startWord, endWord) + (if Overlaps(ranges[n], startWord, endWord) then [n] else [])
  }

  /** The overlapping indices are exactly those whose range overlaps the
      window, each once, in increasing order. */
  lemma {:induction false} OverlappingSpec(ranges: seq<(nat, nat)>, startWord: int, endWord: int)
    ensures AllBelow(Overlapping(ranges, startWord, endWord), |ranges|)
    ensures Increasing(Overlapping(ranges, startWord, endWord))
    ensures AllOverlap(ranges, Overlapping(ranges, startWord, endWord), startWord, endWord)
    ensures Covers(ranges, Overlapping(ranges, startWord, endWord), startWord, endWord)
  {
    OverlappingOrdered(ranges, startWord, endWord);
    OverlappingSound(ranges, startWord, endWord);
    OverlappingComplete(ranges, startWord, endWord);
  }

  lemma {:induction false} OverlappingOrdered(ranges: seq<(nat, nat)>, startWord: int, endWord: int)
    ensures AllBelow(Overlapping(ranges, startWord, endWord), |ranges|)
    ensures Increasing(Overlapping(ranges, startWord, endWord))
    decreases |ranges|
  {
    if ranges != [] {
      var n := |ranges| - 1;
      var init := Overlapping(ranges[..n], startWord, endWord);
      OverlappingOrdered(ranges[..n], startWord, endWord);
      var needed := Overlapping(ranges, startWord, endWord);
      if Overlaps(ranges[n], startWord, endWord) {
        assert needed == init + [n];
      } else {
        assert needed == init;
      }
    }
  }

  /** Every index of `needed` is one of a range overlapping the window. */
  predicate AllOverlap(ranges: seq<(nat, nat)>, needed: seq<nat>, startWord: int, endWord: int)
  {
    forall j :: 0 <= j < |needed| ==> needed[j] < |ranges| && Overlaps(ranges[needed[j]], startWord, endWord)
  }

  lemma {:induction false} OverlappingSound(ranges: seq<(nat, nat)>, startWord: int, endWord: int)
    ensures AllOverlap(ranges, Overlapping(ranges, startWord, endWord), startWord, endWord)
    decreases |ranges|
  {
    if ranges != [] {
      var n := |ranges| - 1;
      var init := Overlapping(ranges[..n], startWord, endWord);
      OverlappingSound(ranges[..n], startWord, endWord);
      var last: seq<nat> := if Overlaps(ranges[n], startWord, endWord) then [n] else [];
      var needed := Overlapping(ranges, startWord, endWord);
      assert needed == init + last;
      forall j | 0 <= j < |needed|
        ensures needed[j] < |ranges| && Overlaps(ranges[needed[j]], startWord, endWord)
      {
        if j < |init| {
          assert needed[j] == init[j];
          assert ranges[..n][init[j]] == ranges[init[j]];
        } else {
          assert needed[j] == n;
        }
      }
    }
  }

  /** Every range overlapping the window has its index in `needed`. */
  predicate Covers(ranges: seq<(nat, nat)>, needed: seq<nat>, startWord: int, endWord: int)
  {
    forall i :: 0 <= i < |ranges| && Overlaps(ranges[i], startWord, endWord) ==> i in needed
  }

  lemma {:induction false} OverlappingComplete(ranges: seq<(nat, nat)>, startWord: int, endWord: int)
    ensures Covers(ranges, Overlapping(ranges, startWord, endWord), startWord, endWord)
    decreases |ranges|
  {
    if ranges != [] {
      var n := |ranges| - 1;
      var init := Overlapping(ranges[..n], startWord, endWord);
      OverlappingComplete(ranges[..n], startWord, endWord);
      var needed := Overlapping(ranges, startWord, endWord);
      forall i | 0 <= i < |ranges| && Overlaps(ranges[i], startWord, endWord)
        ensures i in needed
      {
        if i < n {
          assert ranges[..n][i] == ranges[i];
          assert i in init;
        }
      }
    }
  }

  /** A window that starts inside the book needs at least one chunk, and the
      first one it needs starts at or before the window. */
  lemma {:induction false} FirstNeeded(counts: seq<nat>, ranges: seq<(nat, nat)>, needed: seq<nat>,
                                       startWord: nat, endWord: int)
    requires ranges == WordRanges(counts) && needed == Overlapping(ranges, startWord, endWord)
    requires startWord < endWord && startWord < Sum(counts)
    ensures needed != [] && needed[0] < |ranges| && ranges[needed[0]].0 <= startWord
  {
    var i := CoveringChunk(counts, startWord);
    OverlappingSpec(ranges, startWord, endWord);
    assert Overlaps(ranges[i], startWord, endWord);
    var m :| 0 <= m < |needed| && needed[m] == i;
    RangeAt(counts, needed[0]);
    RangeAt(counts, i);
    SumPrefixGrows(counts, needed[0], i);
  }

  /** `max(0, min(page, page_count - 1))`: always a page of the book, and
      the page itself when it already is one. */
  function Clamp(page: int, pageCount: nat): (p: nat)
    requires pageCount > 0
    ensures p < pageCount
    ensures 0 <= page < pageCount ==> p == page
    ensures page < 0 ==> p == 0
    ensures page >= pageCount ==> p == pageCount - 1
  {
    Max(0, Min(page, pageCount - 1))
  }

  /** The first word position of a page of the book lies inside the book. */
  lemma {:induction false} PageStartsInBook(p: nat, totalWords: nat)
    requires p < PageCount(totalWords)
    ensures p * PageWordCount < totalWords
  {
    var n := PageCount(totalWords);
    assert p * PageWordCount <= (n - 1) * PageWordCount;
  }

  // ---------------------------------------------------------------------------
  // Decoded chunks and the memo.
  // ---------------------------------------------------------------------------

  /** The words of a decoded chunk text, `None` when decoding crashed. */
  function WordsOf(text: Option<string>): Option<seq<string>>
  {
    match text
    case None => None
    case Some(t) => Some(SplitWords(t))
  }

  /** The words of each chunk of a book: what `decode_chunk` stores for it,
      or `None` when decoding it crashes. */
  function BookWords(data: seq<byte>, chunks: seq<Chunk>, root: Option<Node>): (ws: seq<Option<seq<string>>>)
    ensures |ws| == |chunks|
  {
    seq(|chunks|, i requires 0 <= i < |chunks| => WordsOf(DecodeChunk(data, chunks[i], root)))
  }

  /** The words `decode_chunk` gives for chunk `i` with the memo `cache`,
      `words` being what decoding each chunk gives: the stored list on a
      hit, the decoded words on a miss. */
  function Lookup(cache: map<nat, seq<string>>, words: seq<Option<seq<string>>>, i: nat): Option<seq<string>>
    requires i < |words|
  {
    if i in cache then Some(cache[i]) else words[i]
  }

  /** Every entry of the memo is what decoding that chunk gives. */
  ghost predicate CacheAgrees(cache: map<nat, seq<string>>, words: seq<Option<seq<string>>>)
  {
    forall i :: i in cache ==> i < |words| && words[i] == Some(cache[i])
  }

  /** The entries of `before` are still in `after`, unchanged. */
  ghost predicate Extends(before: map<nat, seq<string>>, after: map<nat, seq<string>>)
  {
    forall i :: i in before ==> i in after && after[i] == before[i]
  }

  /** `after` extends `before` with entries for the chunks in `seen` only. */
  ghost predicate GrewFor(before: map<nat, seq<string>>, after: map<nat, seq<string>>, seen: seq<nat>)
  {
    Extends(before, after) && forall i :: i in after && i !in before ==> i in seen
  }

  /** The entries `after` has and `before` has not are what decoding those
      chunks gives. */
  ghost predicate NewDecoded(before: map<nat, seq<string>>, after: map<nat, seq<string>>,
                             words: seq<Option<seq<string>>>)
  {
    forall i :: i in after && i !in before ==> i < |words| && words[i] == Some(after[i])
  }

  /** A memo that agrees with the book answers as decoding would. */
  lemma {:induction false} CacheTransparent(cache: map<nat, seq<string>>, words: seq<Option<seq<string>>>, i: nat)
    requires CacheAgrees(cache, words) && i < |words|
    ensures Lookup(cache, words, i) == Lookup(map[], words, i)
  {
  }

  /** Storing what decoding gives keeps the memo in agreement. */
  lemma {:induction false} StoreAgrees(cache: map<nat, seq<string>>, words: seq<Option<seq<string>>>, i: nat, w: seq<string>)
    requires CacheAgrees(cache, words) && i < |words| && words[i] == Some(w)
    ensures CacheAgrees(cache[i := w], words)
  {
  }

  predicate AllBelow(needed: seq<nat>, n: nat)
  {
    forall j :: 0 <= j < |needed| ==> needed[j] < n
  }

  predicate Increasing(needed: seq<nat>)
  {
    forall j, k :: 0 <= j < k < |needed| ==> needed[j] < needed[k]
  }

  /** An increasing sequence has no element twice. */
  lemma {:induction false} IncreasingFresh(needed: seq<nat>, j: nat)
    requires Increasing(needed) && j < |needed|
    ensures needed[j] !in needed[..j]
  {
  }

  /** `all_words` after extending it with the words of each needed chunk in
      turn, looked up in `cache`; `None` once one of them fails to decode. */
  function GatherWords(cache: map<nat, seq<string>>, words: seq<Option<seq<string>>>, needed: seq<nat>)
    : Option<seq<string>>
    requires AllBelow(needed, |words|)
  {
    if needed == [] then Some([])
    else
      var n := |needed| - 1;
      var init := GatherWords(cache, words, needed[..n]);
      var last := Lookup(cache, words, needed[n]);
      if init.None? || last.None? then None else Some(init.value + last.value)
  }

  lemma {:induction false} GatherStep(cache: map<nat, seq<string>>, words: seq<Option<seq<string>>>, needed: seq<nat>, j: nat,
                   w: Option<seq<string>>)
    requires AllBelow(needed, |words|) && j < |needed|
    requires w == Lookup(cache, words, needed[j])
    ensures var before := GatherWords(cache, words, needed[..j]);
            GatherWords(cache, words, needed[..j + 1]) ==
            if before.None? || w.None? then None else Some(before.value + w.value)
  {
    assert needed[..j + 1][..j] == needed[..j];
  }

  /** Once a chunk fails to decode, the page fails whatever follows. */
  lemma {:induction false} GatherFails(cache: map<nat, seq<string>>, words: seq<Option<seq<string>>>,
                                       needed: seq<nat>, j: nat)
    requires AllBelow(needed, |words|) && j <= |needed|
    requires GatherWords(cache, words, needed[..j]) == None
    ensures GatherWords(cache, words, needed) == None
    decreases |needed| - j
  {
    if j < |needed| {
      GatherStep(cache, words, needed, j, Lookup(cache, words, needed[j]));
      GatherFails(cache, words, needed, j + 1);
    } else {
      assert needed[..j] == needed;
    }
  }

  /** With a memo that agrees with the book, the gathered words are those
      of decoding every needed chunk afresh. */
  lemma {:induction false} GatherTransparent(cache: map<nat, seq<string>>, words: seq<Option<seq<string>>>,
                                             needed: seq<nat>)
    requires AllBelow(needed, |words|) && CacheAgrees(cache, words)
    ensures GatherWords(cache, words, needed) == GatherWords(map[], words, needed)
  {
    if needed != [] {
      var n := |needed| - 1;
      GatherTransparent(cache, words, needed[..n]);
      CacheTransparent(cache, words, needed[n]);
    }
  }

  // ---------------------------------------------------------------------------
  // The page shown.
  // ---------------------------------------------------------------------------

  /** What the text area shows: the placeholder for a book without words,
      the header's page number and count with the page's words, or nothing
      when a chunk fails to decode (an exception in the source). */
  datatype View = NoContent | Page(number: nat, count: nat, words: seq<string>) | DecodeFailed

  /** The chunks page `p` needs: those overlapping its window
      `[p * PageWordCount, min(total, p * PageWordCount + PageWordCount))`. */
  function NeededForPage(counts: seq<nat>, p: nat): seq<nat>
  {
    Overlapping(WordRanges(counts), p * PageWordCount, Min(Sum(counts), p * PageWordCount + PageWordCount))
  }

  /** The words of page `p` cut out of the needed chunks' words, counting
      positions from the first needed chunk's start: at most a page of them. */
  function CutPage(all: seq<string>, counts: seq<nat>, p: nat): (page: seq<string>)
    requires p < PageCount(Sum(counts))
    ensures |page| <= PageWordCount
  {
    PageStartsInBook(p, Sum(counts));
    var startWord := p * PageWordCount;
    var endWord := Min(Sum(counts), startWord + PageWordCount);
    FirstNeeded(counts, WordRanges(counts), NeededForPage(counts, p), startWord, endWord);
    var base := WordRanges(counts)[NeededForPage(counts, p)[0]].0;
    Slice(all, startWord - base, endWord - base)
  }

  /** The view of `show_page` for the requested page `page`, with the memo
      `cache`, the index's per-chunk counts `counts` and `words` what decoding each
      chunk gives: nothing for a book without pages; otherwise the page is
      clamped into the book and cut out of the words of the chunks it
      needs, unless one of them fails to decode. */
  function PageView(cache: map<nat, seq<string>>, words: seq<Option<seq<string>>>, counts: seq<nat>, page: int)
    : (v: View)
    requires |words| == |counts|
    ensures v.NoContent? <==> Sum(counts) == 0
    ensures v.Page? ==> 1 <= v.number <= PageCount(Sum(counts)) == v.count && |v.words| <= PageWordCount
    ensures v.Page? ==> v.number == Clamp(page, PageCount(Sum(counts))) + 1
  {
    var pageCount := PageCount(Sum(counts));
    if pageCount == 0 then NoContent
    else
      var p := Clamp(page, pageCount);
      PageStartsInBook(p, Sum(counts));
      OverlappingSpec(WordRanges(counts), p * PageWordCount, Min(Sum(counts), p * PageWordCount + PageWordCount));
      var all := GatherWords(cache, words, NeededForPage(counts, p));
      if all.None? then DecodeFailed else Page(p + 1, pageCount, CutPage(all.value, counts, p))
  }

  /** The view `show_page` builds from the index, the window of the clamped
      page, the chunks it needs and the words gathered for them is the one
      `PageView` describes. */
  lemma {:induction false} ShownPage(cache: map<nat, seq<string>>, words: seq<Option<seq<string>>>, chunks: seq<Chunk>,
                                     counts: seq<nat>, ranges: seq<(nat, nat)>, total: nat, pageCount: nat, page: int, p: nat,
                                     needed: seq<nat>, startWord: int, endWord: int, base: nat, all: Option<seq<string>>,
                                     view: View)
    requires Indexed(chunks, counts, ranges, total, pageCount) && |words| == |chunks|
    requires pageCount > 0 && p == Clamp(page, pageCount)
    requires startWord == p * PageWordCount && endWord == Min(total, startWord + PageWordCount)
    requires needed == Overlapping(ranges, startWord, endWord) && AllBelow(needed, |words|)
    requires needed != [] && needed[0] < |ranges| && base == ranges[needed[0]].0 <= startWord <= endWord
    requires all == GatherWords(cache, words, needed)
    requires view == if all.None? then DecodeFailed else Page(p + 1, pageCount, Slice(all.value, startWord - base, endWord - base))
    ensures view == PageView(cache, words, counts, page)
  {
    assert NeededForPage(counts, p) == needed;
    PageStartsInBook(p, total);
    if all.Some? {
      CutPageAt(all.value, counts, ranges, p, needed, startWord, endWord, base);
    }
  }

  /** The words of page `p` are the window of the page, counted from the
      start of the first chunk the page needs. */
  lemma {:induction false} CutPageAt(all: seq<string>, counts: seq<nat>, ranges: seq<(nat, nat)>, p: nat,
                                     needed: seq<nat>, startWord: int, endWord: int, base: nat)
    requires ranges == WordRanges(counts) && p < PageCount(Sum(counts))
    requires startWord == p * PageWordCount && endWord == Min(Sum(counts), startWord + PageWordCount)
    requires needed == NeededForPage(counts, p)
    requires needed != [] && needed[0] < |ranges| && base == ranges[needed[0]].0 <= startWord <= endWord
    ensures CutPage(all, counts, p) == Slice(all, startWord - base, endWord - base)
  {
  }

  /** The chunks a page of an indexed book needs are chunks of the book, in
      increasing order, and the first of them starts at or before the page. */
  lemma {:induction false} PageChunks(chunks: seq<Chunk>, counts: seq<nat>, ranges: seq<(nat, nat)>, total: nat,
                                      pageCount: nat, p: nat, needed: seq<nat>, startWord: int, endWord: int)
    requires Indexed(chunks, counts, ranges, total, pageCount) && p < pageCount
    requires startWord == p * PageWordCount && endWord == Min(total, startWord + PageWordCount)
    requires needed == Overlapping(ranges, startWord, endWord)
    ensures AllBelow(needed, |chunks|) && Increasing(needed)
    ensures needed != [] && needed[0] < |ranges| && ranges[needed[0]].0 <= startWord <= endWord
    ensures needed == NeededForPage(counts, p)
  {
    OverlappingOrdered(ranges, startWord, endWord);
    PageStartsInBook(p, total);
    FirstNeeded(counts, ranges, needed, startWord, endWord);
  }

  /** A page of the book whose chunks all decode shows its window cut out
      of their words. */
  lemma {:induction false} PageViewOf(cache: map<nat, seq<string>>, words: seq<Option<seq<string>>>,
                                      counts: seq<nat>, p: nat, all: seq<string>)
    requires |words| == |counts| && p < PageCount(Sum(counts))
    requires AllBelow(NeededForPage(counts, p), |words|)
    requires GatherWords(cache, words, NeededForPage(counts, p)) == Some(all)
    ensures PageView(cache, words, counts, p) == Page(p + 1, PageCount(Sum(counts)), CutPage(all, counts, p))
  {
  }

  /** A requested page shows what its clamped page shows. */
  lemma {:induction false} PageViewClamp(cache: map<nat, seq<string>>, words: seq<Option<seq<string>>>,
                                         counts: seq<nat>, page: int)
    requires |words| == |counts| && PageCount(Sum(counts)) > 0
    ensures PageView(cache, words, counts, Clamp(page, PageCount(Sum(counts)))) == PageView(cache, words, counts, page)
  {
  }

  /** With a memo that agrees with the book, every page shows what decoding
      the book afresh shows. */
  lemma {:induction false} PageTransparent(cache: map<nat, seq<string>>, words: seq<Option<seq<string>>>, counts: seq<nat>, page: int)
    requires |words| == |counts| && CacheAgrees(cache, words)
    ensures PageView(cache, words, counts, page) == PageView(map[], words, counts, page)
  {
    var pageCount := PageCount(Sum(counts));
    if pageCount > 0 {
      var p := Clamp(page, pageCount);
      OverlappingSpec(WordRanges(counts), p * PageWordCount, Min(Sum(counts), p * PageWordCount + PageWordCount));
      GatherTransparent(cache, words, NeededForPage(counts, p));
    }
  }

  /** The book of the example below: one chunk of one word whose payload
      is empty, so that decoding it gives no text. */
  lemma {:induction false} EmptyChunkBook()
    ensures BookWords([], [Chunk(0, 0, 0, 0, 1)], None) == [Some([])]
    ensures TokenCounts([Chunk(0, 0, 0, 0, 1)]) == [1]
  {
    var chunks: seq<Chunk> := [Chunk(0, 0, 0, 0, 1)];
    assert chunks[..0] == [];
    assert ChunkBytes([], chunks[0]) == [];
    assert UnpackBits([], 0) == [];
    assert DecodeChunk([], chunks[0], None) == Some("");
  }

  /** The index of a book of one chunk of one word: one page, which needs
      that chunk. */
  lemma {:induction false} OneWordIndex()
    ensures Indexed([Chunk(0, 0, 0, 0, 1)], [1], [(0, 1)], 1, 1)
    ensures Overlapping([(0, 1)], 0, Min(1, 0 + PageWordCount)) == [0]
  {
    var counts: seq<nat> := [1];
    assert counts[..0] == [];
    var ranges: seq<(nat, nat)> := [(0, 1)];
    assert ranges[..0] == [];
    EmptyChunkBook();
  }

  /** A memo entry left from another book is shown as if it belonged to the
      book now open: with one chunk of one word whose payload decodes to no
      text, the page shows the stale word instead of nothing. */
  lemma {:induction false} StaleCacheShown()
    ensures BookWords([], [Chunk(0, 0, 0, 0, 1)], None) == [Some([])]
    ensures TokenCounts([Chunk(0, 0, 0, 0, 1)]) == [1]
    ensures PageView(map[0 := ["stale"]], [Some([])], [1], 0) == Page(1, 1, ["stale"])
    ensures PageView(map[], [Some([])], [1], 0) == Page(1, 1, [])
  {
    EmptyChunkBook();
    OneWordIndex();
    var needed: seq<nat> := [0];
    assert needed[..0] == [];
    var stale: map<nat, seq<string>> := map[0 := ["stale"]];
    assert Lookup(stale, [Some([])], 0) == Some(["stale"]);
    assert Lookup(map[], [Some([])], 0) == Some([]);
    assert [] + ["stale"] == ["stale"];
    var none: seq<string> := [];
    assert none + none == none;
    assert GatherWords(stale, [Some([])], needed) == Some(["stale"]);
    assert GatherWords(map[], [Some([])], needed) == Some([]);
    assert Slice(["stale"], 0, 1) == ["stale"];
    ShownPage(stale, [Some([])], [Chunk(0, 0, 0, 0, 1)], [1], [(0, 1)], 1, 1, 0, 0, needed, 0, 1, 0,
              Some(["stale"]), Page(1, 1, ["stale"]));
    ShownPage(map[], [Some([])], [Chunk(0, 0, 0, 0, 1)], [1], [(0, 1)], 1, 1, 0, 0, needed, 0, 1, 0,
              Some([]), Page(1, 1, []));
  }

  // ---------------------------------------------------------------------------
  // Token counts are not word counts.
  // ---------------------------------------------------------------------------

  /** `k` one-letter words, each followed by a space. */
  function Spaced(k: nat): string
  {
    if k == 0 then [] else "a " + Spaced(k - 1)
  }

  /** A chunk text of `k` words, each followed by a space, is `2 * k`
      word-mode tokens, which is what its record counts, while `split()`
      gives the reader `k` words. */
  lemma {:induction false} TokensAreNotWords(k: nat)
    ensures |WordTokens(Spaced(k))| == 2 * k
    ensures |SplitWords(Spaced(k))| == k
  {
    SpacedTokens(k);
    SpacedSplit(k);
  }

  lemma {:induction false} SpacedTokens(k: nat)
    ensures |WordTokens(Spaced(k))| == 2 * k
  {
    if k > 0 {
      var r := Spaced(k - 1);
      SpacedTokens(k - 1);
      WordTokensSplit("a ", r);
      SpacedHead();
    } else {
      assert Spaced(k) == [];
    }
  }

  lemma {:induction false} SpacedSplit(k: nat)
    ensures |SplitWords(Spaced(k))| == k
  {
    if k > 0 {
      SpacedSplit(k - 1);
      SpacedWords(Spaced(k - 1));
    } else {
      assert Spaced(k) == [];
    }
  }

  lemma SpacedHead()
    ensures WordTokens("a ") == ["a", " "]
  {
    var s := "a ";
    assert HeadLength(s[1..]) == 1 && s[1..][..1] == " " && s[1..][1..] == [];
    assert WordTokens(s[1..]) == [" "];
    assert RunLength(s[1..]) == 0;
    assert HeadLength(s) == 1 && s[..1] == "a";
  }

  lemma SpacedWords(r: string)
    ensures SplitWords("a " + r) == ["a"] + SplitWords(r)
  {
    var s := "a " + r;
    assert WordEnd(s[1..]) == 0;
    assert WordEnd(s) == 1;
    assert s[..1] == "a" && s[1..][1..] == r;
  }

  /** The index of the example below: two chunks counted 300 each give the
      ranges [0, 300) and [300, 600) and three pages. */
  lemma {:induction false} TwoChunkIndex()
    ensures Sum([300, 300]) == 600 && PageCount(600) == 3
    ensures WordRanges([300, 300]) == [(0, 300), (300, 600)]
    ensures NeededForPage([300, 300], 0) == [0]
    ensures NeededForPage([300, 300], 1) == [0, 1]
    ensures NeededForPage([300, 300], 2) == [1]
  {
    var counts: seq<nat> := [300, 300];
    assert counts[..1] == [300] && counts[..1][..0] == [];
    assert Sum(counts[..1]) == 300;
    assert WordRanges(counts[..1]) == [(0, 300)];
    var ranges: seq<(nat, nat)> := [(0, 300), (300, 600)];
    assert WordRanges(counts) == ranges;
    assert ranges[..1] == [(0, 300)] && ranges[..1][..0] == [];
    assert Overlapping(ranges[..1], 0, 250) == [0];
    assert Overlapping(ranges[..1], 250, 500) == [0];
    assert Overlapping(ranges[..1], 500, 600) == [];
  }

  /** Token counts taken as word counts skip words. Two chunks of 300 tokens
      and 150 words each (`Spaced(150)` is such a text) make a book of 600
      counted words and three pages: page 1 shows the first chunk, page 2
      only the last 50 words of the second chunk and page 3 nothing, so the
      second chunk's first 100 words are on no page. */
  lemma {:induction false} TokenCountsSkipWords(w0: seq<string>, w1: seq<string>)
    requires |w0| == 150 && |w1| == 150
    ensures PageView(map[], [Some(w0), Some(w1)], [300, 300], 0) == Page(1, 3, w0)
    ensures PageView(map[], [Some(w0), Some(w1)], [300, 300], 1) == Page(2, 3, w1[100..])
    ensures PageView(map[], [Some(w0), Some(w1)], [300, 300], 2) == Page(3, 3, [])
  {
    FirstPageOfTwo(w0, w1);
    SecondPageOfTwo(w0, w1);
    ThirdPageOfTwo(w0, w1);
  }

  /** A slice that runs past the end is the rest of the sequence. */
  lemma SliceToEnd<X>(s: seq<X>, lo: nat, hi: nat)
    requires lo <= |s| <= hi
    ensures Slice(s, lo, hi) == s[lo..]
  {
  }

  lemma {:induction false} FirstPageOfTwo(w0: seq<string>, w1: seq<string>)
    requires |w0| == 150 && |w1| == 150
    ensures PageView(map[], [Some(w0), Some(w1)], [300, 300], 0) == Page(1, 3, w0)
  {
    TwoChunkIndex();
    var needed: seq<nat> := [0];
    assert needed[..0] == [] && [] + w0 == w0;
    assert GatherWords(map[], [Some(w0), Some(w1)], needed) == Some(w0);
    CutPageAt(w0, [300, 300], WordRanges([300, 300]), 0, needed, 0, 250, 0);
    SliceToEnd(w0, 0, 250);
    assert w0[0..] == w0;
    PageViewOf(map[], [Some(w0), Some(w1)], [300, 300], 0, w0);
  }

  lemma {:induction false} SecondPageOfTwo(w0: seq<string>, w1: seq<string>)
    requires |w0| == 150 && |w1| == 150
    ensures PageView(map[], [Some(w0), Some(w1)], [300, 300], 1) == Page(2, 3, w1[100..])
  {
    TwoChunkIndex();
    var needed: seq<nat> := [0, 1];
    assert needed[..1] == [0] && needed[..1][..0] == [] && [] + w0 == w0;
    assert GatherWords(map[], [Some(w0), Some(w1)], needed[..1]) == Some(w0);
    assert GatherWords(map[], [Some(w0), Some(w1)], needed) == Some(w0 + w1);
    CutPageAt(w0 + w1, [300, 300], WordRanges([300, 300]), 1, needed, 250, 500, 0);
    SliceToEnd(w0 + w1, 250, 500);
    assert (w0 + w1)[250..] == w1[100..];
    PageViewOf(map[], [Some(w0), Some(w1)], [300, 300], 1, w0 + w1);
  }

  lemma {:induction false} ThirdPageOfTwo(w0: seq<string>, w1: seq<string>)
    requires |w0| == 150 && |w1| == 150
    ensures PageView(map[], [Some(w0), Some(w1)], [300, 300], 2) == Page(3, 3, [])
  {
    TwoChunkIndex();
    var needed: seq<nat> := [1];
    assert needed[..0] == [] && [] + w1 == w1;
    assert GatherWords(map[], [Some(w0), Some(w1)], needed) == Some(w1);
    CutPageAt(w1, [300, 300], WordRanges([300, 300]), 2, needed, 500, 600, 300);
    assert Slice(w1, 200, 300) == [];
    PageViewOf(map[], [Some(w0), Some(w1)], [300, 300], 2, w1);
  }

  // ---------------------------------------------------------------------------
  // Pages from word counts.
  // ---------------------------------------------------------------------------

  /** The count each chunk should have: the number of words `split()` gives
      for it, `ws[i]` being the words of chunk `i`. */
  function WordCounts(ws: seq<seq<string>>): seq<nat>
  {
    seq(|ws|, i requires 0 <= i < |ws| => |ws[i]|)
  }

  /** Every chunk decoded to its words. */
  function Decoded(ws: seq<seq<string>>): seq<Option<seq<string>>>
  {
    seq(|ws|, i requires 0 <= i < |ws| => Some(ws[i]))
  }

  /** The book's words, chunk after chunk. */
  function JoinWords(ws: seq<seq<string>>): seq<string>
  {
    if ws == [] then [] else JoinWords(ws[..|ws| - 1]) + ws[|ws| - 1]
  }

  lemma {:induction false} JoinWordsAppend(x: seq<seq<string>>, y: seq<seq<string>>)
    ensures JoinWords(x + y) == JoinWords(x) + JoinWords(y)
    decreases |y|
  {
    if y == [] {
      assert x + y == x;
    } else {
      var n := |y| - 1;
      assert (x + y)[..|x + y| - 1] == x + y[..n];
      JoinWordsAppend(x, y[..n]);
      ConcatAssoc(JoinWords(x), JoinWords(y[..n]), y[n]);
    }
  }

  /** The book has as many words as the counts add up to. */
  lemma {:induction false} JoinWordsLength(ws: seq<seq<string>>)
    ensures |JoinWords(ws)| == Sum(WordCounts(ws))
  {
    if ws != [] {
      var n := |ws| - 1;
      assert WordCounts(ws)[..n] == WordCounts(ws[..n]);
      JoinWordsLength(ws[..n]);
    }
  }

  /** The chunks a window needs are consecutive: no chunk between two
      needed ones is skipped, since the ranges follow one another. */
  lemma {:induction false} NeededConsecutive(counts: seq<nat>, startWord: int, endWord: int)
    ensures var needed := Overlapping(WordRanges(counts), startWord, endWord);
            forall k :: 0 <= k < |needed| ==> needed[k] == needed[0] + k
  {
    var ranges := WordRanges(counts);
    var needed := Overlapping(ranges, startWord, endWord);
    OverlappingSpec(ranges, startWord, endWord);
    forall k | 0 <= k < |needed| - 1
      ensures needed[k + 1] == needed[k] + 1
    {
      var i, l := needed[k], needed[k + 1];
      var j := i + 1;
      BetweenOverlaps(counts, startWord, endWord, i, j, l);
      assert j in needed;
      var m :| 0 <= m < |needed| && needed[m] == j;
      assert needed[k] < needed[m];
      assert needed[k + 1] <= needed[m];
    }
    forall k | 0 <= k < |needed|
      ensures needed[k] == needed[0] + k
    {
      StepsToOffsets(needed, k);
    }
  }

  /** A chunk between two that overlap a window overlaps it too. */
  lemma {:induction false} BetweenOverlaps(counts: seq<nat>, startWord: int, endWord: int, i: nat, j: nat, l: nat)
    requires i <= j <= l < |counts|
    requires Overlaps(WordRanges(counts)[i], startWord, endWord) && Overlaps(WordRanges(counts)[l], startWord, endWord)
    ensures Overlaps(WordRanges(counts)[j], startWord, endWord)
  {
    RangeAt(counts, i);
    RangeAt(counts, j);
    RangeAt(counts, l);
    SumPrefixGrows(counts, j, l);
    SumPrefixGrows(counts, i + 1, j + 1);
  }

  lemma {:induction false} StepsToOffsets(xs: seq<nat>, k: nat)
    requires forall j :: 0 <= j < |xs| - 1 ==> xs[j + 1] == xs[j] + 1
    requires k < |xs|
    ensures xs[k] == xs[0] + k
    decreases k
  {
    if k > 0 {
      StepsToOffsets(xs, k - 1);
    }
  }

  /** Gathering consecutive chunks from `a` on gives their words, one
      chunk after the other. */
  lemma {:induction false} GatherConsecutive(ws: seq<seq<string>>, needed: seq<nat>, a: nat)
    requires a + |needed| <= |ws| && forall k :: 0 <= k < |needed| ==> needed[k] == a + k
    ensures AllBelow(needed, |Decoded(ws)|)
    ensures GatherWords(map[], Decoded(ws), needed) == Some(JoinWords(ws[a..a + |needed|]))
    decreases |needed|
  {
    if needed == [] {
      assert ws[a..a] == [];
    } else {
      var n := |needed| - 1;
      GatherConsecutive(ws, needed[..n], a);
      assert ws[a..a + n + 1][..n] == ws[a..a + n];
    }
  }

  /** The window of a page lies in the chunks it needs: they are chunks
      `a` to `a + m - 1`, the first starting at or before the window and the
      last ending at or after it. */
  lemma {:induction false} WindowInChunks(counts: seq<nat>, p: nat) returns (a: nat, m: nat)
    requires p < PageCount(Sum(counts))
    ensures m == |NeededForPage(counts, p)| && m > 0 && a == NeededForPage(counts, p)[0] && a + m <= |counts|
    ensures forall k :: 0 <= k < m ==> NeededForPage(counts, p)[k] == a + k
    ensures WordRanges(counts)[a].0 == Sum(counts[..a]) <= p * PageWordCount
    ensures Min(Sum(counts), p * PageWordCount + PageWordCount) <= Sum(counts[..a + m])
  {
    var ranges := WordRanges(counts);
    var startWord := p * PageWordCount;
    var endWord := Min(Sum(counts), startWord + PageWordCount);
    var needed := NeededForPage(counts, p);
    PageStartsInBook(p, Sum(counts));
    OverlappingOrdered(ranges, startWord, endWord);
    FirstNeeded(counts, ranges, needed, startWord, endWord);
    NeededConsecutive(counts, startWord, endWord);
    a, m := needed[0], |needed|;
    assert needed[m - 1] == a + m - 1;
    RangeAt(counts, a);
    WindowEnd(counts, startWord, endWord, a, m);
  }

  /** The last of `m` consecutive chunks from `a` that a window needs ends at
      or after the window. */
  lemma {:induction false} WindowEnd(counts: seq<nat>, startWord: nat, endWord: nat, a: nat, m: nat)
    requires startWord < endWord <= Sum(counts)
    requires var needed := Overlapping(WordRanges(counts), startWord, endWord);
             m == |needed| && a + m <= |counts| && forall k :: 0 <= k < m ==> needed[k] == a + k
    ensures endWord <= Sum(counts[..a + m])
  {
    var ranges := WordRanges(counts);
    var needed := Overlapping(ranges, startWord, endWord);
    OverlappingComplete(ranges, startWord, endWord);
    var c := CoveringChunk(counts, endWord - 1);
    assert Overlaps(ranges[c], startWord, endWord);
    assert c in needed;
    var kc :| 0 <= kc < m && needed[kc] == c;
    RangeAt(counts, c);
    SumPrefixGrows(counts, c + 1, a + m);
  }

  /** With each chunk counted by its words, page `p` shows exactly words
      `p * PageWordCount` up to the end of its window of the whole book. */
  lemma {:induction false} WordCountPage(ws: seq<seq<string>>, p: nat)
    requires p < PageCount(Sum(WordCounts(ws)))
    ensures var total := Sum(WordCounts(ws));
            var startWord := p * PageWordCount;
            |JoinWords(ws)| == total &&
            PageView(map[], Decoded(ws), WordCounts(ws), p) ==
            Page(p + 1, PageCount(total), JoinWords(ws)[startWord..Min(total, startWord + PageWordCount)])
  {
    var counts := WordCounts(ws);
    var total := Sum(counts);
    var startWord := p * PageWordCount;
    var endWord := Min(total, startWord + PageWordCount);
    JoinWordsLength(ws);
    var a, m := WindowInChunks(counts, p);
    var needed := NeededForPage(counts, p);
    GatherConsecutive(ws, needed, a);
    var base := Sum(counts[..a]);
    var shown := JoinWords(ws[a..a + m]);
    ChunksInBook(ws, a, m, startWord, endWord, base, shown);
    CutPageAt(shown, counts, WordRanges(counts), p, needed, startWord, endWord, base);
    PageViewOf(map[], Decoded(ws), counts, p, shown);
  }

  /** The words of chunks `a` to `a + m - 1` are the book's words from the
      first one's start, so a window inside them is that window of the
      book. */
  lemma {:induction false} ChunksInBook(ws: seq<seq<string>>, a: nat, m: nat, startWord: nat, endWord: nat,
                                        base: nat, shown: seq<string>)
    requires a + m <= |ws| && base == Sum(WordCounts(ws)[..a]) && shown == JoinWords(ws[a..a + m])
    requires base <= startWord <= endWord <= Sum(WordCounts(ws)[..a + m])
    ensures endWord <= |JoinWords(ws)|
    ensures Slice(shown, startWord - base, endWord - base) == JoinWords(ws)[startWord..endWord]
  {
    var before, after := JoinWords(ws[..a]), JoinWords(ws[a + m..]);
    JoinThree(ws, a, m);
    PrefixWords(ws, a);
    PrefixWords(ws, a + m);
    SliceOfMiddle(before, shown, after, startWord, endWord);
  }

  /** The book's words are those of the chunks before `a`, of chunks `a` to
      `a + m - 1`, and of the chunks after. */
  lemma {:induction false} JoinThree(ws: seq<seq<string>>, a: nat, m: nat)
    requires a + m <= |ws|
    ensures JoinWords(ws[..a + m]) == JoinWords(ws[..a]) + JoinWords(ws[a..a + m])
    ensures JoinWords(ws) == JoinWords(ws[..a + m]) + JoinWords(ws[a + m..])
  {
    assert ws[..a] + ws[a..a + m] == ws[..a + m];
    assert ws[..a + m] + ws[a + m..] == ws;
    JoinWordsAppend(ws[..a], ws[a..a + m]);
    JoinWordsAppend(ws[..a + m], ws[a + m..]);
  }

  /** The first `n` chunks hold as many words as their counts add up to. */
  lemma {:induction false} PrefixWords(ws: seq<seq<string>>, n: nat)
    requires n <= |ws|
    ensures |JoinWords(ws[..n])| == Sum(WordCounts(ws)[..n])
  {
    assert WordCounts(ws[..n]) == WordCounts(ws)[..n];
    JoinWordsLength(ws[..n]);
  }

  /** A window of `(p + m) + q` that lies inside `m` is that window of `m`,
      shifted by the length of `p`. */
  lemma SliceOfMiddle<X>(p: seq<X>, m: seq<X>, q: seq<X>, lo: nat, hi: nat)
    requires |p| <= lo <= hi <= |p| + |m|
    ensures hi <= |(p + m) + q|
    ensures Slice(m, lo - |p|, hi - |p|) == ((p + m) + q)[lo..hi]
  {
    assert ((p + m) + q)[lo..hi] == m[lo - |p|..hi - |p|];
  }

  /** With each chunk counted by its words, every word of the book is on
      its page, at its place: word `i` is word `i % PageWordCount` of page
      `i / PageWordCount`. */
  lemma {:induction false} WordCountPagesShowBook(ws: seq<seq<string>>, i: nat)
    requires i < |JoinWords(ws)|
    ensures var v := PageView(map[], Decoded(ws), WordCounts(ws), i / PageWordCount);
            v.Page? && i % PageWordCount < |v.words| && v.words[i % PageWordCount] == JoinWords(ws)[i]
  {
    JoinWordsLength(ws);
    var total := |JoinWords(ws)|;
    var p := i / PageWordCount;
    assert p * PageWordCount <= i < p * PageWordCount + PageWordCount;
    assert p < PageCount(total);
    WordCountPage(ws, p);
  }

  // ---------------------------------------------------------------------------
  // The reader.
  // ---------------------------------------------------------------------------

  /** `root` is the tree `build_huffman_tree` makes from `freq`: none for an
      empty table, otherwise a well-formed tree whose leaves are the table's
      entries. */
  ghost predicate TreeFor(root: Option<Node>, freq: map<string, nat>)
  {
    (root.None? <==> freq == map[]) &&
    (root.Some? ==> WellFormed(root.value) && LeavesMatch(root.value, freq))
  }

  class ChunkedReader {
    var chunks: seq<Chunk>
    var freqTable: map<string, nat>
    var data: seq<byte>
    /** `self.hc.root`: the tree the chunks are decoded with. */
    var root: Option<Node>
    var totalWords: nat
    var wordsPerChunk: seq<nat>
    var chunkWordRanges: seq<(nat, nat)>
    var pageCount: nat
    /** chunk index -> decoded word list */
    var decodedCache: map<nat, seq<string>>
    var currentPage: int

    /** The index fields describe the chunks now loaded. */
    ghost predicate Valid()
      reads this`chunks, this`wordsPerChunk, this`chunkWordRanges, this`totalWords, this`pageCount
    {
      Indexed(chunks, wordsPerChunk, chunkWordRanges, totalWords, pageCount)
    }

    /** What decoding each chunk of the book loaded gives. */
    function Words(): seq<Option<seq<string>>>
      reads this`data, this`chunks, this`root
    {
      BookWords(data, chunks, root)
    }

    /** The view of page `page` with the memo `cache`, for the book loaded. */
    function View(cache: map<nat, seq<string>>, page: int): View
      reads this`data, this`chunks, this`root, this`wordsPerChunk, this`chunkWordRanges, this`totalWords, this`pageCount
      requires Valid()
    {
      PageView(cache, Words(), wordsPerChunk, page)
    }

    /** The state before any book is opened: no chunks and so no pages. */
    constructor ()
      ensures Valid() && chunks == [] && decodedCache == map[] && currentPage == 0 && pageCount == 0
    {
      chunks := [];
      freqTable := map[];
      data := [];
      root := None;
      totalWords := 0;
      wordsPerChunk := [];
      chunkWordRanges := [];
      pageCount := 0;
      decodedCache := map[];
      currentPage := 0;
      new;
      assert Sum([]) == 0;
    }

    /** The index building of `load_book`: the word count of each chunk is
        its record's token count, the total is their sum, the page count
        its ceiling over the page size, and each chunk's word range comes
        from a running sum. */
    method BuildIndex()
      modifies this`wordsPerChunk, this`totalWords, this`pageCount, this`chunkWordRanges
      ensures Valid()
    {
      var counts: seq<nat> := [];
      assert chunks[..0] == [];
      for i := 0 to |chunks|
        invariant counts == TokenCounts(chunks[..i])
      {
        assert chunks[..i + 1][..i] == chunks[..i];
        counts := counts + [chunks[i].tokens];
      }
      assert chunks[..|chunks|] == chunks;
      wordsPerChunk := counts;
      totalWords := Sum(counts);
      pageCount := (totalWords + PageWordCount - 1) / PageWordCount;
      ghost var total := totalWords;
      assert total == Sum(counts);
      var ranges: seq<(nat, nat)> := [];
      var running: nat := 0;
      assert counts[..0] == [];
      for i := 0 to |counts|
        invariant ranges == WordRanges(counts[..i]) && running == Sum(counts[..i])
        invariant wordsPerChunk == counts && totalWords == total && pageCount == PageCount(total)
      {
        var count := counts[i];
        var start := running;
        var end := running + count;
        assert counts[..i + 1][..i] == counts[..i];
        SumPrefixStep(counts, i);
        ranges := ranges + [(start, end)];
        running := end;
      }
      assert counts[..|counts|] == counts;
      chunkWordRanges := ranges;
    }

    /** `find_chunks_for_page`: the window of the page and the chunks whose
        ranges overlap it, in increasing order. */
    method FindChunksForPage(pageIndex: int) returns (needed: seq<nat>, startWord: int, endWord: int)
      ensures startWord == pageIndex * PageWordCount
      ensures endWord == Min(totalWords, startWord + PageWordCount) && endWord <= totalWords
      ensures needed == Overlapping(chunkWordRanges, startWord, endWord)
    {
      startWord := pageIndex * PageWordCount;
      endWord := Min(totalWords, startWord + PageWordCount);
      needed := [];
      assert chunkWordRanges[..0] == [];
      for i := 0 to |chunkWordRanges|
        invariant needed == Overlapping(chunkWordRanges[..i], startWord, endWord)
      {
        var (cstart, cend) := chunkWordRanges[i];
        assert chunkWordRanges[..i + 1][..i] == chunkWordRanges[..i];
        if !(endWord <= cstart || startWord >= cend) {
          needed := needed + [i];
        }
      }
      assert chunkWordRanges[..|chunkWordRanges|] == chunkWordRanges;
    }

    /** `decode_chunk`: on a hit the stored list is returned and the memo is
        unchanged; on a miss the chunk's bytes are unpacked, decoded and
        split into words, and exactly that entry is added. A failed decode
        (an exception in the source) adds nothing. */
    method DecodeChunk(chunkIndex: nat) returns (words: Option<seq<string>>)
      requires chunkIndex < |chunks|
      modifies this`decodedCache
      ensures words == Lookup(old(decodedCache), Words(), chunkIndex)
      ensures decodedCache == if chunkIndex in old(decodedCache) || words.None? then old(decodedCache)
                              else old(decodedCache)[chunkIndex := words.value]
    {
      if chunkIndex in decodedCache {
        return Some(decodedCache[chunkIndex]);
      }
      var chunk := chunks[chunkIndex];
      var chunkBytes := Slice(data, chunk.offset, chunk.offset + chunk.length);
      var bitstring := UnpackBits(chunkBytes, chunk.padding);
      var decodedText := DecodeWithTreeCorrected(root, bitstring);
      if decodedText.None? {
        return None;
      }
      var ws := SplitWords(decodedText.value);
      decodedCache := decodedCache[chunkIndex := ws];
      return Some(ws);
    }

    /** `show_page`: with no pages nothing changes; otherwise the current
        page is clamped into the book and the page is shown as `View`
        describes, with the memo as it was on entry. The memo only grows,
        and stays in agreement with the book if it was. */
    method ShowPage() returns (view: View)
      requires Valid()
      modifies this`currentPage, this`decodedCache
      ensures Valid()
      ensures pageCount == 0 ==> currentPage == old(currentPage)
      ensures pageCount > 0 ==> currentPage == Clamp(old(currentPage), pageCount)
      ensures view == View(old(decodedCache), old(currentPage))
      ensures pageCount == 0 ==> decodedCache == old(decodedCache)
      ensures pageCount > 0 ==> GrewFor(old(decodedCache), decodedCache,
                                        NeededForPage(wordsPerChunk, Clamp(old(currentPage), pageCount)))
      ensures NewDecoded(old(decodedCache), decodedCache, Words())
      ensures CacheAgrees(old(decodedCache), Words()) ==> CacheAgrees(decodedCache, Words())
    {
      if pageCount == 0 {
        return NoContent;
      }
      ghost var cache0, page0 := decodedCache, currentPage;
      currentPage := Clamp(currentPage, pageCount);
      view := RenderPage(currentPage);
      PageViewClamp(cache0, Words(), wordsPerChunk, page0);
    }

    /** The body of `show_page` for a page of the book: the chunks the page
        needs are found, their words gathered, and the page's window cut out
        of them. */
    method RenderPage(page: nat) returns (view: View)
      requires Valid() && page < pageCount
      modifies this`decodedCache
      ensures view == PageView(old(decodedCache), Words(), wordsPerChunk, page)
      ensures GrewFor(old(decodedCache), decodedCache, NeededForPage(wordsPerChunk, page))
      ensures NewDecoded(old(decodedCache), decodedCache, Words())
      ensures CacheAgrees(old(decodedCache), Words()) ==> CacheAgrees(decodedCache, Words())
    {
      ghost var cache0, ws := decodedCache, Words();
      var needed, startWord, endWord := FindChunksForPage(page);
      PageChunks(chunks, wordsPerChunk, chunkWordRanges, totalWords, pageCount, page, needed, startWord, endWord);
      var allWords := GatherPage(needed);
      var base := chunkWordRanges[needed[0]].0;
      // A chunk that fails to decode raises in the source: the page is not shown.
      view := if allWords.None? then DecodeFailed
              else Page(page + 1, pageCount, Slice(allWords.value, startWord - base, endWord - base));
      ShownPage(cache0, ws, chunks, wordsPerChunk, chunkWordRanges, totalWords, pageCount, page, page,
                needed, startWord, endWord, base, allWords, view);
    }

    /** The loop of `show_page` over the needed chunks: each is decoded
        (or taken from the memo) and its words appended; the memo is the one
        on entry for every chunk, since each chunk is needed once. */
    method GatherPage(needed: seq<nat>) returns (allWords: Option<seq<string>>)
      requires AllBelow(needed, |chunks|) && Increasing(needed)
      modifies this`decodedCache
      ensures allWords == GatherWords(old(decodedCache), Words(), needed)
      ensures GrewFor(old(decodedCache), decodedCache, needed)
      ensures NewDecoded(old(decodedCache), decodedCache, Words())
      ensures CacheAgrees(old(decodedCache), Words()) ==> CacheAgrees(decodedCache, Words())
    {
      ghost var cache0 := decodedCache;
      ghost var bw := Words();
      var all: seq<string> := [];
      assert needed[..0] == [];
      for j := 0 to |needed|
        invariant GrewFor(cache0, decodedCache, needed[..j])
        invariant CacheAgrees(cache0, bw) ==> CacheAgrees(decodedCache, bw)
        invariant NewDecoded(cache0, decodedCache, bw)
        invariant GatherWords(cache0, bw, needed[..j]) == Some(all)
        invariant bw == Words()
      {
        IncreasingFresh(needed, j);
        ghost var cache1 := decodedCache;
        var words := DecodeChunk(needed[j]);
        GatherInvariant(cache0, cache1, decodedCache, bw, needed, j, words);
        GatherStep(cache0, bw, needed, j, words);
        if words.None? {
          GatherFails(cache0, bw, needed, j + 1);
          GrewForPrefix(cache0, decodedCache, needed, j + 1);
          return None;
        }
        all := all + words.value;
      }
      assert needed[..|needed|] == needed;
      return Some(all);
    }

    /** One chunk of the loop of `show_page`: the chunk was not needed
        before, so the memo still answers for it as it did on entry; the memo
        after the chunk is decoded still extends the one on entry, has new
        entries only for the chunks seen so far, and still agrees with the
        book if the one on entry did. */
    static lemma {:induction false} GatherInvariant(cache0: map<nat, seq<string>>, cache1: map<nat, seq<string>>,
                                                    cache2: map<nat, seq<string>>, words: seq<Option<seq<string>>>,
                                                    needed: seq<nat>, j: nat, w: Option<seq<string>>)
      requires j < |needed| && needed[j] < |words| && needed[j] !in needed[..j]
      requires GrewFor(cache0, cache1, needed[..j])
      requires CacheAgrees(cache0, words) ==> CacheAgrees(cache1, words)
      requires NewDecoded(cache0, cache1, words)
      requires w == Lookup(cache1, words, needed[j])
      requires cache2 == if needed[j] in cache1 || w.None? then cache1 else cache1[needed[j] := w.value]
      ensures w == Lookup(cache0, words, needed[j])
      ensures GrewFor(cache0, cache2, needed[..j + 1])
      ensures CacheAgrees(cache0, words) ==> CacheAgrees(cache2, words)
      ensures NewDecoded(cache0, cache2, words)
    {
      assert needed[..j + 1] == needed[..j] + [needed[j]];
      if needed[j] !in cache1 && w.Some? {
        StoreAgreesIf(cache0, cache1, words, needed[j], w.value);
      }
    }

    /** A memo grown for some of the needed chunks grew for the needed
        chunks. */
    static lemma {:induction false} GrewForPrefix(before: map<nat, seq<string>>, after: map<nat, seq<string>>,
                                                 needed: seq<nat>, k: nat)
      requires k <= |needed| && GrewFor(before, after, needed[..k])
      ensures GrewFor(before, after, needed)
    {
      forall i | i in after && i !in before
        ensures i in needed
      {
        assert i in needed[..k];
      }
    }

    /** A decoded entry stored during `show_page` keeps the memo in
        agreement when it was in agreement on entry. */
    static lemma {:induction false} StoreAgreesIf(cache0: map<nat, seq<string>>, cache1: map<nat, seq<string>>,
                               words: seq<Option<seq<string>>>, i: nat, w: seq<string>)
      requires i < |words| && words[i] == Some(w)
      requires CacheAgrees(cache0, words) ==> CacheAgrees(cache1, words)
      ensures CacheAgrees(cache0, words) ==> CacheAgrees(cache1[i := w], words)
    {
      if CacheAgrees(cache0, words) {
        StoreAgrees(cache1, words, i, w);
      }
    }

    /** `next_page`: one page on, then shown (and clamped). */
    method NextPage() returns (view: View)
      requires Valid()
      modifies this`currentPage, this`decodedCache
      ensures Valid()
      ensures view == View(old(decodedCache), old(currentPage) + 1)
      ensures currentPage == if pageCount == 0 then old(currentPage) + 1 else Clamp(old(currentPage) + 1, pageCount)
      ensures pageCount == 0 ==> decodedCache == old(decodedCache)
      ensures pageCount > 0 ==> GrewFor(old(decodedCache), decodedCache,
                                        NeededForPage(wordsPerChunk, Clamp(old(currentPage) + 1, pageCount)))
      ensures NewDecoded(old(decodedCache), decodedCache, Words())
      ensures CacheAgrees(old(decodedCache), Words()) ==> CacheAgrees(decodedCache, Words())
    {
      currentPage := currentPage + 1;
      view := ShowPage();
    }

    /** `prev_page`: one page back, then shown (and clamped). */
    method PrevPage() returns (view: View)
      requires Valid()
      modifies this`currentPage, this`decodedCache
      ensures Valid()
      ensures view == View(old(decodedCache), old(currentPage) - 1)
      ensures currentPage == if pageCount == 0 then old(currentPage) - 1 else Clamp(old(currentPage) - 1, pageCount)
      ensures pageCount == 0 ==> decodedCache == old(decodedCache)
      ensures pageCount > 0 ==> GrewFor(old(decodedCache), decodedCache,
                                        NeededForPage(wordsPerChunk, Clamp(old(currentPage) - 1, pageCount)))
      ensures NewDecoded(old(decodedCache), decodedCache, Words())
      ensures CacheAgrees(old(decodedCache), Words()) ==> CacheAgrees(decodedCache, Words())
    {
      currentPage := currentPage - 1;
      view := ShowPage();
    }

    /** Opening a book, as `load_book` does it once the files are read: the
        tree is built from the table, the index is built, and the first page
        is shown. The memo is NOT cleared, so the page is shown with the
        entries the previous book left. */
    method LoadBook(newChunks: seq<Chunk>, newData: seq<byte>, newFreq: map<string, nat>) returns (view: View)
      modifies this
      ensures chunks == newChunks && data == newData && freqTable == newFreq
      ensures TreeFor(root, newFreq)
      ensures Valid() && currentPage == 0
      ensures view == View(old(decodedCache), 0)
      ensures pageCount == 0 ==> decodedCache == old(decodedCache)
      ensures pageCount > 0 ==> GrewFor(old(decodedCache), decodedCache, NeededForPage(wordsPerChunk, 0))
      ensures NewDecoded(old(decodedCache), decodedCache, Words())
      ensures CacheAgrees(old(decodedCache), Words()) ==> CacheAgrees(decodedCache, Words())
    {
      OpenBook(newChunks, newData, newFreq);
      view := ShowPage();
    }

    /** The part of `load_book` before the first page is shown: the files'
        contents are taken, the tree and the index are built, and the reader
        goes back to the first page. The memo is left as it was. */
    method OpenBook(newChunks: seq<Chunk>, newData: seq<byte>, newFreq: map<string, nat>)
      modifies this`chunks, this`data, this`freqTable, this`root, this`wordsPerChunk, this`totalWords, this`pageCount, this`chunkWordRanges, this`currentPage
      ensures chunks == newChunks && data == newData && freqTable == newFreq
      ensures TreeFor(root, newFreq)
      ensures Valid() && currentPage == 0
    {
      LoadFiles(newChunks, newData, newFreq);
      BuildIndex();
      currentPage := 0;
    }

    /** `load_book` with the memo cleared before the book is opened:
        the memo agrees with the new book and every page shows what
        decoding the book gives. */
    method LoadBookClearingCache(newChunks: seq<Chunk>, newData: seq<byte>, newFreq: map<string, nat>)
      returns (view: View)
      modifies this
      ensures chunks == newChunks && data == newData && freqTable == newFreq
      ensures TreeFor(root, newFreq)
      ensures Valid() && currentPage == 0
      ensures view == View(map[], 0)
      ensures CacheAgrees(decodedCache, Words())
    {
      decodedCache := map[];
      view := LoadBook(newChunks, newData, newFreq);
    }

    /** The metadata and payload of `load_book` and the tree built from the
        table. */
    method LoadFiles(newChunks: seq<Chunk>, newData: seq<byte>, newFreq: map<string, nat>)
      modifies this`chunks, this`data, this`freqTable, this`root
      ensures chunks == newChunks && data == newData && freqTable == newFreq
      ensures TreeFor(root, newFreq)
    {
      freqTable := newFreq;
      chunks := newChunks;
      data := newData;
      var hcRoot := BuildHuffmanTree(freqTable);
      var hc := new HuffmanCoding();
      hc.GenerateCodes(hcRoot, "");
      hc.root := hcRoot;
      root := hc.root;
    }
  }
}
