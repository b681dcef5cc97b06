/** The per-chunk decode loop of `decompress_file_streaming_hybrid`: each
    chunk record selects its bytes of the payload, the padding is cut off
    and the bits are walked down the tree; the chunks' texts are joined. */
module Decompressor {
  import opened Common
  import opened Bits
  import opened Huffman
  import opened Decoder
  import opened Encoder

  /** `data[offset: offset + length]` */
  function ChunkBytes(data: seq<byte>, c: Chunk): seq<byte>
  {
    Slice(data, c.offset, c.offset + c.length)
  }

  /** The text one chunk decodes to, or `None` when the walk crashes; a tree
      that is a lone leaf is decoded as intended (see `DecodeTextCorrected`). */
  function DecodeChunk(data: seq<byte>, c: Chunk, root: Option<Node>): Option<string>
  {
    DecodeTextCorrected(root, UnpackBits(ChunkBytes(data, c), c.padding))
  }

  /** Each record's text, in the order of the records. */
  function ChunkTexts(data: seq<byte>, cs: seq<Chunk>, root: Option<Node>): (rs: seq<Option<string>>)
    ensures |rs| == |cs|
  {
    if cs == [] then [] else ChunkTexts(data, cs[..|cs| - 1], root) + [DecodeChunk(data, cs[|cs| - 1], root)]
  }

  /** Entry `k` is what record `k` decodes to. */
  lemma {:induction false} ChunkTextsAt(data: seq<byte>, cs: seq<Chunk>, root: Option<Node>, k: nat)
    requires k < |cs|
    ensures ChunkTexts(data, cs, root)[k] == DecodeChunk(data, cs[k], root)
    decreases |cs|
  {
    if k < |cs| - 1 {
      ChunkTextsAt(data, cs[..|cs| - 1], root, k);
    }
  }

  /** A run's text followed by one more record's text; a crash in either
      is a crash. */
  function Join(init: Option<string>, last: Option<string>): Option<string>
  {
    if init.None? || last.None? then None else Some(init.value + last.value)
  }

  /** The texts joined in order, or `None` when any of them is a crash. */
  function JoinAll(rs: seq<Option<string>>): Option<string>
  {
    if rs == [] then Some("") else Join(JoinAll(rs[..|rs| - 1]), rs[|rs| - 1])
  }

  /** `"".join(parts)` over the decoded chunks, in the order of the records;
      `None` when any chunk crashes. */
  function DecodeChunks(data: seq<byte>, cs: seq<Chunk>, root: Option<Node>): Option<string>
  {
    JoinAll(ChunkTexts(data, cs, root))
  }

  /** Record `i`: its bytes, the bits without the padding, the walk. */
  method DecodeOneChunk(data: seq<byte>, chunks: seq<Chunk>, i: nat, root: Option<Node>)
    returns (decodedText: Option<string>)
    requires i < |chunks|
    ensures decodedText == ChunkTexts(data, chunks, root)[i]
  {
    var chunk := chunks[i];
    var chunkBytes := Slice(data, chunk.offset, chunk.offset + chunk.length);
    var bitstring := UnpackBits(chunkBytes, chunk.padding);
    decodedText := DecodeWithTreeCorrected(root, bitstring);
    assert decodedText == DecodeChunk(data, chunk, root);
    ChunkTextsAt(data, chunks, root, i);
  }

  /** The loop over the chunk records, collecting each chunk's text in
      `parts` and joining them at the end. */
  method DecompressChunks(data: seq<byte>, chunks: seq<Chunk>, root: Option<Node>) returns (r: Option<string>)
    ensures r == DecodeChunks(data, chunks, root)
  {
    ghost var rs := ChunkTexts(data, chunks, root);
    var parts: seq<string> := [];
    assert rs[..0] == [];
    for i := 0 to |chunks|
      invariant JoinAll(rs[..i]) == Some(Flatten(parts))
    {
      var decodedText := DecodeOneChunk(data, chunks, i, root);
      JoinStep(rs, i, parts, decodedText);
      if decodedText.None? {
        CrashPropagates(rs, i + 1);
        return None;
      }
      parts := parts + [decodedText.value];
    }
    assert rs[..|chunks|] == rs;
    r := Some(Flatten(parts));
  }

  /** One more text joined to the parts collected so far, or a crash. */
  lemma JoinStep(rs: seq<Option<string>>, i: nat, parts: seq<string>, last: Option<string>)
    requires i < |rs| && JoinAll(rs[..i]) == Some(Flatten(parts)) && last == rs[i]
    ensures last.None? ==> JoinAll(rs[..i + 1]) == None
    ensures last.Some? ==> JoinAll(rs[..i + 1]) == Some(Flatten(parts + [last.value]))
  {
    assert rs[..i + 1][..i] == rs[..i];
    if last.Some? {
      FlattenSnoc(parts, last.value);
    }
  }

  /** Once a text is a crash, the whole join is. */
  lemma {:induction false} CrashPropagates(rs: seq<Option<string>>, i: nat)
    requires i <= |rs| && JoinAll(rs[..i]) == None
    ensures JoinAll(rs) == None
    decreases |rs| - i
  {
    if i < |rs| {
      assert rs[..i + 1][..i] == rs[..i];
      CrashPropagates(rs, i + 1);
    } else {
      assert rs[..i] == rs;
    }
  }

  /** Joining two runs of texts, one after the other. */
  lemma {:induction false} JoinAllAppend(a: seq<Option<string>>, b: seq<Option<string>>)
    requires JoinAll(a).Some? && JoinAll(b).Some?
    ensures JoinAll(a + b) == Some(JoinAll(a).value + JoinAll(b).value)
    decreases |b|
  {
    if b == [] {
      assert a + b == a;
      assert JoinAll(a).value + JoinAll(b).value == JoinAll(a).value;
    } else {
      var n := |b| - 1;
      assert (a + b)[..|a + b| - 1] == a + b[..n];
      JoinAllAppend(a, b[..n]);
      ConcatAssoc(JoinAll(a).value, JoinAll(b[..n]).value, b[n].value);
    }
  }

  lemma {:induction false} ChunkTextsAppend(data: seq<byte>, a: seq<Chunk>, b: seq<Chunk>, root: Option<Node>)
    ensures ChunkTexts(data, a + b, root) == ChunkTexts(data, a, root) + ChunkTexts(data, b, root)
    decreases |b|
  {
    if b == [] {
      assert a + b == a;
    } else {
      var n := |b| - 1;
      assert (a + b)[..|a + b| - 1] == a + b[..n];
      assert (a + b)[|a + b| - 1] == b[n];
      ChunkTextsAppend(data, a, b[..n], root);
      ConcatAssoc(ChunkTexts(data, a, root), ChunkTexts(data, b[..n], root), [DecodeChunk(data, b[n], root)]);
    }
  }

  /** The records of two runs decoded one after the other give the text of
      both runs decoded together: each chunk decodes on its own. */
  lemma DecodeChunksAppend(data: seq<byte>, a: seq<Chunk>, b: seq<Chunk>, root: Option<Node>)
    requires DecodeChunks(data, a, root).Some? && DecodeChunks(data, b, root).Some?
    ensures DecodeChunks(data, a + b, root) == Some(DecodeChunks(data, a, root).value + DecodeChunks(data, b, root).value)
  {
    ChunkTextsAppend(data, a, b, root);
    JoinAllAppend(ChunkTexts(data, a, root), ChunkTexts(data, b, root));
  }

  /** The tokens of a chunk have codes only when they are leaves of the
      tree the codes come from. */
  lemma CodedTokensAreLeaves(root: Node, ts: seq<string>)
    requires AllIn(ts, CodesOf(root, ""))
    ensures forall k :: 0 <= k < |ts| ==> ts[k] in Symbols(root)
  {
    CodesKeys(root, "");
  }

  /** A chunk whose bytes are the codes of some tokens followed by its
      padding decodes to those tokens joined. */
  lemma ChunkDecodes(data: seq<byte>, c: Chunk, root: Node, ts: seq<string>)
    requires c.offset + c.length <= |data| && c.padding >= 0
    requires AllIn(ts, CodesOf(root, ""))
    requires BytesToBits(data[c.offset..c.offset + c.length]) == Encode(CodesOf(root, ""), ts) + Zeros(c.padding)
    ensures DecodeChunk(data, c, Some(root)) == Some(Flatten(ts))
  {
    ChunkBits(data, c, Encode(CodesOf(root, ""), ts));
    CodedTokensAreLeaves(root, ts);
    CorrectedRoundTrip(root, ts);
  }

  /** Without its padding, a chunk's bits are what was padded. */
  lemma ChunkBits(data: seq<byte>, c: Chunk, bits: string)
    requires c.offset + c.length <= |data| && c.padding >= 0
    requires BytesToBits(data[c.offset..c.offset + c.length]) == bits + Zeros(c.padding)
    ensures UnpackBits(ChunkBytes(data, c), c.padding) == bits
  {
    UnpackPadded(data[c.offset..c.offset + c.length], bits, c.padding);
  }

  /** The bytes of a chunk read from data that begins with the payload. */
  lemma PayloadBytes(data: seq<byte>, payload: seq<byte>, i: nat, j: nat)
    requires i <= j <= |payload| <= |data| && data[..|payload|] == payload
    ensures data[i..j] == payload[i..j]
  {
    forall k | 0 <= k < j - i
      ensures data[i..j][k] == payload[i..j][k]
    {
      assert data[..|payload|][i + k] == data[i + k];
    }
  }

  /** Chunks decode on their own: chunk `k` of valid records, read from
      data that begins with the payload, gives the text of exactly the
      tokens it counts, the ones that end at its place in the token
      stream. */
  lemma ChunkDecodesAlone(data: seq<byte>, cs: seq<Chunk>, payload: seq<byte>,
                          tokens: seq<string>, root: Node, k: nat)
    requires ChunksValid(cs, payload, tokens, CodesOf(root, ""))
    requires |payload| <= |data| && data[..|payload|] == payload
    requires k < |cs|
    ensures cs[k].tokens <= ChunkEnd(cs, k) <= |tokens|
    ensures DecodeChunk(data, cs[k], Some(root)) ==
            Some(Flatten(tokens[ChunkEnd(cs, k) - cs[k].tokens..ChunkEnd(cs, k)]))
  {
    ChunkContents(cs, payload, tokens, CodesOf(root, ""), k);
    HeldChunkDecodes(data, cs, payload, tokens, root, k);
  }

  lemma HeldChunkDecodes(data: seq<byte>, cs: seq<Chunk>, payload: seq<byte>,
                         tokens: seq<string>, root: Node, k: nat)
    requires k < |cs| && ChunkHolds(cs, payload, tokens, CodesOf(root, ""), k)
    requires |payload| <= |data| && data[..|payload|] == payload
    ensures DecodeChunk(data, cs[k], Some(root)) ==
            Some(Flatten(tokens[ChunkEnd(cs, k) - cs[k].tokens..ChunkEnd(cs, k)]))
  {
    var c, e := cs[k], ChunkEnd(cs, k);
    PayloadBytes(data, payload, c.offset, c.offset + c.length);
    ChunkDecodes(data, c, root, tokens[e - c.tokens..e]);
  }

  /** The last chunk of valid records decodes to the text of its tokens. */
  lemma LastChunkDecodes(data: seq<byte>, cs: seq<Chunk>, payload: seq<byte>, tokens: seq<string>, root: Node)
    requires cs != [] && ChunksValid(cs, payload, tokens, CodesOf(root, ""))
    requires |payload| <= |data| && data[..|payload|] == payload
    ensures cs[|cs| - 1].tokens <= |tokens|
    ensures DecodeChunk(data, cs[|cs| - 1], Some(root)) ==
            Some(Flatten(tokens[|tokens| - cs[|cs| - 1].tokens..]))
  {
    var c := cs[|cs| - 1];
    PayloadBytes(data, payload, c.offset, |payload|);
    assert payload[c.offset..|payload|] == payload[c.offset..];
    ChunkDecodes(data, c, root, tokens[|tokens| - c.tokens..]);
  }

  /** Decompression undoes the encoder: decoding the chunk records that
      describe a payload and a token stream, with the tree whose codes
      encoded them gives the tokens joined, even when more bytes follow the
      payload. */
  lemma {:induction false} DecodeChunksValid(data: seq<byte>, cs: seq<Chunk>, payload: seq<byte>,
                                             tokens: seq<string>, root: Node)
    requires ChunksValid(cs, payload, tokens, CodesOf(root, ""))
    requires |payload| <= |data| && data[..|payload|] == payload
    ensures DecodeChunks(data, cs, Some(root)) == Some(Flatten(tokens))
    decreases |cs|
  {
    if cs != [] {
      var n := |cs| - 1;
      var c := cs[n];
      var start := |tokens| - c.tokens;
      LastChunkDecodes(data, cs, payload, tokens, root);
      PayloadBytes(data, payload, 0, c.offset);
      assert data[..c.offset] == payload[..c.offset];
      DecodeChunksValid(data, cs[..n], payload[..c.offset], tokens[..start], root);
      JoinLast(data, cs, Some(root), tokens, start);
    }
  }

  /** The text of all records is that of all but the last followed by the
      last one's. */
  lemma JoinLast(data: seq<byte>, cs: seq<Chunk>, root: Option<Node>, tokens: seq<string>, start: nat)
    requires cs != [] && start <= |tokens|
    requires DecodeChunks(data, cs[..|cs| - 1], root) == Some(Flatten(tokens[..start]))
    requires DecodeChunk(data, cs[|cs| - 1], root) == Some(Flatten(tokens[start..]))
    ensures DecodeChunks(data, cs, root) == Some(Flatten(tokens))
  {
    DecodeChunksSnoc(data, cs, root);
    JoinFlatten(tokens, start, DecodeChunks(data, cs[..|cs| - 1], root), DecodeChunk(data, cs[|cs| - 1], root));
  }

  /** The records' text, read from the back. */
  lemma DecodeChunksSnoc(data: seq<byte>, cs: seq<Chunk>, root: Option<Node>)
    requires cs != []
    ensures DecodeChunks(data, cs, root) ==
            Join(DecodeChunks(data, cs[..|cs| - 1], root), DecodeChunk(data, cs[|cs| - 1], root))
  {
    var rs := ChunkTexts(data, cs, root);
    assert rs[..|cs| - 1] == ChunkTexts(data, cs[..|cs| - 1], root);
  }

  /** The text of the tokens before `start` followed by that of the rest is
      the text of all of them. */
  lemma JoinFlatten(tokens: seq<string>, start: nat, init: Option<string>, last: Option<string>)
    requires start <= |tokens|
    requires init == Some(Flatten(tokens[..start])) && last == Some(Flatten(tokens[start..]))
    ensures Join(init, last) == Some(Flatten(tokens))
  {
    FlattenAppend(tokens[..start], tokens[start..]);
    assert tokens[..start] + tokens[start..] == tokens;
  }
}
