/** The second pass of the compressor: every token's code goes into a bit
    buffer, whole bytes go to the payload, and the payload is cut into
    chunks, each padded to a whole byte and recorded with its offset,
    length, padding and token count. */
module Encoder {
  import opened Common
  import opened Tokenizer
  import opened Bits
  import opened Decoder

  /** One record of the chunk metadata. */
  datatype Chunk = Chunk(index: nat, offset: nat, length: nat, padding: int, tokens: nat)

  /** The tokens after which a word-mode chunk may be closed. */
  const SentenceBoundaries: set<string> := {".", "!", "?", "\n"}

  predicate AllIn(tokens: seq<string>, codes: map<string, string>)
  {
    forall k :: 0 <= k < |tokens| ==> tokens[k] in codes
  }

  predicate AllBitCodes(codes: map<string, string>)
  {
    forall t :: t in codes ==> IsBits(codes[t])
  }

  /** The sum of the `tokens` fields. */
  function TokenSum(cs: seq<Chunk>): nat
  {
    if cs == [] then 0 else TokenSum(cs[..|cs| - 1]) + cs[|cs| - 1].tokens
  }

  /** The sum of the `length` fields. */
  function LengthSum(cs: seq<Chunk>): nat
  {
    if cs == [] then 0 else LengthSum(cs[..|cs| - 1]) + cs[|cs| - 1].length
  }

  /** `chunks` describe `payload` and `tokens` exactly: read from the back,
      the last chunk is numbered after the others, covers the last
      `length` bytes and the last `tokens` tokens (at least one), and its
      bytes are the codes of those tokens followed by `padding` zero bits,
      fewer than a byte; the chunks before it describe what comes before. */
  ghost predicate ChunksValid(cs: seq<Chunk>, payload: seq<byte>, tokens: seq<string>, codes: map<string, string>)
    decreases |cs|
  {
    if cs == [] then payload == [] && tokens == []
    else
      var c := cs[|cs| - 1];
      var start := |tokens| - c.tokens;
      c.index == |cs| - 1 && c.length <= |payload| && c.offset == |payload| - c.length &&
      1 <= c.tokens <= |tokens| && 0 <= c.padding <= 7 &&
      AllIn(tokens[start..], codes) &&
      BytesToBits(payload[c.offset..]) == Encode(codes, tokens[start..]) + Zeros(c.padding) &&
      ChunksValid(cs[..|cs| - 1], payload[..c.offset], tokens[..start], codes)
  }

  /** The chunks were closed inside the token loop: each reached the byte
      target and, in word mode, ends with a sentence boundary token. */
  ghost predicate ClosedInLoop(cs: seq<Chunk>, tokens: seq<string>, mode: Mode, target: int)
    decreases |cs|
  {
    if cs == [] then true
    else
      var c := cs[|cs| - 1];
      1 <= c.tokens <= |tokens| && c.length >= target &&
      (mode == Word ==> tokens[|tokens| - 1] in SentenceBoundaries) &&
      ClosedInLoop(cs[..|cs| - 1], tokens[..|tokens| - c.tokens], mode, target)
  }

  /** All chunks but the last were closed inside the token loop (the last
      may be the end-of-input chunk). */
  ghost predicate AllButLastClosed(cs: seq<Chunk>, tokens: seq<string>, mode: Mode, target: int)
  {
    cs == [] ||
    (cs[|cs| - 1].tokens <= |tokens| &&
     ClosedInLoop(cs[..|cs| - 1], tokens[..|tokens| - cs[|cs| - 1].tokens], mode, target))
  }

  /** The chunk records account for every token and every payload byte. */
  lemma {:induction false} ChunksCover(cs: seq<Chunk>, payload: seq<byte>, tokens: seq<string>, codes: map<string, string>)
    requires ChunksValid(cs, payload, tokens, codes)
    ensures TokenSum(cs) == |tokens| && LengthSum(cs) == |payload|
    decreases |cs|
  {
    if cs != [] {
      var c := cs[|cs| - 1];
      ChunksCover(cs[..|cs| - 1], payload[..c.offset], tokens[..|tokens| - c.tokens], codes);
    }
  }

  /** The layout of the chunk records: chunk `k` is numbered `k`, holds at
      least one token and a padding of 0 to 7 bits; the first starts at
      offset 0, each starts where the one before it ends, and the last ends
      at the end of the payload. */
  lemma {:induction false} ChunksLayout(cs: seq<Chunk>, payload: seq<byte>, tokens: seq<string>, codes: map<string, string>)
    requires ChunksValid(cs, payload, tokens, codes)
    ensures forall k :: 0 <= k < |cs| ==> cs[k].index == k && cs[k].tokens >= 1 && 0 <= cs[k].padding <= 7
    ensures |cs| > 0 ==> cs[0].offset == 0 && cs[|cs| - 1].offset + cs[|cs| - 1].length == |payload|
    ensures forall k :: 0 <= k < |cs| - 1 ==> cs[k + 1].offset == cs[k].offset + cs[k].length
    ensures cs == [] ==> payload == [] && tokens == []
    decreases |cs|
  {
    if cs != [] {
      var n := |cs| - 1;
      var c := cs[n];
      var init := cs[..n];
      ChunksLayout(init, payload[..c.offset], tokens[..|tokens| - c.tokens], codes);
      assert forall k :: 0 <= k < n ==> cs[k] == init[k];
    }
  }

  /** Where chunk `k` ends in the token stream. */
  function ChunkEnd(cs: seq<Chunk>, k: nat): nat
    requires k < |cs|
  {
    TokenSum(cs[..k + 1])
  }

  /** Chunk `k` ends where the close rule allows: after at least one
      token, holding the byte target or more, and in word mode right after
      a sentence boundary token. */
  ghost predicate ClosedAt(cs: seq<Chunk>, tokens: seq<string>, mode: Mode, target: int, k: nat)
    requires k < |cs|
  {
    1 <= ChunkEnd(cs, k) <= |tokens| && cs[k].length >= target &&
    (mode == Word ==> tokens[ChunkEnd(cs, k) - 1] in SentenceBoundaries)
  }

  /** Every chunk closed inside the token loop ends where the rule allows. */
  lemma {:induction false} ClosedEnds(cs: seq<Chunk>, tokens: seq<string>, mode: Mode, target: int, k: nat)
    requires ClosedInLoop(cs, tokens, mode, target) && TokenSum(cs) == |tokens| && k < |cs|
    ensures ClosedAt(cs, tokens, mode, target, k)
    decreases |cs|
  {
    var n := |cs| - 1;
    if k == n {
      assert cs[..n + 1] == cs;
    } else {
      var rest := tokens[..|tokens| - cs[n].tokens];
      ClosedEnds(cs[..n], rest, mode, target, k);
      ClosedInPrefix(cs, tokens, rest, mode, target, k);
    }
  }

  /** Where a chunk ends among the records before the last, it ends among
      all of them. */
  lemma ClosedInPrefix(cs: seq<Chunk>, tokens: seq<string>, rest: seq<string>, mode: Mode, target: int, k: nat)
    requires k < |cs| - 1 && |rest| <= |tokens| && rest == tokens[..|rest|]
    requires ClosedAt(cs[..|cs| - 1], rest, mode, target, k)
    ensures ClosedAt(cs, tokens, mode, target, k)
  {
    assert cs[..|cs| - 1][..k + 1] == cs[..k + 1] && cs[..|cs| - 1][k] == cs[k];
  }

  /** In the recorded chunks, every chunk but the last ends where the rule
      closed it: at the byte target and, in word mode, right after a
      sentence boundary token; the last may be the end-of-input chunk. */
  lemma ChunkBoundaries(cs: seq<Chunk>, payload: seq<byte>, tokens: seq<string>, codes: map<string, string>,
                        mode: Mode, target: int)
    requires ChunksValid(cs, payload, tokens, codes) && AllButLastClosed(cs, tokens, mode, target)
    ensures forall k :: 0 <= k < |cs| - 1 ==> ClosedAt(cs, tokens, mode, target, k)
  {
    forall k | 0 <= k < |cs| - 1
      ensures ClosedAt(cs, tokens, mode, target, k)
    {
      ChunkBoundary(cs, payload, tokens, codes, mode, target, k);
    }
  }

  lemma ChunkBoundary(cs: seq<Chunk>, payload: seq<byte>, tokens: seq<string>, codes: map<string, string>,
                      mode: Mode, target: int, k: nat)
    requires ChunksValid(cs, payload, tokens, codes) && AllButLastClosed(cs, tokens, mode, target)
    requires k < |cs| - 1
    ensures ClosedAt(cs, tokens, mode, target, k)
  {
    var n := |cs| - 1;
    var rest := tokens[..|tokens| - cs[n].tokens];
    ChunksCover(cs, payload, tokens, codes);
    ClosedEnds(cs[..n], rest, mode, target, k);
    ClosedInPrefix(cs, tokens, rest, mode, target, k);
  }

  /** What chunk `k` of the records `cs` holds, for a payload and a token
      stream: the tokens it counts end at its place in the stream, and its
      bytes are their codes followed by its padding. */
  ghost predicate ChunkHolds(cs: seq<Chunk>, payload: seq<byte>, tokens: seq<string>,
                             codes: map<string, string>, k: nat)
    requires k < |cs|
  {
    var c, e := cs[k], ChunkEnd(cs, k);
    c.tokens <= e <= |tokens| && c.offset + c.length <= |payload| && 0 <= c.padding &&
    AllIn(tokens[e - c.tokens..e], codes) &&
    BytesToBits(payload[c.offset..c.offset + c.length]) == Encode(codes, tokens[e - c.tokens..e]) + Zeros(c.padding)
  }

  /** Chunk `k` of valid records: its bytes are the codes of the tokens it
      counts, the ones that end at its place in the token stream, followed
      by its padding. */
  lemma {:induction false} ChunkContents(cs: seq<Chunk>, payload: seq<byte>, tokens: seq<string>,
                                         codes: map<string, string>, k: nat)
    requires ChunksValid(cs, payload, tokens, codes) && k < |cs|
    ensures ChunkHolds(cs, payload, tokens, codes, k)
    decreases |cs|
  {
    var n := |cs| - 1;
    var c := cs[n];
    var start := |tokens| - c.tokens;
    if k == n {
      LastChunkHolds(cs, payload, tokens, codes);
    } else {
      ChunkContents(cs[..n], payload[..c.offset], tokens[..start], codes, k);
      HoldsInPrefix(cs, payload, c.offset, tokens, start, codes, k);
    }
  }

  lemma LastChunkHolds(cs: seq<Chunk>, payload: seq<byte>, tokens: seq<string>, codes: map<string, string>)
    requires ChunksValid(cs, payload, tokens, codes) && cs != []
    ensures ChunkHolds(cs, payload, tokens, codes, |cs| - 1)
  {
    var c := cs[|cs| - 1];
    var start := |tokens| - c.tokens;
    ChunksCover(cs, payload, tokens, codes);
    assert cs[..|cs|] == cs;
    assert tokens[start..|tokens|] == tokens[start..];
    assert payload[c.offset..c.offset + c.length] == payload[c.offset..];
  }

  /** What a chunk holds in the records before the last, it holds in all
      of them. */
  lemma HoldsInPrefix(cs: seq<Chunk>, payload: seq<byte>, m: nat, tokens: seq<string>, start: nat,
                      codes: map<string, string>, k: nat)
    requires k < |cs| - 1 && m <= |payload| && start <= |tokens|
    requires ChunkHolds(cs[..|cs| - 1], payload[..m], tokens[..start], codes, k)
    ensures ChunkHolds(cs, payload, tokens, codes, k)
  {
    var init := cs[..|cs| - 1];
    assert init[..k + 1] == cs[..k + 1] && init[k] == cs[k];
    var d, e := cs[k], ChunkEnd(cs, k);
    SliceOfPrefix(tokens, start, e - d.tokens, e);
    SliceOfPrefix(payload, m, d.offset, d.offset + d.length);
  }

  lemma SliceOfPrefix<T>(s: seq<T>, m: nat, i: nat, j: nat)
    requires i <= j <= m <= |s|
    ensures s[..m][i..j] == s[i..j]
  {
  }

  /** Recording one more chunk after valid ones. */
  lemma ChunksValidSnoc(cs: seq<Chunk>, payload: seq<byte>, tokens: seq<string>, codes: map<string, string>,
                        c: Chunk, bytes: seq<byte>, ts: seq<string>)
    requires ChunksValid(cs, payload, tokens, codes)
    requires c.index == |cs| && c.offset == |payload| && c.length == |bytes| && c.tokens == |ts|
    requires 1 <= |ts| && 0 <= c.padding <= 7 && AllIn(ts, codes)
    requires BytesToBits(bytes) == Encode(codes, ts) + Zeros(c.padding)
    ensures ChunksValid(cs + [c], payload + bytes, tokens + ts, codes)
  {
    var cs', p', t' := cs + [c], payload + bytes, tokens + ts;
    assert cs'[..|cs|] == cs;
    assert p'[..c.offset] == payload && p'[c.offset..] == bytes;
    assert t'[..|tokens|] == tokens && t'[|tokens|..] == ts;
  }

  lemma ClosedInLoopSnoc(cs: seq<Chunk>, tokens: seq<string>, mode: Mode, target: int, c: Chunk, ts: seq<string>)
    requires ClosedInLoop(cs, tokens, mode, target)
    requires c.tokens == |ts| >= 1 && c.length >= target
    requires mode == Word ==> ts[|ts| - 1] in SentenceBoundaries
    ensures ClosedInLoop(cs + [c], tokens + ts, mode, target)
  {
    var cs', t' := cs + [c], tokens + ts;
    assert cs'[..|cs|] == cs;
    assert t'[..|tokens|] == tokens;
  }

  /** The encoding of a token range grows by the next token's code. */
  lemma EncodeStep(codes: map<string, string>, tokens: seq<string>, f: nat, i: nat)
    requires f <= i < |tokens| && AllIn(tokens[f..i + 1], codes)
    ensures AllIn(tokens[f..i], codes)
    ensures Encode(codes, tokens[f..i + 1]) == Encode(codes, tokens[f..i]) + codes[tokens[i]]
  {
    assert tokens[f..i + 1] == tokens[f..i] + [tokens[i]];
    assert forall k :: 0 <= k < i - f ==> tokens[f..i][k] == tokens[f..i + 1][k];
    EncodeAppend(codes, tokens[f..i], [tokens[i]]);
    assert Encode(codes, [tokens[i]]) == codes[tokens[i]] + Encode(codes, []);
  }

  /** What holds of the encoder after `j` tokens, with the open chunk
      starting at byte `start` of the payload: the closed chunks describe
      the bytes before `start` and the tokens before the open chunk, and
      the open chunk's bytes and the bit buffer hold exactly the codes of
      its `inChunk` tokens. */
  ghost predicate Progress(tokens: seq<string>, codes: map<string, string>, mode: Mode, target: int, j: nat,
                           chunks: seq<Chunk>, payload: seq<byte>, start: nat, buf: string, inChunk: nat)
  {
    inChunk <= j <= |tokens| && start <= |payload| &&
    ChunksValid(chunks, payload[..start], tokens[..j - inChunk], codes) &&
    ClosedInLoop(chunks, tokens[..j - inChunk], mode, target) &&
    AllIn(tokens[j - inChunk..j], codes) &&
    BytesToBits(payload[start..]) + buf == Encode(codes, tokens[j - inChunk..j])
  }

  /** Writing bytes after the open chunk's start leaves what comes before
      it alone and extends the open chunk's bytes. */
  lemma OpenGrows(payload: seq<byte>, start: nat, out: seq<byte>)
    requires start <= |payload|
    ensures (payload + out)[..start] == payload[..start]
    ensures (payload + out)[start..] == payload[start..] + out
  {
  }

  /** The open chunk's bytes and buffer grow by the next token's code. */
  lemma BufferStep(codes: map<string, string>, tokens: seq<string>, first: nat, i: nat,
                   open: seq<byte>, buf: string, out: seq<byte>, rest: string)
    requires first <= i < |tokens| && AllIn(tokens[first..i], codes) && AllIn(tokens[first..i + 1], codes)
    requires BytesToBits(open) + buf == Encode(codes, tokens[first..i])
    requires BytesToBits(out) + rest == buf + codes[tokens[i]]
    ensures BytesToBits(open + out) + rest == Encode(codes, tokens[first..i + 1])
  {
    EncodeStep(codes, tokens, first, i);
    BytesToBitsAppend(open, out);
    ConcatAssoc(BytesToBits(open), BytesToBits(out), rest);
    ConcatAssoc(BytesToBits(open), buf, codes[tokens[i]]);
  }

  /** Appending a token's code and writing the whole bytes. */
  lemma TokenStep(tokens: seq<string>, codes: map<string, string>, mode: Mode, target: int, i: nat,
                  chunks: seq<Chunk>, payload: seq<byte>, start: nat, buf: string, inChunk: nat,
                  out: seq<byte>, rest: string)
    requires Progress(tokens, codes, mode, target, i, chunks, payload, start, buf, inChunk)
    requires i < |tokens| && AllIn(tokens, codes)
    requires BytesToBits(out) + rest == buf + codes[tokens[i]]
    ensures Progress(tokens, codes, mode, target, i + 1, chunks, payload + out, start, rest, inChunk + 1)
  {
    var first := i - inChunk;
    assert (i + 1) - (inChunk + 1) == first;
    OpenGrows(payload, start, out);
    AllInSlice(tokens, codes, first, i + 1);
    BufferStep(codes, tokens, first, i, payload[start..], buf, out, rest);
  }

  /** The chunk closed over the open chunk's tokens, its bytes and the
      padding byte takes its place after the chunks before it. */
  lemma CloseValid(tokens: seq<string>, codes: map<string, string>, j: nat,
                   chunks: seq<Chunk>, payload: seq<byte>, start: nat, buf: string, inChunk: nat,
                   out: seq<byte>, chunk: Chunk)
    requires 1 <= inChunk <= j <= |tokens| && start <= |payload|
    requires ChunksValid(chunks, payload[..start], tokens[..j - inChunk], codes)
    requires AllIn(tokens[j - inChunk..j], codes)
    requires BytesToBits(payload[start..]) + buf == Encode(codes, tokens[j - inChunk..j])
    requires 0 <= chunk.padding <= 7 && BytesToBits(out) == buf + Zeros(chunk.padding)
    requires chunk == Chunk(|chunks|, start, |payload| - start + |out|, chunk.padding, inChunk)
    ensures ChunksValid(chunks + [chunk], payload + out, tokens[..j], codes)
  {
    var first := j - inChunk;
    TokensSplit(tokens, first, j);
    PayloadSplit(payload, start, out);
    ChunkAfter(chunks, payload[..start], tokens[..first], codes, chunk, payload[start..], out, buf,
               tokens[first..j], payload + out, tokens[..j]);
  }

  lemma PayloadSplit(payload: seq<byte>, start: nat, out: seq<byte>)
    requires start <= |payload|
    ensures payload + out == payload[..start] + payload[start..] + out
  {
    assert payload[..start] + payload[start..] == payload;
  }

  /** The chunk made of the open bytes `open`, the padded last byte(s)
      `out` and the tokens `ts` takes its place after valid chunks. */
  lemma ChunkAfter(cs: seq<Chunk>, before: seq<byte>, ts0: seq<string>, codes: map<string, string>,
                   c: Chunk, open: seq<byte>, out: seq<byte>, buf: string, ts: seq<string>,
                   payload: seq<byte>, tokens: seq<string>)
    requires ChunksValid(cs, before, ts0, codes)
    requires c == Chunk(|cs|, |before|, |open| + |out|, c.padding, |ts|) && 1 <= |ts| && 0 <= c.padding <= 7
    requires AllIn(ts, codes) && BytesToBits(open) + buf == Encode(codes, ts)
    requires BytesToBits(out) == buf + Zeros(c.padding)
    requires payload == before + open + out && tokens == ts0 + ts
    ensures ChunksValid(cs + [c], payload, tokens, codes)
  {
    assert BytesToBits(open + out) == Encode(codes, ts) + Zeros(c.padding) by {
      BytesToBitsAppend(open, out);
      ConcatAssoc(BytesToBits(open), buf, Zeros(c.padding));
    }
    ConcatAssoc(before, open, out);
    ChunksValidSnoc(cs, before, ts0, codes, c, open + out, ts);
  }

  /** A chunk closed by the rule also keeps `ClosedInLoop`, and the new
      open chunk starts empty at the end of the payload. */
  lemma CloseStep(tokens: seq<string>, codes: map<string, string>, mode: Mode, target: int, j: nat,
                  chunks: seq<Chunk>, payload: seq<byte>, start: nat, buf: string, inChunk: nat,
                  out: seq<byte>, chunk: Chunk)
    requires Progress(tokens, codes, mode, target, j, chunks, payload, start, buf, inChunk)
    requires inChunk >= 1 && 0 <= chunk.padding <= 7
    requires BytesToBits(out) == buf + Zeros(chunk.padding)
    requires chunk == Chunk(|chunks|, start, |payload| - start + |out|, chunk.padding, inChunk)
    requires chunk.length >= target && (mode == Word ==> tokens[j - 1] in SentenceBoundaries)
    ensures Progress(tokens, codes, mode, target, j, chunks + [chunk], payload + out, |payload + out|, [], 0)
  {
    var first := j - inChunk;
    var p' := payload + out;
    assert ChunksValid(chunks + [chunk], p', tokens[..j], codes) by {
      CloseValid(tokens, codes, j, chunks, payload, start, buf, inChunk, out, chunk);
    }
    assert ClosedInLoop(chunks + [chunk], tokens[..j], mode, target) by {
      TokensSplit(tokens, first, j);
      assert tokens[first..j][inChunk - 1] == tokens[j - 1];
      ClosedInLoopSnoc(chunks, tokens[..first], mode, target, chunk, tokens[first..j]);
    }
    assert tokens[j..j] == [] && p'[..|p'|] == p' && p'[|p'|..] == [];
  }

  /** The chunk recorded at the end of input completes the description of
      the payload and the tokens. */
  lemma CloseAtEnd(tokens: seq<string>, codes: map<string, string>, mode: Mode, target: int,
                   chunks: seq<Chunk>, payload: seq<byte>, start: nat, buf: string, inChunk: nat,
                   out: seq<byte>, chunk: Chunk)
    requires Progress(tokens, codes, mode, target, |tokens|, chunks, payload, start, buf, inChunk)
    requires inChunk >= 1 && 0 <= chunk.padding <= 7
    requires BytesToBits(out) == buf + Zeros(chunk.padding)
    requires chunk == Chunk(|chunks|, start, |payload| - start + |out|, chunk.padding, inChunk)
    ensures ChunksValid(chunks + [chunk], payload + out, tokens, codes)
    ensures AllButLastClosed(chunks + [chunk], tokens, mode, target)
  {
    assert ChunksValid(chunks + [chunk], payload + out, tokens[..|tokens|], codes) by {
      CloseValid(tokens, codes, |tokens|, chunks, payload, start, buf, inChunk, out, chunk);
    }
    assert tokens[..|tokens|] == tokens;
    var cs := chunks + [chunk];
    assert ClosedInLoop(cs[..|cs| - 1], tokens[..|tokens| - cs[|cs| - 1].tokens], mode, target) by {
      assert cs[..|cs| - 1] == chunks && cs[|cs| - 1] == chunk;
    }
  }

  /** With nothing open at the end of input, the chunks describe the whole
      payload and every one of them was closed by the rule. */
  lemma Finish(tokens: seq<string>, codes: map<string, string>, mode: Mode, target: int,
               chunks: seq<Chunk>, payload: seq<byte>, buf: string)
    requires Progress(tokens, codes, mode, target, |tokens|, chunks, payload, |payload|, buf, 0)
    ensures ChunksValid(chunks, payload, tokens, codes)
    ensures AllButLastClosed(chunks, tokens, mode, target)
  {
    assert tokens[..|tokens|] == tokens;
    assert payload[..|payload|] == payload;
    if chunks != [] {
      var c := chunks[|chunks| - 1];
      assert ClosedInLoop(chunks[..|chunks| - 1], tokens[..|tokens| - c.tokens], mode, target);
    }
  }

  lemma AllInSlice(tokens: seq<string>, codes: map<string, string>, f: nat, j: nat)
    requires f <= j <= |tokens| && AllIn(tokens, codes)
    ensures AllIn(tokens[f..j], codes)
  {
    forall k | 0 <= k < j - f
      ensures tokens[f..j][k] in codes
    {
      assert tokens[f..j][k] == tokens[f + k];
    }
  }

  lemma TokensSplit(tokens: seq<string>, first: nat, j: nat)
    requires first <= j <= |tokens|
    ensures tokens[..first] + tokens[first..j] == tokens[..j]
  {
  }

  /** Closing a chunk: the buffer (fewer than eight bits) is padded with
      zeros to a whole byte, which is written, and the chunk is recorded
      with its padding (0 to 7), its length including that byte and its
      token count. */
  method PadAndClose(bitBuffer: string, index: nat, chunkStartOffset: nat, bytesWrittenChunk: nat, tokensInChunk: nat)
    returns (out: seq<byte>, chunk: Chunk)
    requires IsBits(bitBuffer) && |bitBuffer| < 8
    ensures chunk.padding == (8 - |bitBuffer| % 8) % 8 && 0 <= chunk.padding <= 7
    ensures BytesToBits(out) == bitBuffer + Zeros(chunk.padding)
    ensures chunk == Chunk(index, chunkStartOffset, bytesWrittenChunk + |out|, chunk.padding, tokensInChunk)
  {
    var padding := (8 - |bitBuffer| % 8) % 8;
    var buffer := bitBuffer;
    if padding != 0 {
      buffer := buffer + Zeros(padding);
    }
    var rest;
    out, rest := FlushWholeBytes(buffer);
    assert rest == [] && buffer == bitBuffer + Zeros(padding);
    chunk := Chunk(index, chunkStartOffset, bytesWrittenChunk + |out|, padding, tokensInChunk);
  }

  /** What the encoder's state keeps between tokens: the open chunk's
      bytes are the payload from `chunkStartOffset` on, fewer than eight
      bits are buffered, an empty chunk has nothing buffered or written,
      and the chunks and buffer account for the first `j` tokens. */
  ghost predicate Between(tokens: seq<string>, codes: map<string, string>, mode: Mode, target: int, j: nat,
                          payload: seq<byte>, chunks: seq<Chunk>, bitBuffer: string,
                          chunkStartOffset: nat, bytesWrittenChunk: nat, tokensInChunk: nat)
  {
    chunkStartOffset + bytesWrittenChunk == |payload| &&
    IsBits(bitBuffer) && |bitBuffer| < 8 &&
    (tokensInChunk == 0 ==> bitBuffer == [] && bytesWrittenChunk == 0) &&
    Progress(tokens, codes, mode, target, j, chunks, payload, chunkStartOffset, bitBuffer, tokensInChunk)
  }

  /** Appending a token's code to the bit buffer and writing the whole
      bytes keeps the state between tokens, one token further. */
  method AppendCode(tokens: seq<string>, codes: map<string, string>, mode: Mode, targetChunkBytes: int, i: nat,
                    payload: seq<byte>, chunks: seq<Chunk>, bitBuffer: string,
                    chunkStartOffset: nat, bytesWrittenChunk: nat, tokensInChunk: nat)
    returns (payload': seq<byte>, bitBuffer': string, bytesWrittenChunk': nat)
    requires i < |tokens| && AllIn(tokens, codes) && AllBitCodes(codes)
    requires Between(tokens, codes, mode, targetChunkBytes, i, payload, chunks, bitBuffer,
                     chunkStartOffset, bytesWrittenChunk, tokensInChunk)
    ensures Between(tokens, codes, mode, targetChunkBytes, i + 1, payload', chunks, bitBuffer',
                    chunkStartOffset, bytesWrittenChunk', tokensInChunk + 1)
  {
    var code := codes[tokens[i]];
    var out, rest := FlushWholeBytes(bitBuffer + code);
    TokenStep(tokens, codes, mode, targetChunkBytes, i, chunks, payload, chunkStartOffset, bitBuffer, tokensInChunk, out, rest);
    payload', bitBuffer', bytesWrittenChunk' := payload + out, rest, bytesWrittenChunk + |out|;
  }

  /** Recording a chunk closed by the rule keeps the state between tokens,
      with an empty chunk open. */
  lemma CloseInLoop(tokens: seq<string>, codes: map<string, string>, mode: Mode, target: int, j: nat,
                    payload: seq<byte>, chunks: seq<Chunk>, bitBuffer: string,
                    chunkStartOffset: nat, bytesWrittenChunk: nat, tokensInChunk: nat,
                    out: seq<byte>, chunk: Chunk)
    requires Between(tokens, codes, mode, target, j, payload, chunks, bitBuffer,
                     chunkStartOffset, bytesWrittenChunk, tokensInChunk)
    requires tokensInChunk >= 1 && 0 <= chunk.padding <= 7
    requires BytesToBits(out) == bitBuffer + Zeros(chunk.padding)
    requires chunk == Chunk(|chunks|, chunkStartOffset, bytesWrittenChunk + |out|, chunk.padding, tokensInChunk)
    requires chunk.length >= target && (mode == Word ==> tokens[j - 1] in SentenceBoundaries)
    ensures Between(tokens, codes, mode, target, j, payload + out, chunks + [chunk], [], |payload + out|, 0, 0)
  {
    CloseStep(tokens, codes, mode, target, j, chunks, payload, chunkStartOffset, bitBuffer, tokensInChunk, out, chunk);
  }

  /** Closing a chunk inside the token loop, once it holds the target
      number of bytes and, in word mode, its last token is a sentence
      boundary: pad, write, record the chunk and open an empty one. */
  method CloseChunk(tokens: seq<string>, codes: map<string, string>, mode: Mode, targetChunkBytes: int, j: nat,
                    payload: seq<byte>, chunks: seq<Chunk>, bitBuffer: string,
                    chunkStartOffset: nat, bytesWrittenChunk: nat, tokensInChunk: nat)
    returns (payload': seq<byte>, chunks': seq<Chunk>, bitBuffer': string,
             chunkStartOffset': nat, bytesWrittenChunk': nat, tokensInChunk': nat)
    requires Between(tokens, codes, mode, targetChunkBytes, j, payload, chunks, bitBuffer,
                     chunkStartOffset, bytesWrittenChunk, tokensInChunk)
    requires tokensInChunk >= 1 && bytesWrittenChunk >= targetChunkBytes
    requires mode == Word ==> tokens[j - 1] in SentenceBoundaries
    ensures Between(tokens, codes, mode, targetChunkBytes, j, payload', chunks', bitBuffer',
                    chunkStartOffset', bytesWrittenChunk', tokensInChunk')
    ensures |chunks'| == |chunks| + 1 && chunks'[..|chunks|] == chunks && chunks'[|chunks|].length >= targetChunkBytes
    ensures bitBuffer' == [] && bytesWrittenChunk' == 0 && tokensInChunk' == 0 && chunkStartOffset' == |payload'|
  {
    var out, chunk := PadAndClose(bitBuffer, |chunks|, chunkStartOffset, bytesWrittenChunk, tokensInChunk);
    CloseInLoop(tokens, codes, mode, targetChunkBytes, j, payload, chunks, bitBuffer,
                chunkStartOffset, bytesWrittenChunk, tokensInChunk, out, chunk);
    payload', chunks' := payload + out, chunks + [chunk];
    chunkStartOffset', bytesWrittenChunk', tokensInChunk', bitBuffer' := |payload + out|, 0, 0, [];
    assert chunks'[..|chunks|] == chunks;
  }

  /** The closing rule after the `j`-th token: a chunk holding
      `targetChunkBytes` bytes or more is closed in char mode, and in word
      mode when that token is a sentence boundary. */
  method MaybeClose(tokens: seq<string>, codes: map<string, string>, mode: Mode, targetChunkBytes: int, j: nat,
                    payload: seq<byte>, chunks: seq<Chunk>, bitBuffer: string,
                    chunkStartOffset: nat, bytesWrittenChunk: nat, tokensInChunk: nat)
    returns (payload': seq<byte>, chunks': seq<Chunk>, bitBuffer': string,
             chunkStartOffset': nat, bytesWrittenChunk': nat, tokensInChunk': nat)
    requires 1 <= j <= |tokens| && tokensInChunk >= 1
    requires Between(tokens, codes, mode, targetChunkBytes, j, payload, chunks, bitBuffer,
                     chunkStartOffset, bytesWrittenChunk, tokensInChunk)
    ensures Between(tokens, codes, mode, targetChunkBytes, j, payload', chunks', bitBuffer',
                    chunkStartOffset', bytesWrittenChunk', tokensInChunk')
  {
    var goodBoundary := true;
    if mode == Word {
      goodBoundary := tokens[j - 1] in SentenceBoundaries;
    }
    if bytesWrittenChunk >= targetChunkBytes && (mode == Char || goodBoundary) {
      payload', chunks', bitBuffer', chunkStartOffset', bytesWrittenChunk', tokensInChunk' :=
        CloseChunk(tokens, codes, mode, targetChunkBytes, j, payload, chunks, bitBuffer,
                   chunkStartOffset, bytesWrittenChunk, tokensInChunk);
    } else {
      payload', chunks', bitBuffer' := payload, chunks, bitBuffer;
      chunkStartOffset', bytesWrittenChunk', tokensInChunk' := chunkStartOffset, bytesWrittenChunk, tokensInChunk;
    }
  }

  /** One step of the token loop: append the token's code, write the whole
      bytes, and close the chunk if the rule says so. */
  method EncodeToken(tokens: seq<string>, codes: map<string, string>, mode: Mode, targetChunkBytes: int, i: nat,
                     payload: seq<byte>, chunks: seq<Chunk>, bitBuffer: string,
                     chunkStartOffset: nat, bytesWrittenChunk: nat, tokensInChunk: nat)
    returns (payload': seq<byte>, chunks': seq<Chunk>, bitBuffer': string,
             chunkStartOffset': nat, bytesWrittenChunk': nat, tokensInChunk': nat)
    requires i < |tokens| && AllIn(tokens, codes) && AllBitCodes(codes)
    requires Between(tokens, codes, mode, targetChunkBytes, i, payload, chunks, bitBuffer,
                     chunkStartOffset, bytesWrittenChunk, tokensInChunk)
    ensures Between(tokens, codes, mode, targetChunkBytes, i + 1, payload', chunks', bitBuffer',
                    chunkStartOffset', bytesWrittenChunk', tokensInChunk')
  {
    var payload1, bitBuffer1, bytesWritten1 :=
      AppendCode(tokens, codes, mode, targetChunkBytes, i, payload, chunks, bitBuffer,
                 chunkStartOffset, bytesWrittenChunk, tokensInChunk);
    payload', chunks', bitBuffer', chunkStartOffset', bytesWrittenChunk', tokensInChunk' :=
      MaybeClose(tokens, codes, mode, targetChunkBytes, i + 1, payload1, chunks, bitBuffer1,
                 chunkStartOffset, bytesWritten1, tokensInChunk + 1);
  }

  /** The second-pass loop of `compress_file_streaming_hybrid`. For each
      token: append its code to the bit buffer, write the whole bytes, and
      close the chunk once it holds `targetChunkBytes` bytes or more and
      the mode is char or the token is a sentence boundary; closing pads
      the buffer with zeros to a whole byte. At the end of input the last
      bits are padded and written, and a last chunk is recorded if it holds
      anything. The chunks describe the payload and the token stream
      exactly, and every chunk but the last was closed by the rule. */
  method CompressChunks(tokens: seq<string>, codes: map<string, string>, mode: Mode, targetChunkBytes: int)
    returns (payload: seq<byte>, chunks: seq<Chunk>, totalTokensSeen: nat)
    requires AllIn(tokens, codes) && AllBitCodes(codes)
    ensures totalTokensSeen == |tokens|
    ensures ChunksValid(chunks, payload, tokens, codes)
    ensures AllButLastClosed(chunks, tokens, mode, targetChunkBytes)
  {
    payload := [];
    chunks := [];
    var bitBuffer: string := [];
    var chunkStartOffset: nat := 0;
    var bytesWrittenChunk: nat := 0;
    var tokensInChunk: nat := 0;
    totalTokensSeen := 0;
    assert tokens[0..0] == [] && tokens[..0] == [] && payload[..0] == [] && payload[0..] == [];
    for i := 0 to |tokens|
      invariant totalTokensSeen == i
      invariant Between(tokens, codes, mode, targetChunkBytes, i, payload, chunks, bitBuffer,
                        chunkStartOffset, bytesWrittenChunk, tokensInChunk)
    {
      payload, chunks, bitBuffer, chunkStartOffset, bytesWrittenChunk, tokensInChunk :=
        EncodeToken(tokens, codes, mode, targetChunkBytes, i, payload, chunks, bitBuffer,
                    chunkStartOffset, bytesWrittenChunk, tokensInChunk);
      totalTokensSeen := totalTokensSeen + 1;
    }
    // end of input: flush the remaining bits and record the last chunk
    if bitBuffer != [] || bytesWrittenChunk > 0 || tokensInChunk > 0 {
      var out, chunk := PadAndClose(bitBuffer, |chunks|, chunkStartOffset, bytesWrittenChunk, tokensInChunk);
      ghost var before := payload;
      payload := payload + out;
      bytesWrittenChunk := bytesWrittenChunk + |out|;
      if bytesWrittenChunk > 0 || tokensInChunk > 0 {
        CloseAtEnd(tokens, codes, mode, targetChunkBytes, chunks, before, chunkStartOffset, bitBuffer,
                   tokensInChunk, out, chunk);
        chunks := chunks + [chunk];
      } else {
        assert false;
      }
    } else {
      Finish(tokens, codes, mode, targetChunkBytes, chunks, payload, bitBuffer);
    }
  }
}
