/** The tokenizer of the Huffman tool: character mode, the word-mode token
    pattern, and the streaming tokenizer that reads a file buffer by buffer.
    Character classes are the ASCII ones. */
module Tokenizer {
  import opened Common

  datatype Mode = Char | Word

  /** `[A-Za-z_]`: the characters a word-mode letter run is made of. */
  predicate IsWordChar(c: char)
  {
    ('A' <= c <= 'Z') || ('a' <= c <= 'z') || c == '_'
  }

  /** `str.isalpha()` on ASCII characters (no underscore). */
  predicate IsAlpha(c: char)
  {
    ('A' <= c <= 'Z') || ('a' <= c <= 'z')
  }

  /** `[0-9]` */
  predicate IsDigit(c: char)
  {
    '0' <= c <= '9'
  }

  /** `\s` on ASCII: space, tab to carriage return, and the separators 0x1c-0x1f. */
  predicate IsSpace(c: char)
  {
    c == ' ' || (9 <= c as int <= 13) || (28 <= c as int <= 31)
  }

  /** `[^\w\s]`: neither a word character, a digit nor whitespace. */
  predicate IsPunct(c: char)
  {
    !IsWordChar(c) && !IsDigit(c) && !IsSpace(c)
  }

  predicate AllWordChars(t: string)
  {
    forall i :: 0 <= i < |t| ==> IsWordChar(t[i])
  }

  /** What one match of the token pattern looks like: a run of word
      characters, or one digit, punctuation or whitespace character. */
  predicate IsToken(t: string)
  {
    |t| >= 1 &&
    (AllWordChars(t) || (|t| == 1 && (IsDigit(t[0]) || IsPunct(t[0]) || IsSpace(t[0]))))
  }

  /** Length of the longest prefix of `s` made of word characters. */
  function RunLength(s: string): (n: nat)
    ensures n <= |s|
    ensures forall i :: 0 <= i < n ==> IsWordChar(s[i])
    ensures n < |s| ==> !IsWordChar(s[n])
  {
    if s == [] || !IsWordChar(s[0]) then 0
    else 1 + RunLength(s[1..])
  }

  /** `TOKEN_PATTERN.findall(s)`: maximal word runs, and every other
      character as a token of its own. */
  function WordTokens(s: string): (r: seq<string>)
    decreases |s|
  {
    if s == [] then [] else [s[..HeadLength(s)]] + WordTokens(s[HeadLength(s)..])
  }

  /** Length of the token at the front of a non-empty text. */
  function HeadLength(s: string): (n: nat)
    requires s != []
    ensures 1 <= n <= |s|
  {
    if IsWordChar(s[0]) then RunLength(s) else 1
  }

  /** Two tokens that a word run would have glued together. */
  predicate Joinable(t: string, u: string)
  {
    t != [] && u != [] && IsWordChar(t[|t| - 1]) && IsWordChar(u[0])
  }

  /** The word-mode tokens join back to the text, each is one match of the
      pattern, and no two adjacent tokens could have been one word run. */
  lemma WordTokensShape(s: string)
    ensures Flatten(WordTokens(s)) == s
    ensures forall k :: 0 <= k < |WordTokens(s)| ==> IsToken(WordTokens(s)[k])
    ensures forall k :: 0 <= k < |WordTokens(s)| - 1 ==> !Joinable(WordTokens(s)[k], WordTokens(s)[k + 1])
  {
    WordTokensJoin(s);
    WordTokensAreTokens(s);
    WordTokensMaximal(s);
  }

  lemma {:induction false} WordTokensJoin(s: string)
    ensures Flatten(WordTokens(s)) == s
    decreases |s|
  {
    if s != [] {
      var n := HeadLength(s);
      WordTokensJoin(s[n..]);
      WordTokensCons(s, n, s[..n], s[n..]);
      FlattenCons(s[..n], WordTokens(s[n..]));
      assert s[..n] + s[n..] == s;
    }
  }

  lemma {:induction false} WordTokensAreTokens(s: string)
    ensures forall k :: 0 <= k < |WordTokens(s)| ==> IsToken(WordTokens(s)[k])
    decreases |s|
  {
    if s != [] {
      var n := HeadLength(s);
      WordTokensAreTokens(s[n..]);
      WordTokensCons(s, n, s[..n], s[n..]);
      var r, rest := WordTokens(s), WordTokens(s[n..]);
      assert IsToken(s[..n]) by {
        if IsWordChar(s[0]) {
          assert forall i :: 0 <= i < n ==> s[..n][i] == s[i];
        }
      }
      forall k | 0 <= k < |r|
        ensures IsToken(r[k])
      {
        if k > 0 {
          assert r[k] == rest[k - 1];
        }
      }
    }
  }

  lemma {:induction false} WordTokensMaximal(s: string)
    ensures forall k :: 0 <= k < |WordTokens(s)| - 1 ==> !Joinable(WordTokens(s)[k], WordTokens(s)[k + 1])
    decreases |s|
  {
    if s != [] {
      var n := HeadLength(s);
      WordTokensMaximal(s[n..]);
      WordTokensCons(s, n, s[..n], s[n..]);
      var r, rest := WordTokens(s), WordTokens(s[n..]);
      if rest != [] {
        FirstToken(s[n..]);
        assert !Joinable(r[0], r[1]) by {
          assert r[0] == s[..n] && r[1] == rest[0];
          assert r[1][0] == s[n];
        }
      }
      forall k | 1 <= k < |r| - 1
        ensures !Joinable(r[k], r[k + 1])
      {
        assert r[k] == rest[k - 1] && r[k + 1] == rest[k];
      }
    }
  }

  /** The first token starts with the first character. */
  lemma FirstToken(s: string)
    requires WordTokens(s) != []
    ensures s != [] && WordTokens(s)[0] != [] && WordTokens(s)[0][0] == s[0]
  {
  }

  /** Character mode, `list(text)`: one token per character. */
  function CharTokens(s: string): (r: seq<string>)
  {
    if s == [] then [] else CharTokens(s[..|s| - 1]) + [[s[|s| - 1]]]
  }

  lemma CharTokensSnoc(s: string, c: char)
    ensures CharTokens(s + [c]) == CharTokens(s) + [[c]]
  {
    assert (s + [c])[..|s|] == s;
  }

  /** `tokenize_text(text, mode)` */
  function Tokenize(text: string, mode: Mode): (r: seq<string>)
  {
    if mode == Word then WordTokens(text) else CharTokens(text)
  }

  /** Character mode yields exactly the characters of the text, in order. */
  lemma {:induction false} CharTokensJoin(s: string)
    ensures |CharTokens(s)| == |s|
    ensures forall i :: 0 <= i < |s| ==> CharTokens(s)[i] == [s[i]]
    ensures Flatten(CharTokens(s)) == s
    decreases |s|
  {
    if s != [] {
      var p := s[..|s| - 1];
      CharTokensJoin(p);
      FlattenAppend(CharTokens(p), [[s[|s| - 1]]]);
      assert Flatten([[s[|s| - 1]]]) == [s[|s| - 1]];
      assert p + [s[|s| - 1]] == s;
    }
  }

  /** Both modes produce tokens that join back to the text. */
  lemma TokenizeJoin(text: string, mode: Mode)
    ensures Flatten(Tokenize(text, mode)) == text
    ensures |Tokenize(text, mode)| == 0 <==> text == []
  {
    if mode == Char {
      CharTokensJoin(text);
    } else {
      WordTokensShape(text);
    }
  }

  /** Cutting the text between two characters that cannot belong to the same
      word run does not change its tokens. */
  lemma {:induction false} WordTokensSplit(a: string, b: string)
    requires a == [] || b == [] || !IsWordChar(a[|a| - 1]) || !IsWordChar(b[0])
    ensures WordTokens(a + b) == WordTokens(a) + WordTokens(b)
    decreases |a|
  {
    if a == [] {
      assert a + b == b;
    } else if b == [] {
      assert a + b == a;
    } else {
      var n := HeadLength(a);
      HeadSplit(a, b);
      if n < |a| {
        assert a[n..][|a[n..]| - 1] == a[|a| - 1];
        WordTokensSplit(a[n..], b);
        ConcatAssoc([a[..n]], WordTokens(a[n..]), WordTokens(b));
      } else {
        assert a[n..] == [] && a[n..] + b == b;
      }
    }
  }

  /** The first token of `a + b` is that of `a`, and the rest of `a + b` is
      the rest of `a` followed by `b`. */
  lemma HeadSplit(a: string, b: string)
    requires a != [] && b != [] && (!IsWordChar(a[|a| - 1]) || !IsWordChar(b[0]))
    ensures WordTokens(a + b) == [a[..HeadLength(a)]] + WordTokens(a[HeadLength(a)..] + b)
  {
    var n := HeadLength(a);
    HeadPrefix(a, b);
    SliceConcat(a, b, n);
    WordTokensCons(a + b, n, a[..n], a[n..] + b);
  }

  lemma SliceConcat(a: string, b: string, n: nat)
    requires n <= |a|
    ensures (a + b)[..n] == a[..n] && (a + b)[n..] == a[n..] + b
  {
  }

  lemma WordTokensCons(s: string, n: nat, head: string, rest: string)
    requires s != [] && n == HeadLength(s) && head == s[..n] && rest == s[n..]
    ensures WordTokens(s) == [head] + WordTokens(rest)
  {
  }

  lemma HeadPrefix(a: string, b: string)
    requires a != [] && (b == [] || !IsWordChar(a[|a| - 1]) || !IsWordChar(b[0]))
    ensures HeadLength(a + b) == HeadLength(a)
  {
    assert (a + b)[0] == a[0];
    if IsWordChar(a[0]) {
      RunPrefix(a, b);
    }
  }

  /** The word run at the front of `a + b` is that of `a`, unless `a` is
      made only of word characters and `b` continues the run. */
  lemma {:induction false} RunPrefix(a: string, b: string)
    requires a != [] && IsWordChar(a[0])
    requires b == [] || !IsWordChar(a[|a| - 1]) || !IsWordChar(b[0])
    ensures RunLength(a + b) == RunLength(a)
    decreases |a|
  {
    var s := a + b;
    if |a| == 1 {
      assert s[1..] == b;
    } else {
      assert s[1..] == a[1..] + b;
      if IsWordChar(a[1]) {
        RunPrefix(a[1..], b);
      }
    }
  }

  /** A non-empty run of word characters is one token. */
  lemma RunIsOneToken(r: string)
    requires r != [] && AllWordChars(r)
    ensures WordTokens(r) == [r]
  {
    var n := HeadLength(r);
    assert n == |r|;
    assert r[..n] == r && r[n..] == [];
    assert WordTokens(r) == [r[..n]] + WordTokens(r[n..]);
  }

  /** When the text ends in a word character, its last token is the trailing
      word run, and whatever follows the text only changes that last token. */
  lemma HoldBack(s: string, c: string)
    requires s != [] && IsWordChar(s[|s| - 1])
    ensures |WordTokens(s)| > 0
    ensures var ts := WordTokens(s);
            WordTokens(s + c) == ts[..|ts| - 1] + WordTokens(ts[|ts| - 1] + c)
  {
    var k := TrailingRunStart(s);
    var p, r := s[..k], s[k..];
    assert s == p + r;
    assert k > 0 ==> p[|p| - 1] == s[k - 1];
    assert WordTokens(s) == WordTokens(p) + [r] by {
      RunIsOneToken(r);
      WordTokensSplit(p, r);
    }
    assert WordTokens(s + c) == WordTokens(p) + WordTokens(r + c) by {
      assert s + c == p + (r + c);
      WordTokensSplit(p, r + c);
    }
    SnocParts(WordTokens(p), r);
  }

  lemma SnocParts<T>(xs: seq<T>, x: T)
    ensures (xs + [x])[..|xs|] == xs && (xs + [x])[|xs|] == x
  {
  }

  /** Start of the longest suffix of `s` made of word characters. */
  function TrailingRunStart(s: string): (k: nat)
    ensures k <= |s|
    ensures AllWordChars(s[k..])
    ensures k > 0 ==> !IsWordChar(s[k - 1])
  {
    if s == [] || !IsWordChar(s[|s| - 1]) then |s|
    else
      var k := TrailingRunStart(s[..|s| - 1]);
      assert s[k..] == s[..|s| - 1][k..] + [s[|s| - 1]];
      k
  }

  /** The reads `f.read(chunk_size)` returns, up to the first empty one
      (end of file). */
  function ReadUntilEof(blocks: seq<string>): (r: seq<string>)
  {
    if blocks == [] || blocks[0] == [] then [] else [blocks[0]] + ReadUntilEof(blocks[1..])
  }

  lemma ReadStep(blocks: seq<string>, i: nat)
    requires i <= |blocks|
    ensures i == |blocks| || blocks[i] == [] ==> ReadUntilEof(blocks[i..]) == []
    ensures i < |blocks| && blocks[i] != [] ==>
              Flatten(ReadUntilEof(blocks[i..])) == blocks[i] + Flatten(ReadUntilEof(blocks[i + 1..]))
  {
    if i < |blocks| && blocks[i] != [] {
      assert blocks[i..][1..] == blocks[i + 1..];
      assert ([blocks[i]] + ReadUntilEof(blocks[i + 1..]))[1..] == ReadUntilEof(blocks[i + 1..]);
    }
  }

  /** `stream_tokens_from_file`: the file is the sequence of its reads.
      Whatever the reads, the tokens are those of the whole text. */
  method StreamTokens(blocks: seq<string>, mode: Mode) returns (tokens: seq<string>)
    ensures tokens == Tokenize(Flatten(ReadUntilEof(blocks)), mode)
  {
    if mode == Char {
      tokens := StreamCharTokens(blocks);
    } else {
      tokens := StreamWordTokens(blocks);
    }
  }

  /** Character mode of the streaming tokenizer: every character of every
      read, in order. */
  method StreamCharTokens(blocks: seq<string>) returns (tokens: seq<string>)
    ensures tokens == CharTokens(Flatten(ReadUntilEof(blocks)))
  {
    ghost var text := Flatten(ReadUntilEof(blocks));
    ghost var done: string := [];
    ghost var rest := text;
    assert blocks[0..] == blocks;
    tokens := [];
    var i := 0;
    while i < |blocks| && blocks[i] != []
      invariant 0 <= i <= |blocks|
      invariant rest == Flatten(ReadUntilEof(blocks[i..]))
      invariant done + rest == text
      invariant tokens == CharTokens(done)
    {
      var chunk := blocks[i];
      ghost var later := Flatten(ReadUntilEof(blocks[i + 1..]));
      assert rest == chunk + later by {
        ReadStep(blocks, i);
      }
      tokens := AppendCharTokens(tokens, done, chunk);
      assert (done + chunk) + later == text by {
        ConcatAssoc(done, chunk, later);
      }
      done := done + chunk;
      rest := later;
      i := i + 1;
    }
    assert rest == [] by {
      ReadStep(blocks, i);
    }
    assert done + [] == done;
  }

  /** `for ch in chunk: yield ch`, after the tokens of the text before. */
  method AppendCharTokens(tokens: seq<string>, ghost done: string, chunk: string) returns (tokens': seq<string>)
    requires tokens == CharTokens(done)
    ensures tokens' == CharTokens(done + chunk)
  {
    tokens' := tokens;
    assert done + chunk[..0] == done;
    for j := 0 to |chunk|
      invariant tokens' == CharTokens(done + chunk[..j])
    {
      assert done + chunk[..j + 1] == (done + chunk[..j]) + [chunk[j]] by {
        assert chunk[..j + 1] == chunk[..j] + [chunk[j]];
        ConcatAssoc(done, chunk[..j], [chunk[j]]);
      }
      CharTokensSnoc(done + chunk[..j], chunk[j]);
      tokens' := tokens' + [[chunk[j]]];
    }
    assert chunk[..|chunk|] == chunk;
  }

  /** After a read that ends in a word character, the last token is held
      back and the others are emitted. */
  lemma HoldBackStep(tokens: seq<string>, buffer: string, later: string, text: string)
    requires tokens + WordTokens(buffer + later) == WordTokens(text)
    requires buffer != [] && IsWordChar(buffer[|buffer| - 1])
    ensures |WordTokens(buffer)| > 0
    ensures var found := WordTokens(buffer);
            (tokens + found[..|found| - 1]) + WordTokens(found[|found| - 1] + later) == WordTokens(text)
  {
    HoldBack(buffer, later);
    var found := WordTokens(buffer);
    ConcatAssoc(tokens, found[..|found| - 1], WordTokens(found[|found| - 1] + later));
  }

  /** After any other read, all its tokens are emitted and nothing is held. */
  lemma FlushStep(tokens: seq<string>, buffer: string, later: string, text: string)
    requires tokens + WordTokens(buffer + later) == WordTokens(text)
    requires !(buffer != [] && IsWordChar(buffer[|buffer| - 1]))
    ensures (tokens + WordTokens(buffer)) + WordTokens([] + later) == WordTokens(text)
  {
    WordTokensSplit(buffer, later);
    assert [] + later == later;
    ConcatAssoc(tokens, WordTokens(buffer), WordTokens(later));
  }

  /** What the word-mode reader keeps between reads: the tokens emitted so
      far, followed by the tokens of the held-back text and of all the reads
      still to come, are the tokens of the whole text. */
  ghost predicate WordsSoFar(blocks: seq<string>, i: nat, tokens: seq<string>, buffer: string)
  {
    i <= |blocks| &&
    tokens + WordTokens(buffer + Flatten(ReadUntilEof(blocks[i..]))) == WordTokens(Flatten(ReadUntilEof(blocks)))
  }

  /** One read of the word-mode streaming tokenizer: the read is appended
      to the held-back text; if the result ends in a word character its last
      token is held back, otherwise nothing is. */
  method ReadWordBlock(blocks: seq<string>, i: nat, tokens: seq<string>, buffer: string)
    returns (tokens': seq<string>, buffer': string)
    requires i < |blocks| && blocks[i] != [] && WordsSoFar(blocks, i, tokens, buffer)
    ensures WordsSoFar(blocks, i + 1, tokens', buffer')
  {
    ghost var text := Flatten(ReadUntilEof(blocks));
    ghost var later := Flatten(ReadUntilEof(blocks[i + 1..]));
    assert tokens + WordTokens(buffer + (blocks[i] + later)) == WordTokens(text) by {
      ReadStep(blocks, i);
    }
    var b := buffer + blocks[i];
    ConcatAssoc(buffer, blocks[i], later);
    var found := WordTokens(b);
    if b != [] && IsWordChar(b[|b| - 1]) {
      HoldBackStep(tokens, b, later, text);
      tokens' := tokens + found[..|found| - 1];
      buffer' := found[|found| - 1];
    } else {
      FlushStep(tokens, b, later, text);
      tokens' := tokens + found;
      buffer' := [];
    }
  }

  /** Word mode of the streaming tokenizer: a buffer that ends in a word
      character keeps its last token back and prepends it to the next read. */
  method StreamWordTokens(blocks: seq<string>) returns (tokens: seq<string>)
    ensures tokens == WordTokens(Flatten(ReadUntilEof(blocks)))
  {
    assert blocks[0..] == blocks;
    assert [] + Flatten(ReadUntilEof(blocks)) == Flatten(ReadUntilEof(blocks));
    assert [] + WordTokens(Flatten(ReadUntilEof(blocks))) == WordTokens(Flatten(ReadUntilEof(blocks)));
    tokens := [];
    var i := 0;
    var buffer: string := [];
    while i < |blocks| && blocks[i] != []
      invariant WordsSoFar(blocks, i, tokens, buffer)
      decreases |blocks| - i
    {
      tokens, buffer := ReadWordBlock(blocks, i, tokens, buffer);
      i := i + 1;
    }
    assert buffer + Flatten(ReadUntilEof(blocks[i..])) == buffer by {
      ReadStep(blocks, i);
    }
    if buffer != [] {
      tokens := tokens + WordTokens(buffer);
    } else {
      assert WordTokens(buffer) == [];
    }
  }

  /** The streaming loop of the word mode exactly as the source writes it: a
      buffer is held back only when its last character is a letter in the
      `isalpha` sense, which leaves out the underscore. One call per read;
      `buffer` is the text carried over from the previous read. Every token
      it gives is a match of the token pattern, since the carried text is
      always cut again by the pattern before it is given out. */
  function StreamWordTokensAsWritten(buffer: string, blocks: seq<string>): (r: seq<string>)
    ensures forall k :: 0 <= k < |r| ==> IsToken(r[k])
    decreases |blocks|
  {
    if blocks == [] || blocks[0] == [] then
      WordTokensAreTokens(buffer);
      (if buffer != [] then WordTokens(buffer) else [])
    else
      var b := buffer + blocks[0];
      var found := WordTokens(b);
      WordTokensAreTokens(b);
      if IsAlpha(b[|b| - 1]) then
        var complete := if |found| > 0 then found[..|found| - 1] else [];
        var last := if |found| > 0 then found[|found| - 1] else b;
        complete + StreamWordTokensAsWritten(last, blocks[1..])
      else
        found + StreamWordTokensAsWritten([], blocks[1..])
  }

  /** The tokens of the loop as written still join back to the text: no
      character is lost or added, only the cuts between tokens differ. */
  lemma {:induction false} AsWrittenJoins(buffer: string, blocks: seq<string>)
    ensures Flatten(StreamWordTokensAsWritten(buffer, blocks)) == buffer + Flatten(ReadUntilEof(blocks))
    decreases |blocks|
  {
    if blocks == [] || blocks[0] == [] {
      WordTokensJoin(buffer);
      assert buffer + [] == buffer;
    } else {
      var b := buffer + blocks[0];
      var found := WordTokens(b);
      var later := Flatten(ReadUntilEof(blocks[1..]));
      assert b + later == buffer + Flatten(ReadUntilEof(blocks)) by {
        ReadStep(blocks, 0);
        assert blocks[0..] == blocks;
        ConcatAssoc(buffer, blocks[0], later);
      }
      WordTokensJoin(b);
      if IsAlpha(b[|b| - 1]) {
        AsWrittenJoins(found[|found| - 1], blocks[1..]);
        HeldJoin(found, StreamWordTokensAsWritten(found[|found| - 1], blocks[1..]), later);
      } else {
        AsWrittenJoins([], blocks[1..]);
        FlushJoin(found, StreamWordTokensAsWritten([], blocks[1..]), later);
      }
    }
  }

  /** Holding the last token back and putting it before what follows loses
      no character. */
  lemma HeldJoin(found: seq<string>, tail: seq<string>, later: string)
    requires |found| > 0 && Flatten(tail) == found[|found| - 1] + later
    ensures Flatten(found[..|found| - 1] + tail) == Flatten(found) + later
  {
    var complete, last := found[..|found| - 1], found[|found| - 1];
    assert found == complete + [last];
    assert Flatten(found) == Flatten(complete) + last by {
      FlattenAppend(complete, [last]);
      assert Flatten([last]) == last + Flatten([]);
    }
    FlattenAppend(complete, tail);
    ConcatAssoc(Flatten(complete), last, later);
  }

  lemma FlushJoin(found: seq<string>, tail: seq<string>, later: string)
    requires Flatten(tail) == [] + later
    ensures Flatten(found + tail) == Flatten(found) + later
  {
    FlattenAppend(found, tail);
    assert [] + later == later;
  }

  /** A read that ends in an underscore cuts a word in two: the blocks "a_"
      and "b" give the tokens "a_" and "b", where the text "a_b" is one token. */
  lemma UnderscoreSplitsWord()
    ensures StreamWordTokensAsWritten([], ["a_", "b"]) == ["a_", "b"]
    ensures WordTokens("a_b") == ["a_b"]
  {
    RunIsOneToken("a_b");
    RunIsOneToken("a_");
    var blocks := ["a_", "b"];
    assert blocks[1..] == ["b"];
    assert [] + "a_" == "a_";
    LastRead();
    assert StreamWordTokensAsWritten([], blocks) == WordTokens("a_") + StreamWordTokensAsWritten([], ["b"]);
  }

  lemma LastRead()
    ensures StreamWordTokensAsWritten([], ["b"]) == ["b"]
  {
    RunIsOneToken("b");
    assert ["b"][1..] == [];
    assert [] + "b" == "b";
    assert StreamWordTokensAsWritten("b", []) == ["b"];
    assert StreamWordTokensAsWritten([], ["b"]) == [] + StreamWordTokensAsWritten("b", []);
  }
}
