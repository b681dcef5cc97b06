/** Walking the tree bit by bit (`decode_with_tree`) and its partner, writing
    each token's code one after another. */
module Decoder {
  import opened Common
  import opened Huffman

  /** `node.left if bit == "0" else node.right`: any bit other than '0'
      goes right, and a leaf has no children. */
  function Child(n: Node, bit: char): Option<Node>
  {
    match n
    case Leaf(_, _) => None
    case Internal(_, l, r) => Some(if bit == '0' then l else r)
  }

  function Prepend(t: string, r: Option<seq<string>>): Option<seq<string>>
  {
    if r.None? then None else Some([t] + r.value)
  }

  /** The tokens the walk emits from the current node `node` over `bits`:
      each bit steps to a child, reaching a leaf emits its token and goes
      back to the root. `None` stands for the walk stepping from no node at
      all (an `AttributeError` in the source), which happens once it has
      stepped below a leaf and bits remain. */
  function DecodeFrom(root: Node, node: Option<Node>, bits: string): Option<seq<string>>
    decreases |bits|
  {
    if bits == [] then Some([])
    else if node.None? then None
    else
      var next := Child(node.value, bits[0]);
      if next.Some? && next.value.Leaf? then
        Prepend(next.value.sym, DecodeFrom(root, Some(root), bits[1..]))
      else
        DecodeFrom(root, next, bits[1..])
  }

  /** What `decode_with_tree` returns: the empty text for no bits or no
      tree, otherwise the emitted tokens joined, or `None` for the crash. */
  function DecodeText(root: Option<Node>, bits: string): Option<string>
  {
    if bits == [] || root.None? then Some("")
    else
      var tokens := DecodeFrom(root.value, root, bits);
      if tokens.None? then None else Some(Flatten(tokens.value))
  }

  function Combine(done: seq<string>, r: Option<seq<string>>): Option<seq<string>>
  {
    if r.None? then None else Some(done + r.value)
  }

  /** `decode_with_tree(encoded_text)` with the tree `self.root` passed in:
      the loop over the bits, tied to the walk above. */
  method DecodeWithTree(root: Option<Node>, encodedText: string) returns (r: Option<string>)
    ensures r == DecodeText(root, encodedText)
  {
    if encodedText == [] || root.None? {
      return Some("");
    }
    var decodedTokens: seq<string> := [];
    var node := root;
    ghost var whole := DecodeFrom(root.value, root, encodedText);
    assert encodedText[0..] == encodedText;
    assert whole.Some? ==> [] + whole.value == whole.value;
    for i := 0 to |encodedText|
      invariant Combine(decodedTokens, DecodeFrom(root.value, node, encodedText[i..])) == whole
    {
      ghost var rest := encodedText[i..];
      if node.None? {
        assert DecodeFrom(root.value, node, rest) == None;
        return None;
      }
      var bit := encodedText[i];
      assert rest[0] == bit && rest[1..] == encodedText[i + 1..];
      ghost var before := decodedTokens;
      node := Child(node.value, bit);
      if node.Some? && node.value.Leaf? {
        CombinePrepend(before, node.value.sym, DecodeFrom(root.value, root, encodedText[i + 1..]));
        decodedTokens := decodedTokens + [node.value.sym];
        node := root;
      }
    }
    assert encodedText[|encodedText|..] == [];
    assert decodedTokens + [] == decodedTokens;
    r := Some(Flatten(decodedTokens));
  }

  lemma CombinePrepend(done: seq<string>, t: string, r: Option<seq<string>>)
    ensures Combine(done, Prepend(t, r)) == Combine(done + [t], r)
  {
    if r.Some? {
      ConcatAssoc(done, [t], r.value);
    }
  }

  /** Each token's code written one after another, as the encoder appends
      `codes[token]` to its bit buffer. */
  function Encode(codes: map<string, string>, tokens: seq<string>): string
    requires forall k :: 0 <= k < |tokens| ==> tokens[k] in codes
  {
    if tokens == [] then [] else codes[tokens[0]] + Encode(codes, tokens[1..])
  }

  lemma {:induction false} EncodeAppend(codes: map<string, string>, a: seq<string>, b: seq<string>)
    requires forall k :: 0 <= k < |a| ==> a[k] in codes
    requires forall k :: 0 <= k < |b| ==> b[k] in codes
    ensures forall k :: 0 <= k < |a + b| ==> (a + b)[k] in codes
    ensures Encode(codes, a + b) == Encode(codes, a) + Encode(codes, b)
  {
    if a == [] {
      assert a + b == b;
    } else {
      assert (a + b)[1..] == a[1..] + b;
      EncodeAppend(codes, a[1..], b);
      ConcatAssoc(codes[a[0]], Encode(codes, a[1..]), Encode(codes, b));
    }
  }

  /** From an internal node, the path to a token's leaf emits that token and
      lands back at the root with the rest of the bits. */
  lemma {:induction false} DecodePath(root: Node, n: Node, s: string, rest: string)
    requires n.Internal? && s in Symbols(n)
    ensures DecodeFrom(root, Some(n), PathTo(n, s) + rest) == Prepend(s, DecodeFrom(root, Some(root), rest))
  {
    var bits := PathTo(n, s) + rest;
    var sub := if s in Symbols(n.right) then n.right else n.left;
    assert PathTo(n, s) == [if sub == n.right then '1' else '0'] + PathTo(sub, s);
    assert bits[1..] == PathTo(sub, s) + rest by {
      ConcatAssoc([bits[0]], PathTo(sub, s), rest);
    }
    assert Child(n, bits[0]) == Some(sub);
    match sub
    case Leaf(_, _) =>
      assert PathTo(sub, s) + rest == rest;
    case Internal(_, _, _) =>
      DecodePath(root, sub, s, rest);
  }

  /** Decoding the codes of tokens of a tree that is not a lone leaf gives the
      tokens back. */
  lemma {:induction false} DecodeEncode(root: Node, tokens: seq<string>)
    requires root.Internal?
    requires forall k :: 0 <= k < |tokens| ==> tokens[k] in Symbols(root)
    ensures forall k :: 0 <= k < |tokens| ==> tokens[k] in CodesOf(root, "")
    ensures DecodeFrom(root, Some(root), Encode(CodesOf(root, ""), tokens)) == Some(tokens)
  {
    CodesKeys(root, "");
    if tokens != [] {
      var codes := CodesOf(root, "");
      var t := tokens[0];
      CodesArePaths(root, "", t);
      assert codes[t] == PathTo(root, t);
      DecodeEncode(root, tokens[1..]);
      DecodePath(root, root, t, Encode(codes, tokens[1..]));
      assert tokens == [t] + tokens[1..];
    }
  }

  /** The round trip `decoded == text`: with at least two leaves, decoding
      the encoding of a token sequence gives the tokens joined. */
  lemma RoundTrip(root: Node, tokens: seq<string>)
    requires root.Internal?
    requires forall k :: 0 <= k < |tokens| ==> tokens[k] in Symbols(root)
    ensures forall k :: 0 <= k < |tokens| ==> tokens[k] in CodesOf(root, "")
    ensures DecodeText(Some(root), Encode(CodesOf(root, ""), tokens)) == Some(Flatten(tokens))
  {
    DecodeEncode(root, tokens);
  }

  /** A tree that is a lone leaf (a text with one distinct token) does not
      round-trip: its token's code "0" steps below the leaf, so one token
      decodes to nothing and two tokens make the walk step from no node. */
  lemma LoneLeafDecode(s: string, f: nat)
    ensures CodesOf(Leaf(s, f), "")[s] == "0"
    ensures DecodeText(Some(Leaf(s, f)), "0") == Some("")
    ensures DecodeText(Some(Leaf(s, f)), "00") == None
  {
    var root := Leaf(s, f);
    assert DecodeFrom(root, Some(root), "0") == DecodeFrom(root, None, "");
    assert DecodeFrom(root, Some(root), "00") == DecodeFrom(root, None, "0");
  }
  /** `s` written `n` times. */
  function Repeat(s: string, n: nat): string
  {
    if n == 0 then [] else s + Repeat(s, n - 1)
  }

  /** Decoding as intended for a text of one distinct token: a tree that is
      one leaf gives its token for every bit, since "0" is the only code it
      hands out; any other tree is walked as `decode_with_tree` walks it. */
  function DecodeTextCorrected(root: Option<Node>, bits: string): Option<string>
  {
    if root.Some? && root.value.Leaf? then Some(Repeat(root.value.sym, |bits|))
    else DecodeText(root, bits)
  }

  /** The walk with the lone-leaf case handled. */
  method DecodeWithTreeCorrected(root: Option<Node>, encodedText: string) returns (r: Option<string>)
    ensures r == DecodeTextCorrected(root, encodedText)
  {
    if root.Some? && root.value.Leaf? {
      r := Some(Repeat(root.value.sym, |encodedText|));
    } else {
      r := DecodeWithTree(root, encodedText);
    }
  }

  /** The tokens of a lone leaf are all its one token: each has the one-bit
      code, and joined they are the token repeated once per bit. */
  lemma {:induction false} LoneLeafEncode(s: string, f: nat, tokens: seq<string>)
    requires forall k :: 0 <= k < |tokens| ==> tokens[k] == s
    ensures forall k :: 0 <= k < |tokens| ==> tokens[k] in CodesOf(Leaf(s, f), "")
    ensures |Encode(CodesOf(Leaf(s, f), ""), tokens)| == |tokens|
    ensures Flatten(tokens) == Repeat(s, |tokens|)
  {
    LoneLeafCode(s, f);
    if tokens != [] {
      LoneLeafEncode(s, f, tokens[1..]);
    }
  }

  /** The round trip for every tree, lone leaf included: decoding the
      encoding of tokens of the tree gives the tokens joined. */
  lemma CorrectedRoundTrip(root: Node, tokens: seq<string>)
    requires forall k :: 0 <= k < |tokens| ==> tokens[k] in Symbols(root)
    ensures forall k :: 0 <= k < |tokens| ==> tokens[k] in CodesOf(root, "")
    ensures DecodeTextCorrected(Some(root), Encode(CodesOf(root, ""), tokens)) == Some(Flatten(tokens))
  {
    match root
    case Leaf(s, f) =>
      assert Symbols(root) == [s];
      LoneLeafEncode(s, f, tokens);
    case Internal(_, _, _) =>
      RoundTrip(root, tokens);
  }

  /** A walk that starts at an internal node of a tree with an internal
      root never steps from no node: every internal node has both children,
      and every leaf sends the walk back to the root. */
  lemma {:induction false} WalkNeverFails(root: Node, node: Node, bits: string)
    requires root.Internal? && node.Internal?
    ensures DecodeFrom(root, Some(node), bits).Some?
    decreases |bits|
  {
    if bits != [] {
      var next := Child(node, bits[0]);
      if next.value.Leaf? {
        WalkNeverFails(root, root, bits[1..]);
      } else {
        WalkNeverFails(root, next.value, bits[1..]);
      }
    }
  }

  /** With the lone leaf handled, decoding never fails, whatever the tree
      and whatever the bits. */
  lemma CorrectedNeverFails(root: Option<Node>, bits: string)
    ensures DecodeTextCorrected(root, bits).Some?
  {
    if root.Some? && root.value.Internal? && bits != [] {
      WalkNeverFails(root.value, root.value, bits);
    }
  }
}
