/** The Huffman tree, its construction by greedy merging of the two least
    frequent nodes, and the code table read off its root-to-leaf paths. */
module Huffman {
  import opened Common
  import opened Bits
  import opened Frequency

  /** `Node`: a leaf carries a token and its count; an internal node carries
      the sum of its children's counts. In the source a leaf is a node whose
      `char` is set, and every node the builder makes has either a token or
      two children. */
  datatype Node = Leaf(sym: string, freq: nat) | Internal(freq: nat, left: Node, right: Node)

  function Size(n: Node): (k: nat)
    ensures k >= 1
  {
    match n
    case Leaf(_, _) => 1
    case Internal(_, l, r) => 1 + Size(l) + Size(r)
  }

  /** The tokens at the leaves, left to right. */
  function Symbols(n: Node): (syms: seq<string>)
    ensures |syms| >= 1
  {
    match n
    case Leaf(s, _) => [s]
    case Internal(_, l, r) => Symbols(l) + Symbols(r)
  }

  /** Every internal node's count is the sum of its children's counts. */
  predicate WellFormed(n: Node)
  {
    match n
    case Leaf(_, _) => true
    case Internal(f, l, r) => f == l.freq + r.freq && WellFormed(l) && WellFormed(r)
  }

  /** Every leaf carries a token of the table with the table's count. */
  predicate LeavesMatch(n: Node, table: map<string, nat>)
  {
    match n
    case Leaf(s, f) => s in table && table[s] == f
    case Internal(_, l, r) => LeavesMatch(l, table) && LeavesMatch(r, table)
  }

  /** No token occurs twice. */
  ghost predicate Distinct(xs: seq<string>)
  {
    forall t :: multiset(xs)[t] <= 1
  }

  /** The tokens of a list of trees, in order. */
  function ForestSymbols(h: seq<Node>): seq<string>
  {
    if h == [] then [] else ForestSymbols(h[..|h| - 1]) + Symbols(h[|h| - 1])
  }

  /** The sum of the counts at the roots of a list of trees. */
  function SumFreqs(h: seq<Node>): nat
  {
    if h == [] then 0 else SumFreqs(h[..|h| - 1]) + h[|h| - 1].freq
  }

  lemma {:induction false} ForestAppend(a: seq<Node>, b: seq<Node>)
    ensures ForestSymbols(a + b) == ForestSymbols(a) + ForestSymbols(b)
    ensures SumFreqs(a + b) == SumFreqs(a) + SumFreqs(b)
    decreases |b|
  {
    if b == [] {
      assert a + b == a;
    } else {
      var b' := b[..|b| - 1];
      assert (a + b)[..|a + b| - 1] == a + b';
      ForestAppend(a, b');
      ConcatAssoc(ForestSymbols(a), ForestSymbols(b'), Symbols(b[|b| - 1]));
    }
  }

  lemma ForestSnoc(h: seq<Node>, n: Node)
    ensures ForestSymbols(h + [n]) == ForestSymbols(h) + Symbols(n)
    ensures SumFreqs(h + [n]) == SumFreqs(h) + n.freq
  {
    assert (h + [n])[..|h|] == h;
  }

  lemma SingletonForest(n: Node)
    ensures ForestSymbols([n]) == Symbols(n) && SumFreqs([n]) == n.freq
  {
    assert [n][..0] == [];
  }

  /** The list with the element at `i` taken out, as a heap pop leaves it. */
  function RemoveAt(h: seq<Node>, i: nat): (r: seq<Node>)
    requires i < |h|
    ensures |r| == |h| - 1
  {
    h[..i] + h[i + 1..]
  }

  /** The others keep their order. */
  lemma RemoveAtElements(h: seq<Node>, i: nat)
    requires i < |h|
    ensures forall k :: 0 <= k < |h| - 1 ==> RemoveAt(h, i)[k] == if k < i then h[k] else h[k + 1]
  {
    var r := RemoveAt(h, i);
    forall k | 0 <= k < |h| - 1
      ensures r[k] == if k < i then h[k] else h[k + 1]
    {
      if k < i {
        assert r[k] == h[..i][k];
      } else {
        assert r[k] == h[i + 1..][k - i];
      }
    }
  }

  /** Taking a tree out of the list takes its tokens and its count out of
      the list's totals. */
  lemma RemoveAtTotals(h: seq<Node>, i: nat)
    requires i < |h|
    ensures multiset(ForestSymbols(h)) == multiset(ForestSymbols(RemoveAt(h, i))) + multiset(Symbols(h[i]))
    ensures SumFreqs(h) == SumFreqs(RemoveAt(h, i)) + h[i].freq
  {
    var a, x, b := h[..i], [h[i]], h[i + 1..];
    SplitAt(h, i);
    var fa, fx, fb := ForestSymbols(a), Symbols(h[i]), ForestSymbols(b);
    assert ForestSymbols(h) == (fa + fx) + fb && SumFreqs(h) == SumFreqs(a) + h[i].freq + SumFreqs(b) by {
      ForestAppend(a + x, b);
      ForestAppend(a, x);
      SingletonForest(h[i]);
    }
    assert ForestSymbols(RemoveAt(h, i)) == fa + fb && SumFreqs(RemoveAt(h, i)) == SumFreqs(a) + SumFreqs(b) by {
      ForestAppend(a, b);
    }
    assert multiset((fa + fx) + fb) == multiset(fa + fb) + multiset(fx);
  }

  /** The node at `i` has the least count in the list. */
  predicate IsMinimal(h: seq<Node>, i: nat)
    requires i < |h|
  {
    forall k :: 0 <= k < |h| ==> h[i].freq <= h[k].freq
  }

  /** An index of a least-count node; it shows that one exists. */
  function ArgMin(h: seq<Node>): (i: nat)
    requires |h| > 0
    ensures i < |h| && IsMinimal(h, i)
  {
    if |h| == 1 then 0
    else
      var j := ArgMin(h[..|h| - 1]);
      if h[|h| - 1].freq < h[j].freq then |h| - 1 else j
  }

  /** A tree the builder may put on its heap: well formed, with leaves from
      the table. */
  predicate Good(n: Node, table: map<string, nat>)
  {
    WellFormed(n) && LeavesMatch(n, table)
  }

  predicate AllGood(h: seq<Node>, table: map<string, nat>)
  {
    forall k :: 0 <= k < |h| ==> Good(h[k], table)
  }

  /** What the heap holds between merges: good trees whose leaves are the
      table's tokens, once each, and whose root counts add up to the
      table's total. */
  ghost predicate HeapHolds(h: seq<Node>, table: map<string, nat>)
  {
    AllGood(h, table) &&
    multiset(ForestSymbols(h)) == multiset(table.Keys) &&
    SumFreqs(h) == SumCounts(table)
  }

  /** What the heap holds while leaves are still being made from `rest`. */
  ghost predicate LeavesSoFar(h: seq<Node>, rest: map<string, nat>, table: map<string, nat>)
  {
    (forall k :: k in rest ==> k in table && rest[k] == table[k]) &&
    AllGood(h, table) &&
    multiset(ForestSymbols(h)) + multiset(rest.Keys) == multiset(table.Keys) &&
    SumFreqs(h) + SumCounts(rest) == SumCounts(table) &&
    |h| + |rest| == |table|
  }

  lemma AddLeaf(h: seq<Node>, rest: map<string, nat>, table: map<string, nat>, k: string)
    requires LeavesSoFar(h, rest, table) && k in rest
    ensures LeavesSoFar(h + [Leaf(k, rest[k])], rest - {k}, table)
  {
    var leaf := Leaf(k, rest[k]);
    var rest' := rest - {k};
    assert rest.Keys == rest'.Keys + {k};
    assert multiset(rest.Keys) == multiset(rest'.Keys) + multiset{k};
    ForestSnoc(h, leaf);
    SumCountsRemove(rest, k);
  }

  lemma AllGoodRemove(h: seq<Node>, i: nat, table: map<string, nat>)
    requires i < |h| && AllGood(h, table)
    ensures Good(h[i], table) && AllGood(RemoveAt(h, i), table)
  {
    RemoveAtElements(h, i);
  }

  lemma MergeGood(h: seq<Node>, i: nat, j: nat, table: map<string, nat>)
    requires i < |h| && j < |h| - 1 && AllGood(h, table)
    ensures var h1 := RemoveAt(h, i);
            var l, r := h[i], h1[j];
            AllGood(RemoveAt(h1, j) + [Internal(l.freq + r.freq, l, r)], table)
  {
    AllGoodRemove(h, i, table);
    AllGoodRemove(RemoveAt(h, i), j, table);
  }

  lemma MergeTotals(h: seq<Node>, i: nat, j: nat)
    requires i < |h| && j < |h| - 1
    ensures var h1 := RemoveAt(h, i);
            var l, r := h[i], h1[j];
            var h' := RemoveAt(h1, j) + [Internal(l.freq + r.freq, l, r)];
            multiset(ForestSymbols(h')) == multiset(ForestSymbols(h)) &&
            SumFreqs(h') == SumFreqs(h)
  {
    MergeSymbols(h, i, j);
    MergeFreqs(h, i, j);
  }

  lemma MergeSymbols(h: seq<Node>, i: nat, j: nat)
    requires i < |h| && j < |h| - 1
    ensures var h1 := RemoveAt(h, i);
            var l, r := h[i], h1[j];
            multiset(ForestSymbols(RemoveAt(h1, j) + [Internal(l.freq + r.freq, l, r)])) == multiset(ForestSymbols(h))
  {
    var h1 := RemoveAt(h, i);
    var l, r := h[i], h1[j];
    var h2 := RemoveAt(h1, j);
    var parent := Internal(l.freq + r.freq, l, r);
    RemoveAtTotals(h, i);
    RemoveAtTotals(h1, j);
    ForestSnoc(h2, parent);
    Regroup(multiset(ForestSymbols(h)), multiset(ForestSymbols(h1)), multiset(ForestSymbols(h2)),
            Symbols(l), Symbols(r));
  }

  lemma Regroup(m: multiset<string>, m1: multiset<string>, m2: multiset<string>, sl: seq<string>, sr: seq<string>)
    requires m == m1 + multiset(sl) && m1 == m2 + multiset(sr)
    ensures m2 + multiset(sl + sr) == m
  {
  }

  lemma MergeFreqs(h: seq<Node>, i: nat, j: nat)
    requires i < |h| && j < |h| - 1
    ensures var h1 := RemoveAt(h, i);
            var l, r := h[i], h1[j];
            SumFreqs(RemoveAt(h1, j) + [Internal(l.freq + r.freq, l, r)]) == SumFreqs(h)
  {
    var h1 := RemoveAt(h, i);
    var l, r := h[i], h1[j];
    var h2 := RemoveAt(h1, j);
    var parent := Internal(l.freq + r.freq, l, r);
    RemoveAtTotals(h, i);
    RemoveAtTotals(h1, j);
    ForestSnoc(h2, parent);
  }

  /** Popping the trees at `i` and then at `j` and pushing their parent keeps
      what the heap holds. */
  lemma Merge(h: seq<Node>, i: nat, j: nat, table: map<string, nat>)
    requires i < |h| && j < |h| - 1 && HeapHolds(h, table)
    ensures var h1 := RemoveAt(h, i);
            var l, r := h[i], h1[j];
            HeapHolds(RemoveAt(h1, j) + [Internal(l.freq + r.freq, l, r)], table)
  {
    MergeGood(h, i, j, table);
    MergeTotals(h, i, j);
  }

  /** `[Node(char=char, freq=freq) for char, freq in freq_table.items()]`:
      a leaf per table entry, in the table's own order. */
  method LeafHeap(freqTable: map<string, nat>) returns (heap: seq<Node>)
    ensures |heap| == |freqTable| && HeapHolds(heap, freqTable)
    ensures forall k :: 0 <= k < |heap| ==> heap[k].Leaf?
  {
    heap := [];
    var rest := freqTable;
    while rest != map[]
      invariant LeavesSoFar(heap, rest, freqTable)
      invariant forall k :: 0 <= k < |heap| ==> heap[k].Leaf?
      decreases |rest|
    {
      var k :| k in rest;
      AddLeaf(heap, rest, freqTable, k);
      heap := heap + [Leaf(k, rest[k])];
      rest := rest - {k};
    }
  }

  /** `heapq.heappop` on a heap ordered by count alone: some least frequent
      tree comes out (which one among equals is the heap's own business),
      and the others stay. */
  method HeapPop(heap: seq<Node>) returns (node: Node, rest: seq<Node>, ghost i: nat)
    requires |heap| > 0
    ensures node in heap && forall k :: 0 <= k < |heap| ==> node.freq <= heap[k].freq
    ensures |rest| == |heap| - 1
    ensures i < |heap| && IsMinimal(heap, i)
    ensures node == heap[i] && rest == RemoveAt(heap, i)
  {
    ghost var m := ArgMin(heap);
    var k :| 0 <= k < |heap| && IsMinimal(heap, k);
    forall j | 0 <= j < |heap|
      ensures heap[k].freq <= heap[j].freq
    {
      assert IsMinimal(heap, k);
    }
    node := heap[k];
    rest := RemoveAt(heap, k);
    i := k;
  }

  /** `build_huffman_tree`: no tree for an empty table; otherwise, a leaf per
      table entry is put on a heap ordered by count and, while more than one
      tree is left, the two least frequent trees (either one among equals,
      as the heap's own order decides) are merged under a new node, the
      first popped going left. The result is well formed, its leaves are
      exactly the table's tokens, once each, with their counts, its root
      count is the sum of the counts, and with two tokens or more it is not
      a lone leaf. */
  method BuildHuffmanTree(freqTable: map<string, nat>) returns (root: Option<Node>)
    ensures root.None? <==> freqTable == map[]
    ensures root.Some? ==>
              WellFormed(root.value) && LeavesMatch(root.value, freqTable) &&
              multiset(Symbols(root.value)) == multiset(freqTable.Keys) &&
              root.value.freq == SumCounts(freqTable)
    ensures root.Some? && |freqTable| >= 2 ==> root.value.Internal?
  {
    var heap := LeafHeap(freqTable);
    if heap == [] {
      return None;
    }
    while |heap| > 1
      invariant |heap| >= 1
      invariant HeapHolds(heap, freqTable)
      invariant |freqTable| >= 2 ==> |heap| >= 2 || heap[0].Internal?
      decreases |heap|
    {
      var left, h1, i := HeapPop(heap);
      var right, h2, j := HeapPop(h1);
      Merge(heap, i, j, freqTable);
      heap := h2 + [Internal(left.freq + right.freq, left, right)];
    }
    var last := heap[0];
    SingletonForest(last);
    assert heap == [last];
    assert Good(last, freqTable);
    root := Some(last);
  }

  /** The code a leaf gets for the path that reaches it: the path itself, or
      "0" for a tree that is a lone leaf. */
  function LeafCode(prefix: string): string
  {
    if prefix == [] then "0" else prefix
  }

  /** The code table `generate_codes` writes for the subtree `n` reached by
      `prefix`: a leaf's token maps to its code, and the right subtree is
      written after the left, so its entries win. */
  function CodesOf(n: Node, prefix: string): map<string, string>
  {
    match n
    case Leaf(s, _) => map[s := LeafCode(prefix)]
    case Internal(_, l, r) => CodesOf(l, prefix + "0") + CodesOf(r, prefix + "1")
  }

  /** The reverse table written beside it: each code maps to its token. */
  function ReverseCodesOf(n: Node, prefix: string): map<string, string>
  {
    match n
    case Leaf(s, _) => map[LeafCode(prefix) := s]
    case Internal(_, l, r) => ReverseCodesOf(l, prefix + "0") + ReverseCodesOf(r, prefix + "1")
  }

  predicate IsPrefix(a: string, b: string)
  {
    |a| <= |b| && b[..|a|] == a
  }

  /** Every token of the tree gets a code, and nothing else does. */
  lemma {:induction false} CodesKeys(n: Node, prefix: string)
    ensures CodesOf(n, prefix).Keys == set t | t in Symbols(n)
  {
    match n
    case Leaf(_, _) =>
    case Internal(_, l, r) =>
      CodesKeys(l, prefix + "0");
      CodesKeys(r, prefix + "1");
  }

  /** Every code (in either table) is a non-empty bit string that extends
      the prefix, strictly when the subtree is not a leaf. */
  lemma {:induction false} CodesShape(n: Node, prefix: string)
    requires IsBits(prefix)
    ensures forall s :: s in CodesOf(n, prefix) ==>
              var c := CodesOf(n, prefix)[s];
              IsBits(c) && |c| >= 1 && IsPrefix(prefix, c) && (n.Internal? ==> |c| > |prefix|)
    ensures forall c :: c in ReverseCodesOf(n, prefix) ==>
              IsBits(c) && |c| >= 1 && IsPrefix(prefix, c) && (n.Internal? ==> |c| > |prefix|)
  {
    match n
    case Leaf(_, _) =>
    case Internal(_, l, r) =>
      var p0, p1 := prefix + "0", prefix + "1";
      CodesShape(l, p0);
      CodesShape(r, p1);
      forall c | IsPrefix(p0, c) || IsPrefix(p1, c)
        ensures IsPrefix(prefix, c) && |c| > |prefix|
      {
        assert c[..|prefix|] == c[..|prefix| + 1][..|prefix|];
      }
  }

  /** Codes that come from the two sides of a node differ at the node's
      depth, so neither is a prefix of the other. */
  lemma SidesDiffer(prefix: string, c0: string, c1: string)
    requires IsPrefix(prefix + "0", c0) && IsPrefix(prefix + "1", c1)
    ensures !IsPrefix(c0, c1) && !IsPrefix(c1, c0) && c0 != c1
  {
    assert c0[|prefix|] == (prefix + "0")[|prefix|] == '0';
    assert c1[|prefix|] == (prefix + "1")[|prefix|] == '1';
  }

  /** The code table is prefix-free: no token's code is a prefix of another
      token's code. */
  lemma {:induction false} PrefixFree(n: Node, prefix: string)
    requires IsBits(prefix)
    ensures forall s1, s2 :: s1 in CodesOf(n, prefix) && s2 in CodesOf(n, prefix) && s1 != s2 ==>
              !IsPrefix(CodesOf(n, prefix)[s1], CodesOf(n, prefix)[s2])
  {
    match n
    case Leaf(_, _) =>
    case Internal(_, l, r) =>
      var p0, p1 := prefix + "0", prefix + "1";
      var cl, cr := CodesOf(l, p0), CodesOf(r, p1);
      PrefixFree(l, p0);
      PrefixFree(r, p1);
      CodesShape(l, p0);
      CodesShape(r, p1);
      var c := CodesOf(n, prefix);
      forall s1, s2 | s1 in c && s2 in c && s1 != s2
        ensures !IsPrefix(c[s1], c[s2])
      {
        if s1 in cr && s2 !in cr {
          SidesDiffer(prefix, cl[s2], cr[s1]);
        } else if s1 !in cr && s2 in cr {
          SidesDiffer(prefix, cl[s1], cr[s2]);
        }
      }
  }

  /** With distinct tokens, the reverse table is the exact inverse of the
      code table. */
  lemma {:induction false} ReverseIsInverse(n: Node, prefix: string)
    requires IsBits(prefix) && Distinct(Symbols(n))
    ensures Inverse(CodesOf(n, prefix), ReverseCodesOf(n, prefix))
  {
    match n
    case Leaf(_, _) =>
    case Internal(_, l, r) =>
      var p0, p1 := prefix + "0", prefix + "1";
      assert Distinct(Symbols(l)) && Distinct(Symbols(r)) by {
        forall t
          ensures multiset(Symbols(l))[t] <= 1 && multiset(Symbols(r))[t] <= 1
        {
          assert multiset(Symbols(n))[t] <= 1;
        }
      }
      ReverseIsInverse(l, p0);
      ReverseIsInverse(r, p1);
      var cl, cr := CodesOf(l, p0), CodesOf(r, p1);
      var rl, rr := ReverseCodesOf(l, p0), ReverseCodesOf(r, p1);
      assert forall s :: s in cl ==> s !in cr by {
        CodesKeys(l, p0);
        CodesKeys(r, p1);
        forall s | s in cl
          ensures s !in cr
        {
          assert multiset(Symbols(n))[s] <= 1;
        }
      }
      assert forall c :: c in rl ==> c !in rr by {
        CodesShape(l, p0);
        CodesShape(r, p1);
        forall c | c in rl
          ensures c !in rr
        {
          if c in rr {
            SidesDiffer(prefix, c, c);
          }
        }
      }
      InverseJoin(cl, cr, rl, rr);
  }

  /** `rev` maps each value of `codes` back to its key, and nothing else. */
  predicate Inverse(codes: map<string, string>, rev: map<string, string>)
  {
    (forall s :: s in codes ==> codes[s] in rev && rev[codes[s]] == s) &&
    (forall c :: c in rev ==> rev[c] in codes && codes[rev[c]] == c)
  }

  /** Inverse pairs with disjoint keys on both sides join into an inverse
      pair. */
  lemma InverseJoin(cl: map<string, string>, cr: map<string, string>,
                    rl: map<string, string>, rr: map<string, string>)
    requires Inverse(cl, rl) && Inverse(cr, rr)
    requires forall s :: s in cl ==> s !in cr
    requires forall c :: c in rl ==> c !in rr
    ensures Inverse(cl + cr, rl + rr)
  {
  }

  /** The path from `n` to the leaf of `s` (the rightmost such leaf, whose
      code entry wins): '0' for left, '1' for right. */
  function PathTo(n: Node, s: string): string
  {
    match n
    case Leaf(_, _) => []
    case Internal(_, l, r) =>
      if s in Symbols(r) then "1" + PathTo(r, s) else "0" + PathTo(l, s)
  }

  /** Below the root (or in a tree that is not a lone leaf), a token's code
      is the prefix followed by the path to its leaf. */
  lemma {:induction false} CodesArePaths(n: Node, prefix: string, s: string)
    requires s in Symbols(n)
    requires prefix != [] || n.Internal?
    ensures s in CodesOf(n, prefix) && CodesOf(n, prefix)[s] == prefix + PathTo(n, s)
  {
    match n
    case Leaf(_, _) =>
    case Internal(_, l, r) =>
      CodesKeys(r, prefix + "1");
      if s in Symbols(r) {
        CodesArePaths(r, prefix + "1", s);
        ConcatAssoc(prefix, "1", PathTo(r, s));
      } else {
        CodesArePaths(l, prefix + "0", s);
        ConcatAssoc(prefix, "0", PathTo(l, s));
      }
  }

  /** A tree that is a lone leaf gives its token the code "0". */
  lemma LoneLeafCode(s: string, f: nat)
    ensures CodesOf(Leaf(s, f), "") == map[s := "0"]
    ensures ReverseCodesOf(Leaf(s, f), "") == map["0" := s]
  {
  }

  /** `HuffmanCoding`: the code table, its reverse and the tree they were
      read from. */
  class HuffmanCoding {
    var codes: map<string, string>
    var reverseCodes: map<string, string>
    var root: Option<Node>

    constructor()
      ensures codes == map[] && reverseCodes == map[] && root == None
    {
      codes := map[];
      reverseCodes := map[];
      root := None;
    }

    /** `generate_codes(node, prefix)`: nothing for no tree; a leaf records
        its code in both tables; an internal node does its left subtree
        under `prefix + "0"`, then its right under `prefix + "1"`. */
    method GenerateCodes(node: Option<Node>, prefix: string)
      modifies this
      ensures codes == old(codes) + (if node.Some? then CodesOf(node.value, prefix) else map[])
      ensures reverseCodes == old(reverseCodes) + (if node.Some? then ReverseCodesOf(node.value, prefix) else map[])
      ensures root == old(root)
      decreases if node.Some? then Size(node.value) else 0
    {
      if node.None? {
        return;
      }
      match node.value
      case Leaf(s, _) =>
        var code := if prefix == [] then "0" else prefix;
        MapUpdateIsMerge(codes, s, code);
        MapUpdateIsMerge(reverseCodes, code, s);
        codes := codes[s := code];
        reverseCodes := reverseCodes[code := s];
      case Internal(_, l, r) =>
        ghost var c0, r0 := codes, reverseCodes;
        GenerateCodes(Some(l), prefix + "0");
        GenerateCodes(Some(r), prefix + "1");
        MapMergeAssoc(c0, CodesOf(l, prefix + "0"), CodesOf(r, prefix + "1"));
        MapMergeAssoc(r0, ReverseCodesOf(l, prefix + "0"), ReverseCodesOf(r, prefix + "1"));
    }
  }
}
