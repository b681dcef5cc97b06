/** Small shared vocabulary: an optional value, string joining, Python-style
    slicing and sums over sequences of counts. */
module Common {

  datatype Option<+T> = None | Some(value: T)

  /** `"".join(parts)`: the strings of `parts` written one after another. */
  function Flatten(parts: seq<string>): (s: string)
  {
    if parts == [] then [] else parts[0] + Flatten(parts[1..])
  }

  lemma {:induction false} FlattenAppend(a: seq<string>, b: seq<string>)
    ensures Flatten(a + b) == Flatten(a) + Flatten(b)
  {
    if a == [] {
      assert a + b == b;
    } else {
      assert (a + b)[1..] == a[1..] + b;
      FlattenAppend(a[1..], b);
    }
  }

  lemma FlattenCons(h: string, r: seq<string>)
    ensures Flatten([h] + r) == h + Flatten(r)
  {
    assert ([h] + r)[1..] == r;
  }

  lemma FlattenSnoc(parts: seq<string>, t: string)
    ensures Flatten(parts + [t]) == Flatten(parts) + t
  {
    FlattenAppend(parts, [t]);
    FlattenCons(t, []);
    assert [t] + [] == [t];
  }

  lemma ConcatAssoc<T>(a: seq<T>, b: seq<T>, c: seq<T>)
    ensures (a + b) + c == a + (b + c)
  {
  }

  /** A sequence is what comes before position `i`, the element at `i` and
      what comes after it. */
  lemma SplitAt<T>(s: seq<T>, i: nat)
    requires i < |s|
    ensures s == (s[..i] + [s[i]]) + s[i + 1..]
  {
    assert s[i..] == [s[i]] + s[i + 1..];
    assert s == s[..i] + s[i..];
    ConcatAssoc(s[..i], [s[i]], s[i + 1..]);
  }

  lemma MapMergeAssoc<K, V>(a: map<K, V>, b: map<K, V>, c: map<K, V>)
    ensures (a + b) + c == a + (b + c)
  {
  }

  lemma MapUpdateIsMerge<K, V>(m: map<K, V>, k: K, v: V)
    ensures m[k := v] == m + map[k := v]
  {
  }

  lemma MapMergeEmpty<K, V>(m: map<K, V>)
    ensures map[] + m == m
  {
  }

  function Min(a: int, b: int): int { if a <= b then a else b }
  function Max(a: int, b: int): int { if a >= b then a else b }

  /** Python's `s[lo:hi]` for non-negative bounds: both ends are clamped to
      the length and an inverted range gives the empty sequence. */
  function Slice<T>(s: seq<T>, lo: nat, hi: nat): (r: seq<T>)
    ensures |r| == Max(0, Min(hi, |s|) - Min(lo, |s|))
    ensures hi <= |s| && lo <= hi ==> r == s[lo..hi]
  {
    var l := Min(lo, |s|);
    var h := Min(hi, |s|);
    if h <= l then [] else s[l..h]
  }

  /** Python's `sum(xs)`. */
  function Sum(xs: seq<nat>): nat
  {
    if xs == [] then 0 else Sum(xs[..|xs| - 1]) + xs[|xs| - 1]
  }

  lemma SumAppend(xs: seq<nat>, x: nat)
    ensures Sum(xs + [x]) == Sum(xs) + x
  {
    assert (xs + [x])[..|xs|] == xs;
  }
}
