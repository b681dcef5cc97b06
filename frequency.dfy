/** The global frequency table: one pass over the token stream that counts
    every distinct token and the total number of tokens. */
module Frequency {
  import opened Common
  import opened Tokenizer

  /** Some key of a non-empty map; the sum below visits keys in this order. */
  ghost function PickKey<K>(m: map<K, nat>): K
    requires m != map[]
  {
    var k :| k in m; k
  }

  /** Sum of the counts of a map, whatever order its keys are visited in. */
  ghost function SumCounts<K>(m: map<K, nat>): nat
    decreases |m|
  {
    if m == map[] then 0
    else
      var k := PickKey(m);
      assert |m - {k}| < |m| by {
        assert m.Keys - {k} < m.Keys;
      }
      m[k] + SumCounts(m - {k})
  }

  /** Any key can be taken out first: the sum does not depend on the order
      in which keys are visited. */
  lemma {:induction false} SumCountsRemove<K>(m: map<K, nat>, k: K)
    requires k in m
    ensures SumCounts(m) == m[k] + SumCounts(m - {k})
    decreases |m|
  {
    var j := PickKey(m);
    if j != k {
      assert |m - {j}| < |m| by {
        assert m.Keys - {j} < m.Keys;
      }
      SumCountsRemove(m - {j}, k);
      assert |m - {k}| < |m| by {
        assert m.Keys - {k} < m.Keys;
      }
      SumCountsRemove(m - {k}, j);
      assert m - {j} - {k} == m - {k} - {j};
    }
  }

  /** Setting one entry changes the sum by the difference of the counts. */
  lemma SumCountsUpdate<K>(m: map<K, nat>, k: K, v: nat)
    ensures SumCounts(m[k := v]) == SumCounts(m - {k}) + v
    ensures SumCounts(m) == SumCounts(m - {k}) + (if k in m then m[k] else 0)
  {
    SumCountsRemove(m[k := v], k);
    assert m[k := v] - {k} == m - {k};
    if k in m {
      SumCountsRemove(m, k);
    } else {
      assert m - {k} == m;
    }
  }

  /** The table and the total after counting `tokens`: a token is a key
      exactly when it occurs, with its number of occurrences, and the counts
      add up to the total. */
  ghost predicate Counted(tokens: seq<string>, freq: map<string, nat>, total: nat)
  {
    total == |tokens| &&
    (forall t :: t in freq <==> t in tokens) &&
    (forall t :: t in freq ==> freq[t] == multiset(tokens)[t]) &&
    SumCounts(freq) == total
  }

  /** Counting one more token. */
  lemma CountStep(tokens: seq<string>, i: nat, freq: map<string, nat>, total: nat)
    requires i < |tokens| && Counted(tokens[..i], freq, total)
    ensures var count := if tokens[i] in freq then freq[tokens[i]] else 0;
            Counted(tokens[..i + 1], freq[tokens[i] := count + 1], total + 1)
  {
    assert tokens[..i + 1] == tokens[..i] + [tokens[i]];
    CountedSnoc(tokens[..i], tokens[i], freq, total);
  }

  lemma CountedSnoc(ts: seq<string>, token: string, freq: map<string, nat>, total: nat)
    requires Counted(ts, freq, total)
    ensures var count := if token in freq then freq[token] else 0;
            Counted(ts + [token], freq[token := count + 1], total + 1)
  {
    var count := if token in freq then freq[token] else 0;
    SumCountsUpdate(freq, token, count + 1);
    CountKeys(ts, freq, token);
  }

  /** The keys and counts of the table after one more token. */
  lemma CountKeys(ts: seq<string>, freq: map<string, nat>, token: string)
    requires forall t :: t in freq <==> t in ts
    requires forall t :: t in freq ==> freq[t] == multiset(ts)[t]
    ensures var freq' := freq[token := (if token in freq then freq[token] else 0) + 1];
            (forall t :: t in freq' <==> t in ts + [token]) &&
            (forall t :: t in freq' ==> freq'[t] == multiset(ts + [token])[t])
  {
    assert multiset(ts + [token]) == multiset(ts) + multiset{token};
  }

  /** Every key of a table that counts tokens occurs at least once. */
  lemma CountedPositive(tokens: seq<string>, freq: map<string, nat>, total: nat)
    requires Counted(tokens, freq, total)
    ensures forall t :: t in freq ==> freq[t] >= 1
  {
    forall t | t in freq
      ensures freq[t] >= 1
    {
      assert t in multiset(tokens);
    }
  }

  /** `build_frequency_table_streaming`: a token occurs in the table exactly
      when it occurs in the stream, with its number of occurrences (so at
      least once), and the counts add up to the total. */
  method BuildFrequencyTableStreaming(blocks: seq<string>, mode: Mode)
    returns (freq: map<string, nat>, total: nat)
    ensures Counted(Tokenize(Flatten(ReadUntilEof(blocks)), mode), freq, total)
    ensures forall t :: t in freq ==> freq[t] >= 1
  {
    var tokens := StreamTokens(blocks, mode);
    freq, total := CountTokens(tokens);
  }

  /** The counting loop over the token stream. */
  method CountTokens(tokens: seq<string>) returns (freq: map<string, nat>, total: nat)
    ensures Counted(tokens, freq, total)
    ensures forall t :: t in freq ==> freq[t] >= 1
  {
    freq := map[];
    total := 0;
    assert tokens[..0] == [];
    for i := 0 to |tokens|
      invariant Counted(tokens[..i], freq, total)
    {
      var token := tokens[i];
      var count := if token in freq then freq[token] else 0;
      CountStep(tokens, i, freq, total);
      freq := freq[token := count + 1];
      total := total + 1;
    }
    assert tokens[..|tokens|] == tokens;
    CountedPositive(tokens, freq, total);
  }
}
