/**
 * Keyed sums. Each per-key fold of the statistics views files every match
 * under one string key and adds a number to that key's counter (1 for a game,
 * 1 or 0 for a win, the score for a score sum). An `Obs` is one such filing;
 * `WeightOf` is what a key's counter ends up holding.
 */
module Tally {
  import opened Seqs

  datatype Obs = Obs(key: string, weight: int)

  function Keys(obs: seq<Obs>): (r: seq<string>)
    ensures |r| == |obs|
    ensures forall i :: 0 <= i < |obs| ==> r[i] == obs[i].key
  {
    seq(|obs|, i requires 0 <= i < |obs| => obs[i].key)
  }

  /** What the counter of key `k` holds after folding `obs`. */
  function WeightOf(obs: seq<Obs>, k: string): int
    decreases |obs|
  {
    if obs == [] then 0
    else
      var last := obs[|obs| - 1];
      WeightOf(obs[..|obs| - 1], k) + (if last.key == k then last.weight else 0)
  }

  /** The sum of all weights, whatever their keys. */
  function Total(obs: seq<Obs>): int
    decreases |obs|
  {
    if obs == [] then 0 else Total(obs[..|obs| - 1]) + obs[|obs| - 1].weight
  }

  /** The sum of the counters of the keys `ks`. */
  function SumWeights(ks: seq<string>, obs: seq<Obs>): int
    decreases |ks|
  {
    if ks == [] then 0 else SumWeights(ks[..|ks| - 1], obs) + WeightOf(obs, ks[|ks| - 1])
  }

  lemma KeysSnoc(p: seq<Obs>, o: Obs)
    ensures Keys(p + [o]) == Keys(p) + [o.key]
  {
  }

  /** A key no match was filed under has an untouched counter. */
  lemma {:induction false} WeightOfAbsent(obs: seq<Obs>, k: string)
    requires k !in Keys(obs)
    ensures WeightOf(obs, k) == 0
    decreases |obs|
  {
    if obs != [] {
      var p := obs[..|obs| - 1];
      assert Keys(obs) == Keys(p) + [obs[|obs| - 1].key];
      WeightOfAbsent(p, k);
    }
  }

  lemma {:induction false} SumWeightsSnoc(ks: seq<string>, p: seq<Obs>, o: Obs)
    requires NoDup(ks)
    ensures SumWeights(ks, p + [o]) == SumWeights(ks, p) + (if o.key in ks then o.weight else 0)
    decreases |ks|
  {
    if ks != [] {
      var q := ks[..|ks| - 1];
      assert (p + [o])[..|p + [o]| - 1] == p;
      SumWeightsSnoc(q, p, o);
      assert ks == q + [ks[|ks| - 1]];
    }
  }

  /** Summed over the distinct keys, the counters account for every weight exactly once. */
  lemma {:induction false} SumOverDistinctKeys(obs: seq<Obs>)
    ensures SumWeights(Distinct(Keys(obs)), obs) == Total(obs)
    decreases |obs|
  {
    if obs != [] {
      var p, o := obs[..|obs| - 1], obs[|obs| - 1];
      assert obs == p + [o];
      SumOverDistinctKeys(p);
      var ks := Keys(obs);
      KeysSnoc(p, o);
      assert ks[..|ks| - 1] == Keys(p);
      var d := Distinct(Keys(p));
      SumWeightsSnoc(d, p, o);
      if o.key !in Keys(p) {
        WeightOfAbsent(p, o.key);
        assert Distinct(ks) == d + [o.key];
        assert (d + [o.key])[..|d|] == d;
      }
    }
  }
}
