/** The histogram's in-place updates and queries, and the dump it is kept as. */
module Histogram {
  import opened Buckets

  class Hist {
    const counts: array<nat>
    var n: nat
    var min: nat
    var max: nat
    /** Everything recorded or merged in, in order. */
    ghost var samples: seq<nat>

    ghost predicate Valid()
      reads this, counts
    {
      && Tallies(counts[..], samples)
      && n == |samples| && min == MinOf(samples) && max == MaxOf(samples)
    }

    constructor ()
      ensures Valid() && samples == [] && fresh(counts)
    {
      counts := new nat[NBUCKETS](_ => 0);
      n, min, max, samples := 0, 0, 0, [];
    }

    method Record(ns: nat)
      requires Valid()
      modifies this, counts
      ensures Valid() && samples == old(samples) + [ns]
    {
      hide BucketOf, MinOf, MaxOf, Tallies;
      TallyOne(counts[..], samples, ns);
      var b := BucketOf(ns);
      counts[b] := counts[b] + 1;
      n := n + 1;
      if n == 1 || ns < min {
        min := ns;
      }
      if ns > max {
        max := ns;
      }
      samples := samples + [ns];
      assert counts[..] == old(counts[..])[b := old(counts[b]) + 1];
    }

    /** Add another histogram's samples (or, merged with itself, double its own). */
    method Merge(o: Hist)
      requires Valid() && o.Valid() && (o != this ==> o.counts != counts)
      modifies this, counts
      ensures Valid() && samples == old(samples) + old(o.samples)
      ensures o != this ==> o.Valid() && o.samples == old(o.samples)
    {
      ghost var a, b := samples, o.samples;
      if o.n == 0 {
        assert a + b == a;
        return;
      }
      var oMin, oMax, oN := o.min, o.max, o.n;
      var i := 0;
      while i < NBUCKETS
        invariant 0 <= i <= NBUCKETS
        invariant forall k :: 0 <= k < i ==> counts[k] == old(counts[k]) + old(o.counts[k])
        invariant forall k :: i <= k < NBUCKETS ==> counts[k] == old(counts[k])
        invariant o != this ==> o.counts[..] == old(o.counts[..])
        modifies counts
      {
        counts[i] := counts[i] + o.counts[i];
        i := i + 1;
      }
      if n == 0 || oMin < min {
        min := oMin;
      }
      if oMax > max {
        max := oMax;
      }
      n := n + oN;
      samples := a + b;
      ExtremesConcat(a, b);
      forall k | 0 <= k < NBUCKETS ensures counts[k] == CountIn(samples, k) {
        CountInConcat(a, b, k);
        assert old(counts[..])[k] == CountIn(a, k) && old(o.counts[..])[k] == CountIn(b, k);
      }
    }

    /** The quantile of a given rank: the bucket bound of the rank-th smallest sample,
        clamped to the exact maximum. */
    method Quantile(q: nat) returns (u: nat)
      requires Valid()
      ensures n == 0 ==> u == 0
      ensures var rank := if q < 1 then 1 else q;
        forall x :: IsRank(samples, rank, x) ==> u == Reported(samples, x)
      ensures var rank := if q < 1 then 1 else q;
        rank <= n <==> exists x :: IsRank(samples, rank, x)
      ensures q > n > 0 ==> u == max
    {
      RankExists(samples, if q < 1 then 1 else q);
      if n == 0 {
        forall x ensures CountLe(samples, x) == 0 {
        }
        return 0;
      }
      var rank := if q < 1 then 1 else q;
      var seen := 0;
      var i := 0;
      PrefixCounts(counts[..], samples, NBUCKETS);
      BeforeNone(samples);
      while i < NBUCKETS
        invariant 0 <= i <= NBUCKETS
        invariant seen == Prefix(counts[..], i) < rank
      {
        seen := seen + counts[i];
        if seen >= rank {
          u := UpperOf(i);
          if u > max {
            u := max;
          }
          forall x | IsRank(samples, rank, x) ensures u == Reported(samples, x) {
            RankBucket(counts[..], samples, rank, x, i);
          }
          PrefixCounts(counts[..], samples, i + 1);
          BeforeMono(samples, i + 1, NBUCKETS);
          return;
        }
        i := i + 1;
      }
      forall x ensures !IsRank(samples, rank, x) {
        CountAtMost(samples, x);
      }
      return max;
    }

    /** `[upper, count]` for every bucket that is not empty, in increasing order. */
    method Sparse() returns (out: seq<(nat, nat)>)
      requires Valid()
      ensures IsDump(out, samples)
    {
      out := [];
      ghost var from: seq<nat> := [];
      var i := 0;
      while i < NBUCKETS
        invariant 0 <= i <= NBUCKETS
        invariant DumpedTo(out, from, counts[..], i)
      {
        var c := counts[i];
        if c > 0 {
          out := out + [(UpperOf(i), c)];
          from := from + [i];
        }
        i := i + 1;
      }
      DumpIsExact(out, from, counts[..], samples);
    }
  }

  lemma TallyOne(counts: seq<nat>, s: seq<nat>, v: nat)
    requires Tallies(counts, s)
    ensures |counts| == NBUCKETS && Tallies(counts[BucketOf(v) := counts[BucketOf(v)] + 1], s + [v])
    ensures MaxOf(s + [v]) == if v > MaxOf(s) then v else MaxOf(s)
    ensures MinOf(s + [v]) == if s == [] || v < MinOf(s) then v else MinOf(s)
  {
    hide BucketOf;
    assert (s + [v])[..|s|] == s;
  }

  /** `out` lists the non-empty buckets `from`, those below i, in order. */
  ghost predicate DumpedTo(out: seq<(nat, nat)>, from: seq<nat>, counts: seq<nat>, i: nat) {
    && |counts| == NBUCKETS && |from| == |out|
    && (forall k :: 0 <= k < |from| ==>
          from[k] < i <= NBUCKETS && counts[from[k]] > 0 && out[k] == (UpperOf(from[k]), counts[from[k]]))
    && (forall j, k :: 0 <= j < k < |from| ==> from[j] < from[k])
    && (forall b :: 0 <= b < i <= NBUCKETS && counts[b] > 0 ==> b in from)
  }

  /** The count a dump gives for an upper bound, zero if it does not list it. */
  function At(d: seq<(nat, nat)>, u: nat): nat {
    if d == [] then 0 else At(d[..|d| - 1], u) + if d[|d| - 1].0 == u then d[|d| - 1].1 else 0
  }

  /** A dump of these samples: for each bucket that holds any, its bound and how many, once,
      in increasing order, and nothing else. */
  ghost predicate IsDump(d: seq<(nat, nat)>, s: seq<nat>) {
    && (forall j, k :: 0 <= j < k < |d| ==> d[j].0 < d[k].0)
    && (forall i :: 0 <= i < NBUCKETS ==> At(d, UpperOf(i)) == CountIn(s, i))
    && (forall k :: 0 <= k < |d| ==> IsBound(d[k].0) && d[k].1 > 0)
  }

  ghost predicate IsBound(u: nat) {
    exists i :: 0 <= i < NBUCKETS && UpperOf(i) == u
  }

  lemma {:induction false} AtOnce(d: seq<(nat, nat)>, k: nat)
    requires forall i, j :: 0 <= i < j < |d| ==> d[i].0 < d[j].0
    requires k < |d|
    ensures At(d, d[k].0) == d[k].1
    decreases |d|
  {
    var n := |d| - 1;
    if k < n {
      AtOnce(d[..n], k);
    } else {
      AtNever(d[..n], d[n].0);
    }
  }

  lemma {:induction false} AtNever(d: seq<(nat, nat)>, u: nat)
    requires forall i :: 0 <= i < |d| ==> d[i].0 != u
    ensures At(d, u) == 0
    decreases |d|
  {
    if d != [] {
      AtNever(d[..|d| - 1], u);
    }
  }

  lemma DumpIsExact(out: seq<(nat, nat)>, from: seq<nat>, counts: seq<nat>, s: seq<nat>)
    requires Tallies(counts, s) && DumpedTo(out, from, counts, NBUCKETS)
    ensures IsDump(out, s)
  {
    forall j, k | 0 <= j < k < |out| ensures out[j].0 < out[k].0 {
      UpperIncreases(from[j], from[k]);
    }
    forall i | 0 <= i < NBUCKETS ensures At(out, UpperOf(i)) == CountIn(s, i) {
      if counts[i] > 0 {
        var k :| 0 <= k < |from| && from[k] == i;
        AtOnce(out, k);
      } else {
        forall k | 0 <= k < |out| ensures out[k].0 != UpperOf(i) {
          UpperInBucket(from[k]);
          UpperInBucket(i);
        }
        AtNever(out, UpperOf(i));
      }
    }
    forall k | 0 <= k < |out| ensures IsBound(out[k].0) {
      assert UpperOf(from[k]) == out[k].0;
    }
  }
}
