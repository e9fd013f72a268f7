/** The load generator's shared histograms, and the minimum their snapshots make up. */
module SharedHistograms {
  import opened Buckets
  import opened Histogram

  /** The samples that are not zero. */
  function NonZero(s: seq<nat>): seq<nat> {
    if s == [] then []
    else NonZero(s[..|s| - 1]) + if s[|s| - 1] > 0 then [s[|s| - 1]] else []
  }

  lemma {:induction false} InNonZero(s: seq<nat>)
    ensures forall v :: v in NonZero(s) <==> v in s && v > 0
    decreases |s|
  {
    if s != [] {
      InNonZero(s[..|s| - 1]);
      assert s == s[..|s| - 1] + [s[|s| - 1]];
    }
  }

  /** The bound a snapshot should have for its minimum or maximum. */
  function BoundOf(v: nat): nat {
    UpperOf(BucketOf(v))
  }

  /** The samples of one bucket. */
  function InBucket(s: seq<nat>, i: nat): seq<nat> {
    if s == [] then []
    else InBucket(s[..|s| - 1], i) + if BucketOf(s[|s| - 1]) == i then [s[|s| - 1]] else []
  }

  lemma {:induction false} InBucketCounts(s: seq<nat>, i: nat, k: nat)
    ensures |InBucket(s, i)| == CountIn(s, i)
    ensures CountIn(InBucket(s, i), k) == if k == i then CountIn(s, i) else 0
    ensures forall v :: v in InBucket(s, i) ==> v in s
    decreases |s|
  {
    if s != [] {
      var front, last := s[..|s| - 1], s[|s| - 1];
      InBucketCounts(front, i, k);
      var b := InBucket(front, i);
      assert (b + [last])[..|b|] == b && b + [] == b;
    }
  }

  lemma CountInPrefix(s: seq<nat>, t: seq<nat>, i: nat)
    requires s <= t
    ensures CountIn(s, i) <= CountIn(t, i)
  {
    CountInConcat(s, t[|s|..], i);
    assert s + t[|s|..] == t;
  }

  /** Histograms shared by many recorders, with no minimum or maximum of their own. */
  class AtomicHist {
    const counts: array<nat>
    var n: nat
    /** Recorders that have added to a count and not yet to n. */
    var unfinished: nat
    /** Every sample counted, in order. */
    ghost var samples: seq<nat>

    ghost predicate Valid()
      reads this, counts
    {
      Tallies(counts[..], samples) && n + unfinished == |samples|
    }

    constructor ()
      ensures Valid() && samples == [] && unfinished == 0 && fresh(counts)
    {
      counts := new nat[NBUCKETS](_ => 0);
      n, unfinished, samples := 0, 0, [];
    }

    /** The first atomic add of a recorder. */
    method AddCount(ns: nat)
      requires Valid()
      modifies this`unfinished, this`samples, counts
      ensures Valid() && samples == old(samples) + [ns] && unfinished == old(unfinished) + 1 && n == old(n)
    {
      hide BucketOf, MinOf, MaxOf, Tallies;
      TallyOne(counts[..], samples, ns);
      var b := BucketOf(ns);
      counts[b] := counts[b] + 1;
      unfinished := unfinished + 1;
      samples := samples + [ns];
      assert counts[..] == old(counts[..])[b := old(counts[b]) + 1];
    }

    /** Other recorders may run here; `own` of those between their adds are this thread's. */
    method Interfere(own: nat)
      requires Valid() && own <= unfinished
      modifies this, counts
      ensures Valid() && own <= unfinished && old(samples) <= samples
    {
      hide Tallies;
      var steps: nat := *;
      while steps > 0
        invariant Valid() && own <= unfinished && old(samples) <= samples
      {
        var ns: nat := *;
        var starts: bool := *;
        if starts {
          AddCount(ns);
        } else if unfinished > own {
          n, unfinished := n + 1, unfinished - 1;
        }
        steps := steps - 1;
      }
    }

    /** Two atomic adds, with anything the other recorders do between them. */
    method Record(ns: nat)
      requires Valid()
      modifies this, counts
      ensures Valid() && old(samples) + [ns] <= samples
    {
      hide Tallies;
      AddCount(ns);
      Interfere(1);
      n, unfinished := n + 1, unfinished - 1;
    }

    /** The counts, one load at a time while others record, with extremes made up from bucket
        bounds. A bound of zero is taken for none yet, so the minimum is that of the samples
        that are not zero. `seen` is what it counted: in each bucket at least what was there
        before, and no more than is there after. */
    method Snapshot() returns (out: seq<nat>, total: nat, min: nat, max: nat, ghost seen: seq<nat>)
      requires Valid()
      modifies this, counts
      ensures Valid() && old(samples) <= samples
      ensures Tallies(out, seen) && total == |seen|
      ensures min == BoundOf(MinOf(NonZero(seen))) && max == BoundOf(MaxOf(seen))
      ensures forall i :: 0 <= i < NBUCKETS ==> CountIn(old(samples), i) <= out[i] <= CountIn(samples, i)
      ensures forall v :: v in seen ==> v in samples
    {
      hide UpperOf, IsLowest, IsHighest, CountIn, BoundOf, InBucket;
      var snap := new nat[NBUCKETS](_ => 0);
      total, min, max, seen := 0, 0, 0, [];
      var i := 0;
      NoneYet();
      while i < NBUCKETS
        invariant 0 <= i <= NBUCKETS && fresh(snap)
        invariant Valid() && old(samples) <= samples
        invariant forall k :: 0 <= k < i ==> snap[k] == CountIn(seen, k)
        invariant forall k :: 0 <= k < i ==> CountIn(old(samples), k) <= snap[k] <= CountIn(samples, k)
        invariant forall k :: i <= k < NBUCKETS ==> snap[k] == 0 == CountIn(seen, k)
        invariant total == |seen| && forall v :: v in seen ==> v in samples
        invariant IsLowest(seen, i, min) && IsHighest(seen, i, max)
      {
        ghost var before := samples;
        Interfere(0);
        var c := counts[i];
        SeenNext(old(samples), before, samples, seen, i, min, max);
        seen := seen + InBucket(samples, i);
        if c > 0 {
          snap[i] := c;
          total := total + c;
          var u := UpperOf(i);
          if min == 0 || u < min {
            min := u;
          }
          if u > max {
            max := u;
          }
        }
        i := i + 1;
      }
      out := snap[..];
      ExtremesDone(seen, min, max);
    }
  }

  /** Counting one more bucket of what is there by now. */
  lemma SeenNext(start: seq<nat>, before: seq<nat>, s: seq<nat>, seen: seq<nat>, i: nat, min: nat, max: nat)
    requires start <= before <= s && i < NBUCKETS && CountIn(seen, i) == 0
    requires IsLowest(seen, i, min) && IsHighest(seen, i, max)
    ensures var more, u, c := seen + InBucket(s, i), UpperOf(i), CountIn(s, i);
      && |more| == |seen| + c && CountIn(more, i) == c && CountIn(start, i) <= c
      && (forall k :: k != i ==> CountIn(more, k) == CountIn(seen, k))
      && (forall k :: CountIn(before, k) <= CountIn(s, k))
      && (forall v :: v in more ==> v in seen || v in s)
      && IsLowest(more, i + 1, if c > 0 && (min == 0 || u < min) then u else min)
      && IsHighest(more, i + 1, if c > 0 && u > max then u else max)
  {
    var more := seen + InBucket(s, i);
    InBucketCounts(s, i, i);
    CountInConcat(seen, InBucket(s, i), i);
    CountInPrefix(start, s, i);
    forall k | k != i ensures CountIn(more, k) == CountIn(seen, k) {
      InBucketCounts(s, i, k);
      CountInConcat(seen, InBucket(s, i), k);
    }
    forall k ensures CountIn(before, k) <= CountIn(s, k) {
      CountInPrefix(before, s, k);
    }
    SameBelow(seen, more, i, min, max);
    hide IsLowest, IsHighest, InBucket, CountIn, UpperOf;
    LowestNext(more, i, min);
    HighestNext(more, i, max);
  }

  /** The extremes so far rest on the buckets below i alone. */
  lemma SameBelow(s: seq<nat>, t: seq<nat>, i: nat, min: nat, max: nat)
    requires forall k :: k != i ==> CountIn(t, k) == CountIn(s, k)
    requires IsLowest(s, i, min) && IsHighest(s, i, max)
    ensures IsLowest(t, i, min) && IsHighest(t, i, max)
  {
    hide CountIn, UpperOf;
    if min > 0 {
      var b :| LowestUsed(s, i, b) && min == UpperOf(b);
      assert LowestUsed(t, i, b);
    }
    if max > 0 {
      var b :| HighestUsed(s, i, b) && max == UpperOf(b);
      assert HighestUsed(t, i, b);
    }
  }

  /** b is the lowest bucket below i, the first aside, that holds samples. */
  predicate LowestUsed(s: seq<nat>, i: nat, b: nat) {
    0 < b < i && b < NBUCKETS && CountIn(s, b) > 0 && forall k :: 0 < k < b ==> CountIn(s, k) == 0
  }

  predicate HighestUsed(s: seq<nat>, i: nat, b: nat) {
    0 < b < i && b < NBUCKETS && CountIn(s, b) > 0 && forall k :: b < k < i ==> CountIn(s, k) == 0
  }

  predicate NoneUsed(s: seq<nat>, i: nat) {
    forall k :: 0 < k < i ==> CountIn(s, k) == 0
  }

  ghost predicate IsLowest(s: seq<nat>, i: nat, min: nat) {
    if min == 0 then NoneUsed(s, i) else exists b :: LowestUsed(s, i, b) && min == UpperOf(b)
  }

  ghost predicate IsHighest(s: seq<nat>, i: nat, max: nat) {
    if max == 0 then NoneUsed(s, i) else exists b :: HighestUsed(s, i, b) && max == UpperOf(b)
  }

  lemma NoneYet()
    ensures IsLowest([], 0, 0) && IsHighest([], 0, 0) && forall k :: CountIn([], k) == 0
  {
  }

  lemma FirstUsed(s: seq<nat>, i: nat)
    requires i < NBUCKETS
    ensures UpperOf(0) == 0 && (i > 0 ==> UpperOf(i) > 0)
    ensures CountIn(s, i) == 0 || i == 0 ==> (NoneUsed(s, i) <==> NoneUsed(s, i + 1))
    ensures NoneUsed(s, i) && i > 0 && CountIn(s, i) > 0 ==> LowestUsed(s, i + 1, i)
    ensures i > 0 && CountIn(s, i) > 0 ==> HighestUsed(s, i + 1, i)
  {
    if i > 0 {
      UpperIncreases(0, i);
    }
  }

  lemma LowestNext(s: seq<nat>, i: nat, min: nat)
    requires i < NBUCKETS && IsLowest(s, i, min)
    ensures IsLowest(s, i + 1, if CountIn(s, i) > 0 && (min == 0 || UpperOf(i) < min) then UpperOf(i) else min)
  {
    hide UpperOf, CountIn;
    FirstUsed(s, i);
    hide UpperOf, CountIn;
    if min > 0 {
      var b :| LowestUsed(s, i, b) && min == UpperOf(b);
      UpperIncreases(b, i);
      assert LowestUsed(s, i + 1, b);
    }
  }

  lemma HighestNext(s: seq<nat>, i: nat, max: nat)
    requires i < NBUCKETS && IsHighest(s, i, max)
    ensures IsHighest(s, i + 1, if CountIn(s, i) > 0 && UpperOf(i) > max then UpperOf(i) else max)
  {
    hide UpperOf, CountIn;
    FirstUsed(s, i);
    if max > 0 {
      var b :| HighestUsed(s, i, b) && max == UpperOf(b);
      HighestStays(s, i, b);
    }
  }

  lemma HighestStays(s: seq<nat>, i: nat, b: nat)
    requires i < NBUCKETS && HighestUsed(s, i, b)
    ensures UpperOf(b) < UpperOf(i)
    ensures CountIn(s, i) == 0 ==> HighestUsed(s, i + 1, b)
  {
    hide UpperOf, CountIn;
    UpperIncreases(b, i);
  }

  lemma ExtremesDone(s: seq<nat>, min: nat, max: nat)
    requires IsLowest(s, NBUCKETS, min) && IsHighest(s, NBUCKETS, max)
    ensures min == BoundOf(MinOf(NonZero(s))) && max == BoundOf(MaxOf(s))
  {
    LowestIs(s, min);
    HighestIs(s, max);
  }

  lemma BoundOfZero(v: nat)
    ensures BoundOf(v) == 0 <==> v == 0
  {
    BucketLe(v, 0);
    if v > 0 {
      UpperIncreases(0, BucketOf(v));
    }
  }

  lemma EmptyMin()
    ensures MinOf([]) == 0
  {
  }

  /** The lowest used bucket is that of the smallest sample. */
  lemma LowestIs(s: seq<nat>, min: nat)
    requires IsLowest(s, NBUCKETS, min)
    ensures min == BoundOf(MinOf(NonZero(s)))
  {
    hide UpperOf, BucketOf, CountIn, MinOf, NonZero;
    BoundOfZero(0);
    EmptyMin();
    FirstUsed(s, 0);
    var nz := NonZero(s);
    var m := MinOf(nz);
    InNonZero(s);
    MinBounds(nz);
    if nz != [] {
      SampleCounted(s, m);
      BucketLe(m, 0);
    }
    if min > 0 {
      var b :| LowestUsed(s, NBUCKETS, b) && min == UpperOf(b);
      CountedSample(s, b);
      var v :| v in s && BucketOf(v) == b;
      BucketLe(v, 0);
      assert v in nz;
      BucketMono(m, v);
    }
  }

  lemma HighestIs(s: seq<nat>, max: nat)
    requires IsHighest(s, NBUCKETS, max)
    ensures max == BoundOf(MaxOf(s))
  {
    hide UpperOf, BucketOf, CountIn;
    BoundOfZero(0);
    FirstUsed(s, 0);
    var m := MaxOf(s);
    MaxBounds(s);
    if s != [] {
      SampleCounted(s, m);
    }
    if max > 0 {
      var b :| HighestUsed(s, NBUCKETS, b) && max == UpperOf(b);
      CountedSample(s, b);
      var v :| v in s && BucketOf(v) == b;
      BucketMono(v, m);
    }
  }

  /** So the minimum is that of the samples just when none is zero, or all are. */
  lemma SnapshotMinimumIff(s: seq<nat>)
    requires s != []
    ensures BoundOf(MinOf(NonZero(s))) == BoundOf(MinOf(s)) <==> 0 !in s || forall v :: v in s ==> v == 0
  {
    hide BoundOf, NonZero, MinOf;
    var nz := NonZero(s);
    InNonZero(s);
    MinBounds(s);
    MinBounds(nz);
    if nz == [] {
      assert MinOf(s) == 0 == MinOf(nz) by { EmptyMin(); }
    } else if 0 !in s {
      assert MinOf(s) in nz && MinOf(nz) in s;
    } else {
      assert MinOf(s) == 0 && MinOf(nz) in s;
      BoundOfZero(0);
      BoundOfZero(MinOf(nz));
    }
  }
}
