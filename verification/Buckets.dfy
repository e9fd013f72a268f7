/** The log-linear bucket scheme, and order statistics of a list of samples. */
module Buckets {
  import opened Words

  const SUB: nat := 64
  const MAX_EXP: nat := 40
  /** 2^46: samples from here on share the last bucket. */
  const LIMIT: nat := 0x4000_0000_0000
  const NBUCKETS: nat := (MAX_EXP + 1) * SUB

  /** Number of bits needed to write v. */
  function Len64(v: nat): nat {
    if v == 0 then 0 else 1 + Len64(v / 2)
  }

  /** 64 linear buckets per power of two; everything from 2^46 on lands in the last. */
  function BucketOf(v: nat): (b: nat)
    ensures b < NBUCKETS
  {
    if v < SUB then v
    else
      SampleShape(v);
      var e := Len64(v) - 7;
      var idx := (e + 1) * SUB + v / Pow2(e) - SUB;
      if idx >= NBUCKETS then NBUCKETS - 1 else idx
  }

  /** The largest value bucket `idx` holds (the last one aside). */
  function UpperOf(idx: nat): nat
    requires idx < NBUCKETS
  {
    if idx < SUB then idx
    else
      var e, m := idx / SUB - 1, idx % SUB + SUB;
      (m + 1) * Pow2(e) - 1
  }

  lemma {:induction false} LenBounds(v: nat)
    requires v > 0
    ensures Len64(v) > 0 && Pow2(Len64(v) - 1) <= v < Pow2(Len64(v))
  {
    if v > 1 {
      LenBounds(v / 2);
    }
  }

  lemma {:induction false} Pow2Mono(a: nat, b: nat)
    ensures a < b ==> 2 * Pow2(a) <= Pow2(b)
    decreases b
  {
    if a + 1 < b {
      Pow2Mono(a, b - 1);
    }
  }

  /** A sample from 64 on is m * 2^e and a remainder, with m a seven-bit number. */
  lemma SampleShape(v: nat)
    requires v >= SUB
    ensures Len64(v) >= 7
    ensures var e := Len64(v) - 7; var m := v / Pow2(e);
      64 <= m < 128 && m * Pow2(e) <= v < (m + 1) * Pow2(e)
  {
    LenBounds(v);
    LenAtLeast(v);
    var e := Len64(v) - 7;
    assert Pow2(e + 6) == 64 * Pow2(e) && Pow2(e + 7) == 128 * Pow2(e) by {
      Pow2Shift(e);
    }
    Quotient(v, Pow2(e));
  }

  lemma Pow2Shift(e: nat)
    ensures Pow2(e + 6) == 64 * Pow2(e) && Pow2(e + 7) == 128 * Pow2(e)
  {
    assert Pow2(e + 1) == 2 * Pow2(e);
    assert Pow2(e + 2) == 2 * Pow2(e + 1);
    assert Pow2(e + 3) == 2 * Pow2(e + 2);
    assert Pow2(e + 4) == 2 * Pow2(e + 3);
    assert Pow2(e + 5) == 2 * Pow2(e + 4);
    assert Pow2(e + 6) == 2 * Pow2(e + 5);
    assert Pow2(e + 7) == 2 * Pow2(e + 6);
  }

  lemma LenAtLeast(v: nat)
    requires v >= SUB
    ensures Len64(v) >= 7
  {
    LenBounds(v);
    Pow2Shift(0);
    Pow2Mono(Len64(v), 6);
  }

  lemma Quotient(v: nat, d: nat)
    requires d > 0 && 64 * d <= v < 128 * d
    ensures 64 <= v / d < 128 && v / d * d <= v < (v / d + 1) * d
  {
    var q := v / d;
    assert v == q * d + v % d;
    assert q * d + d == (q + 1) * d;
    MulLess(64, q + 1, d);
    MulLess(q, 128, d);
  }

  lemma MulLess(a: nat, b: nat, d: nat)
    requires d > 0 && a * d < b * d
    ensures a < b
  {
    if a >= b {
      MulMono(b, a, d);
    }
  }

  /** Seven-bit mantissas and exponents order values as their bucket numbers do. */
  lemma CompareShapes(v: nat, e: nat, m: nat, f: nat, k: nat)
    requires 64 <= m < 128 && 64 <= k < 128
    requires m * Pow2(e) <= v < (m + 1) * Pow2(e)
    ensures SUB * e + m <= SUB * f + k <==> v < (k + 1) * Pow2(f)
  {
    if e < f {
      Pow2Mono(e, f);
      MulMono(m + 1, 128, Pow2(e));
      MulMono(64, k + 1, Pow2(f));
    } else if f < e {
      Pow2Mono(f, e);
      MulMono(k + 1, 128, Pow2(f));
      MulMono(64, m, Pow2(e));
    } else if m <= k {
      MulMono(m + 1, k + 1, Pow2(e));
    } else {
      MulMono(k + 1, m, Pow2(e));
    }
  }

  /** Buckets are the samples between consecutive upper bounds, exactly. */
  lemma BucketLe(v: nat, i: nat)
    requires i < NBUCKETS - 1
    ensures BucketOf(v) <= i <==> v <= UpperOf(i)
  {
    if i >= SUB {
      UpperAtLeast(i);
    }
    if v >= SUB {
      SampleShape(v);
      if i >= SUB {
        var e := Len64(v) - 7;
        CompareShapes(v, e, v / Pow2(e), i / SUB - 1, i % SUB + SUB);
      }
    }
  }

  lemma UpperAtLeast(i: nat)
    requires SUB <= i < NBUCKETS
    ensures UpperOf(i) >= SUB
  {
    var f, k := i / SUB - 1, i % SUB + SUB;
    MulMono(SUB + 1, k + 1, Pow2(f));
    MulMono(1, Pow2(f), SUB + 1);
  }

  lemma BucketMono(v: nat, w: nat)
    requires v <= w
    ensures BucketOf(v) <= BucketOf(w)
  {
    var b := BucketOf(w);
    if b < NBUCKETS - 1 {
      BucketLe(w, b);
      BucketLe(v, b);
    }
  }

  /** A bucket's upper bound lies in that bucket. */
  lemma UpperInBucket(i: nat)
    requires i < NBUCKETS
    ensures BucketOf(UpperOf(i)) == i
  {
    if i < NBUCKETS - 1 {
      BucketLe(UpperOf(i), i);
    }
    if 0 < i {
      UpperIncreases(i - 1, i);
      BucketLe(UpperOf(i), i - 1);
    }
  }

  lemma UpperIncreases(i: nat, j: nat)
    requires i < j < NBUCKETS
    ensures UpperOf(i) < UpperOf(j)
  {
    if j < SUB {
    } else {
      var f, k := j / SUB - 1, j % SUB + SUB;
      if i < SUB {
        MulMono(SUB + 1, k + 1, Pow2(f));
        MulMono(1, Pow2(f), SUB + 1);
      } else {
        var e, m := i / SUB - 1, i % SUB + SUB;
        if e < f {
          Pow2Mono(e, f);
          MulMono(m + 1, 128, Pow2(e));
          MulMono(SUB + 1, k + 1, Pow2(f));
        } else {
          assert e == f && m < k;
          MulMono(m + 2, k + 1, Pow2(e));
        }
      }
    }
  }

  lemma LenBelow(v: nat, n: nat)
    requires v < Pow2(n)
    ensures Len64(v) <= n
  {
    if v > 0 {
      LenBounds(v);
      Pow2Mono(n, Len64(v) - 1);
    }
  }

  /** The scheme in numbers: a bucket for each value below 64, then 64 equal ones between each
      power of two and the next, the last of which takes everything from 2^46 on too. */
  lemma BucketShape(v: nat, e: nat)
    ensures v < 64 ==> BucketOf(v) == v
    ensures e < 40 && 64 * Pow2(e) <= v < 128 * Pow2(e) ==> BucketOf(v) == 64 * e + v / Pow2(e)
    ensures v >= 0x4000_0000_0000 ==> BucketOf(v) == 2623
  {
    if v >= LIMIT {
      LastBucket(v);
    }
    if e < 40 && 64 * Pow2(e) <= v < 128 * Pow2(e) {
      MiddleBucket(v, e);
    }
    hide Pow2, Len64;
  }

  lemma LastBucket(v: nat)
    requires v >= LIMIT
    ensures BucketOf(v) == 2623
  {
    UpperBelowLimit(2622);
    BucketLe(v, 2622);
    hide BucketOf, UpperOf;
  }

  lemma MiddleBucket(v: nat, e: nat)
    requires e < 40 && 64 * Pow2(e) <= v < 128 * Pow2(e)
    ensures BucketOf(v) == 64 * e + v / Pow2(e)
  {
    MulMono(1, Pow2(e), 64);
    Pow2Shift(e);
    LenIs(v, e + 7);
    Quotient(v, Pow2(e));
    hide Pow2, Len64;
  }

  lemma LenIs(v: nat, n: nat)
    requires n > 0 && Pow2(n - 1) <= v < Pow2(n)
    ensures Len64(v) == n
  {
    LenBounds(v);
    var l := Len64(v);
    if l < n {
      Pow2Mono(l, n - 1);
    } else if l > n {
      Pow2Mono(n, l - 1);
    }
  }

  /** Unclamped, a sample is reported as the largest value of its bucket. */
  lemma UpperIsLargest(v: nat, w: nat)
    requires v < LIMIT && w < LIMIT
    ensures BucketOf(UpperOf(BucketOf(v))) == BucketOf(v) && UpperOf(BucketOf(v)) < LIMIT
    ensures w <= UpperOf(BucketOf(v)) <==> BucketOf(w) <= BucketOf(v)
  {
    UpperInBucket(BucketOf(v));
    UpperBelowLimit(BucketOf(v));
    if w <= UpperOf(BucketOf(v)) {
      BucketMono(w, UpperOf(BucketOf(v)));
    } else if BucketOf(w) <= BucketOf(v) {
      UpperWithin64th(w);
      if BucketOf(w) < BucketOf(v) {
        UpperIncreases(BucketOf(w), BucketOf(v));
      }
    }
  }

  /** No bucket's bound reaches 2^46. */
  lemma UpperBelowLimit(i: nat)
    requires i < NBUCKETS
    ensures UpperOf(i) < LIMIT
  {
    LimitIsPow2();
    Pow2Shift(39);
    var last := NBUCKETS - 1;
    assert last / SUB - 1 == 39 && last % SUB + SUB == 127;
    if i < last {
      UpperIncreases(i, last);
    }
  }

  /** A sample is reported never too low and at most a 64th too high, just below 2^46: from
      there on the last bucket's bound is below the sample. */
  lemma UpperWithin64th(v: nat)
    ensures v <= UpperOf(BucketOf(v)) && 64 * (UpperOf(BucketOf(v)) - v) <= v <==> v < 0x4000_0000_0000
  {
    if v < LIMIT {
      UpperCloseBelowLimit(v);
    } else {
      UpperBelowLimit(BucketOf(v));
    }
  }

  lemma UpperCloseBelowLimit(v: nat)
    requires v < LIMIT
    ensures v <= UpperOf(BucketOf(v)) && 64 * (UpperOf(BucketOf(v)) - v) <= v
  {
    if v >= SUB {
      LimitIsPow2();
      LenBelow(v, 46);
      SampleShape(v);
      var e := Len64(v) - 7;
      var m := v / Pow2(e);
      assert BucketOf(v) == SUB * e + m;
      assert BucketOf(v) / SUB - 1 == e && BucketOf(v) % SUB + SUB == m;
      assert (m + 1) * Pow2(e) == m * Pow2(e) + Pow2(e);
      MulMono(SUB, m, Pow2(e));
    }
  }

  lemma LimitIsPow2()
    ensures Pow2(46) == LIMIT
  {
    Pow2Shift(39);
    Pow2Shift(32);
    Pow2Shift(25);
    Pow2Shift(18);
    Pow2Shift(11);
    Pow2Shift(4);
  }

  // ---- samples ----

  function CountLe(s: seq<nat>, x: nat): nat {
    if s == [] then 0 else CountLe(s[..|s| - 1], x) + if s[|s| - 1] <= x then 1 else 0
  }

  function CountLt(s: seq<nat>, x: nat): nat {
    if x == 0 then 0 else CountLe(s, x - 1)
  }

  /** x is the r-th smallest sample. */
  predicate IsRank(s: seq<nat>, r: nat, x: nat) {
    CountLt(s, x) < r <= CountLe(s, x)
  }

  function CountIn(s: seq<nat>, i: nat): nat {
    if s == [] then 0 else CountIn(s[..|s| - 1], i) + if BucketOf(s[|s| - 1]) == i then 1 else 0
  }

  /** Samples in buckets before i. */
  function CountBefore(s: seq<nat>, i: nat): nat {
    if s == [] then 0 else CountBefore(s[..|s| - 1], i) + if BucketOf(s[|s| - 1]) < i then 1 else 0
  }

  function Prefix(counts: seq<nat>, i: nat): nat
    requires i <= |counts|
  {
    if i == 0 then 0 else Prefix(counts, i - 1) + counts[i - 1]
  }

  /** The counts are those of the samples. */
  ghost predicate Tallies(counts: seq<nat>, s: seq<nat>) {
    |counts| == NBUCKETS && forall i :: 0 <= i < NBUCKETS ==> counts[i] == CountIn(s, i)
  }

  lemma {:induction false} BeforeNext(s: seq<nat>, i: nat)
    ensures CountBefore(s, i + 1) == CountBefore(s, i) + CountIn(s, i)
    decreases |s|
  {
    if s != [] {
      BeforeNext(s[..|s| - 1], i);
    }
  }

  lemma {:induction false} BeforeNone(s: seq<nat>)
    ensures CountBefore(s, 0) == 0 && CountBefore(s, NBUCKETS) == |s|
    decreases |s|
  {
    if s != [] {
      BeforeNone(s[..|s| - 1]);
    }
  }

  lemma {:induction false} PrefixCounts(counts: seq<nat>, s: seq<nat>, i: nat)
    requires Tallies(counts, s) && i <= NBUCKETS
    ensures Prefix(counts, i) == CountBefore(s, i)
    decreases i
  {
    if i == 0 {
      BeforeNone(s);
    } else {
      PrefixCounts(counts, s, i - 1);
      BeforeNext(s, i - 1);
    }
  }

  /** Samples before x's bucket are smaller than x; samples up to x are in buckets up to x's. */
  lemma {:induction false} CountsBracket(s: seq<nat>, x: nat)
    ensures CountBefore(s, BucketOf(x)) <= CountLt(s, x)
    ensures CountLe(s, x) <= CountBefore(s, BucketOf(x) + 1)
    decreases |s|
  {
    if s != [] {
      CountsBracket(s[..|s| - 1], x);
      var v := s[|s| - 1];
      if v <= x {
        BucketMono(v, x);
      }
      if x <= v {
        BucketMono(x, v);
      }
    }
  }

  lemma {:induction false} BeforeMono(s: seq<nat>, i: nat, j: nat)
    requires i <= j
    ensures CountBefore(s, i) <= CountBefore(s, j)
    decreases |s|
  {
    if s != [] {
      BeforeMono(s[..|s| - 1], i, j);
    }
  }

  /** The bucket where the running count reaches rank r is the bucket of the r-th smallest sample. */
  lemma RankBucket(counts: seq<nat>, s: seq<nat>, r: nat, x: nat, b: nat)
    requires Tallies(counts, s) && b < NBUCKETS && IsRank(s, r, x)
    requires Prefix(counts, b) < r <= Prefix(counts, b + 1)
    ensures b == BucketOf(x)
  {
    PrefixCounts(counts, s, b);
    PrefixCounts(counts, s, b + 1);
    CountsBracket(s, x);
    if b < BucketOf(x) {
      BeforeMono(s, b + 1, BucketOf(x));
    } else if BucketOf(x) < b {
      BeforeMono(s, BucketOf(x) + 1, b);
    }
  }

  // ---- ranks are positions in the sorted list ----

  ghost predicate Sorted(t: seq<nat>) {
    forall i, j :: 0 <= i < j < |t| ==> t[i] <= t[j]
  }

  lemma {:induction false} CountLeSorted(t: seq<nat>, x: nat, k: nat)
    requires Sorted(t) && k <= |t|
    requires (forall i :: 0 <= i < k ==> t[i] <= x) && (forall i :: k <= i < |t| ==> t[i] > x)
    ensures CountLe(t, x) == k
    decreases |t|
  {
    if t != [] {
      CountLeSorted(t[..|t| - 1], x, if k == |t| then k - 1 else k);
    }
  }

  lemma {:induction false} CountLeBounds(t: seq<nat>, x: nat, k: nat)
    requires Sorted(t) && k < |t|
    ensures x >= t[k] ==> CountLe(t, x) > k
    ensures x < t[k] ==> CountLe(t, x) <= k
    decreases |t|
  {
    var n := |t| - 1;
    CountAtMost(t[..n], x);
    if k < n {
      CountLeBounds(t[..n], x, k);
    } else if x >= t[n] {
      CountLeAll(t, x);
    }
  }

  lemma {:induction false} CountAtMost(s: seq<nat>, x: nat)
    ensures CountLe(s, x) <= |s|
    decreases |s|
  {
    if s != [] {
      CountAtMost(s[..|s| - 1], x);
    }
  }

  lemma {:induction false} CountLeAll(s: seq<nat>, x: nat)
    requires forall i :: 0 <= i < |s| ==> s[i] <= x
    ensures CountLe(s, x) == |s|
    decreases |s|
  {
    if s != [] {
      CountLeAll(s[..|s| - 1], x);
    }
  }

  lemma {:induction false} CountRemove(s: seq<nat>, i: nat, x: nat)
    requires i < |s|
    ensures CountLe(s, x) == CountLe(s[..i] + s[i + 1..], x) + if s[i] <= x then 1 else 0
    decreases |s|
  {
    var n := |s| - 1;
    if i == n {
      assert s[..i] + s[i + 1..] == s[..n];
    } else {
      CountRemove(s[..n], i, x);
      RemovedEarlier(s, i);
    }
  }

  lemma RemovedEarlier(s: seq<nat>, i: nat)
    requires i < |s| - 1
    ensures var n, rest := |s| - 1, s[..i] + s[i + 1..];
      |rest| == n && rest[n - 1] == s[n] && rest[..n - 1] == s[..n][..i] + s[..n][i + 1..]
  {
  }

  lemma WithoutOne(s: seq<nat>, i: nat)
    requires i < |s|
    ensures multiset(s[..i] + s[i + 1..]) == multiset(s) - multiset{s[i]}
  {
    assert s == s[..i] + [s[i]] + s[i + 1..];
  }

  lemma {:induction false} CountPermuted(s: seq<nat>, t: seq<nat>, x: nat)
    requires multiset(s) == multiset(t)
    ensures CountLe(s, x) == CountLe(t, x)
    decreases |s|
  {
    if s == [] {
      assert |multiset(t)| == 0;
    } else {
      var n := |s| - 1;
      assert s[n] in multiset(s);
      assert s[n] in multiset(t);
      var i :| 0 <= i < |t| && t[i] == s[n];
      var rest := t[..i] + t[i + 1..];
      WithoutOne(s, n);
      WithoutOne(t, i);
      assert s[..n] + s[n + 1..] == s[..n];
      CountPermuted(s[..n], rest, x);
      CountRemove(t, i, x);
    }
  }

  /** The r-th smallest sample is the r-th entry of the sorted samples, and only that. */
  lemma RankIsSortedEntry(s: seq<nat>, t: seq<nat>, r: nat, x: nat)
    requires multiset(s) == multiset(t) && Sorted(t) && 1 <= r <= |t|
    ensures IsRank(s, r, x) <==> x == t[r - 1]
  {
    CountPermuted(s, t, x);
    CountLeBounds(t, x, r - 1);
    if x > 0 {
      CountPermuted(s, t, x - 1);
      CountLeBounds(t, x - 1, r - 1);
    }
  }

  lemma {:induction false} CountLtNext(s: seq<nat>, x: nat)
    ensures CountLt(s, x) == if x == 0 then 0 else CountLe(s, x - 1)
    decreases |s|
  {
    if s != [] {
      CountLtNext(s[..|s| - 1], x);
    }
  }

  lemma {:induction false} RankBelow(s: seq<nat>, r: nat, x: nat)
    requires 1 <= r <= CountLe(s, x)
    ensures exists y :: IsRank(s, r, y)
    decreases x
  {
    CountLtNext(s, x);
    if CountLt(s, x) < r {
      assert IsRank(s, r, x);
    } else {
      RankBelow(s, r, x - 1);
    }
  }

  /** Every rank from 1 to the number of samples has its sample. */
  lemma RankExists(s: seq<nat>, r: nat)
    ensures 1 <= r <= |s| <==> exists x :: IsRank(s, r, x)
  {
    if 1 <= r <= |s| {
      MaxBounds(s);
      assert forall i :: 0 <= i < |s| ==> s[i] in s;
      CountLeAll(s, MaxOf(s));
      RankBelow(s, r, MaxOf(s));
    }
    forall x | IsRank(s, r, x) ensures 1 <= r <= |s| {
      CountAtMost(s, x);
    }
  }

  // ---- extremes, and lists put end to end ----

  function MaxOf(s: seq<nat>): nat {
    if s == [] then 0
    else if s[|s| - 1] > MaxOf(s[..|s| - 1]) then s[|s| - 1] else MaxOf(s[..|s| - 1])
  }

  function MinOf(s: seq<nat>): nat {
    if s == [] then 0
    else if |s| == 1 || s[|s| - 1] < MinOf(s[..|s| - 1]) then s[|s| - 1] else MinOf(s[..|s| - 1])
  }

  lemma {:induction false} MaxBounds(s: seq<nat>)
    ensures forall v :: v in s ==> v <= MaxOf(s)
    ensures s != [] ==> MaxOf(s) in s
    decreases |s|
  {
    if s != [] {
      MaxBounds(s[..|s| - 1]);
      assert s == s[..|s| - 1] + [s[|s| - 1]];
    }
  }

  lemma {:induction false} MinBounds(s: seq<nat>)
    ensures forall v :: v in s ==> MinOf(s) <= v
    ensures s != [] ==> MinOf(s) in s
    decreases |s|
  {
    if s != [] {
      MinBounds(s[..|s| - 1]);
      assert s == s[..|s| - 1] + [s[|s| - 1]];
    }
  }

  lemma {:induction false} CountInConcat(a: seq<nat>, b: seq<nat>, i: nat)
    ensures CountIn(a + b, i) == CountIn(a, i) + CountIn(b, i)
    decreases |b|
  {
    if b == [] {
      assert a + b == a;
    } else {
      CountInConcat(a, b[..|b| - 1], i);
      assert (a + b)[..|a + b| - 1] == a + b[..|b| - 1];
    }
  }

  lemma ExtremesConcat(a: seq<nat>, b: seq<nat>)
    requires b != []
    ensures MaxOf(a + b) == if MaxOf(b) > MaxOf(a) then MaxOf(b) else MaxOf(a)
    ensures MinOf(a + b) == if a == [] || MinOf(b) < MinOf(a) then MinOf(b) else MinOf(a)
  {
    MaxBounds(a); MaxBounds(b); MaxBounds(a + b);
    MinBounds(a); MinBounds(b); MinBounds(a + b);
    assert MaxOf(b) in a + b && (a != [] ==> MaxOf(a) in a + b);
    assert MinOf(b) in a + b && (a != [] ==> MinOf(a) in a + b);
    assert MaxOf(a + b) in a || MaxOf(a + b) in b;
    assert MinOf(a + b) in a || MinOf(a + b) in b;
  }

  lemma {:induction false} SampleCounted(s: seq<nat>, v: nat)
    requires v in s
    ensures CountIn(s, BucketOf(v)) > 0
    decreases |s|
  {
    hide BucketOf;
    if s[|s| - 1] != v {
      SampleCounted(s[..|s| - 1], v);
    }
  }

  lemma {:induction false} CountedSample(s: seq<nat>, b: nat)
    requires CountIn(s, b) > 0
    ensures exists v :: v in s && BucketOf(v) == b
    decreases |s|
  {
    hide BucketOf;
    if BucketOf(s[|s| - 1]) != b {
      CountedSample(s[..|s| - 1], b);
      var v :| v in s[..|s| - 1] && BucketOf(v) == b;
      assert v in s;
    } else {
      assert s[|s| - 1] in s;
    }
  }

  lemma {:induction false} CountPositive(s: seq<nat>, x: nat)
    requires CountLt(s, x) < CountLe(s, x)
    ensures x in s
    decreases |s|
  {
    if s != [] && s[|s| - 1] != x {
      CountPositive(s[..|s| - 1], x);
    }
  }

  /** What a quantile reports for rank r: the bucket bound of the r-th smallest sample, or
      the largest sample if that is less. */
  function Reported(s: seq<nat>, x: nat): nat {
    if UpperOf(BucketOf(x)) > MaxOf(s) then MaxOf(s) else UpperOf(BucketOf(x))
  }

  /** A reported quantile is never above the largest sample, and it is at least the true one
      and at most a 64th above it just when that is below 2^46. */
  lemma ReportedWithin64th(s: seq<nat>, r: nat, x: nat)
    requires IsRank(s, r, x)
    ensures Reported(s, x) <= MaxOf(s)
    ensures x <= Reported(s, x) && 64 * (Reported(s, x) - x) <= x <==> x < 0x4000_0000_0000
  {
    CountPositive(s, x);
    MaxBounds(s);
    UpperWithin64th(x);
    UpperBelowLimit(BucketOf(x));
    hide UpperOf, BucketOf, MaxOf, CountLe, CountLt;
  }
}
