/** The benchmark report's quantiles, computed from the sum of many histogram dumps. */
module Report {
  import opened Buckets
  import opened Histogram

  /** Everything the dumps count under one upper bound. */
  function TotalAt(dumps: seq<seq<(nat, nat)>>, u: nat): nat {
    if dumps == [] then 0 else TotalAt(dumps[..|dumps| - 1], u) + At(dumps[|dumps| - 1], u)
  }

  ghost predicate Lists(d: seq<(nat, nat)>, u: nat) {
    exists k :: 0 <= k < |d| && d[k].0 == u
  }

  ghost predicate AnyLists(dumps: seq<seq<(nat, nat)>>, u: nat) {
    exists i :: 0 <= i < |dumps| && Lists(dumps[i], u)
  }

  function Get(hist: map<nat, nat>, u: nat): nat {
    if u in hist then hist[u] else 0
  }

  /** One dump added to the dictionary of counts. */
  method AddDump(hist: map<nat, nat>, d: seq<(nat, nat)>) returns (sum: map<nat, nat>)
    ensures forall u :: u in sum <==> u in hist || Lists(d, u)
    ensures forall u :: Get(sum, u) == Get(hist, u) + At(d, u)
  {
    sum := hist;
    var k := 0;
    while k < |d|
      invariant 0 <= k <= |d|
      invariant forall u :: u in sum <==> u in hist || Lists(d[..k], u)
      invariant forall u :: Get(sum, u) == Get(hist, u) + At(d[..k], u)
    {
      ListsNext(d, k);
      sum := sum[d[k].0 := Get(sum, d[k].0) + d[k].1];
      k := k + 1;
    }
    assert d[..k] == d;
  }

  lemma ListsNext(d: seq<(nat, nat)>, k: nat)
    requires k < |d|
    ensures forall u :: Lists(d[..k + 1], u) <==> Lists(d[..k], u) || d[k].0 == u
    ensures forall u :: At(d[..k + 1], u) == At(d[..k], u) + if d[k].0 == u then d[k].1 else 0
  {
    var e := d[..k + 1];
    assert e[..k] == d[..k];
    forall u ensures Lists(e, u) <==> Lists(d[..k], u) || d[k].0 == u {
      if Lists(d[..k], u) {
        var j :| 0 <= j < k && d[..k][j].0 == u;
        assert e[j].0 == u;
      }
      if d[k].0 == u {
        assert e[k].0 == u;
      }
    }
  }

  /** The sum over the runs of a group. */
  method Aggregate(dumps: seq<seq<(nat, nat)>>) returns (hist: map<nat, nat>)
    ensures forall u :: u in hist <==> AnyLists(dumps, u)
    ensures forall u :: Get(hist, u) == TotalAt(dumps, u)
  {
    hist := map[];
    var i := 0;
    while i < |dumps|
      invariant 0 <= i <= |dumps|
      invariant forall u :: u in hist <==> AnyLists(dumps[..i], u)
      invariant forall u :: Get(hist, u) == TotalAt(dumps[..i], u)
    {
      AnyListsNext(dumps, i);
      assert dumps[..i + 1][..i] == dumps[..i];
      hist := AddDump(hist, dumps[i]);
      i := i + 1;
    }
    assert dumps[..i] == dumps;
  }

  lemma AnyListsNext(dumps: seq<seq<(nat, nat)>>, i: nat)
    requires i < |dumps|
    ensures forall u :: AnyLists(dumps[..i + 1], u) <==> AnyLists(dumps[..i], u) || Lists(dumps[i], u)
  {
    var e := dumps[..i + 1];
    forall u ensures AnyLists(e, u) <==> AnyLists(dumps[..i], u) || Lists(dumps[i], u) {
      if AnyLists(dumps[..i], u) {
        var j :| 0 <= j < i && Lists(dumps[..i][j], u);
        assert Lists(e[j], u);
      }
      if Lists(dumps[i], u) {
        assert Lists(e[i], u);
      }
    }
  }

  ghost predicate Increasing(keys: seq<nat>) {
    forall i, j :: 0 <= i < j < |keys| ==> keys[i] < keys[j]
  }

  predicate Least(m: nat, s: set<nat>) {
    m in s && forall k :: k in s ==> m <= k
  }

  lemma LeastExists(s: set<nat>, x: nat)
    requires x in s
    ensures exists m :: Least(m, s)
    decreases x
  {
    if y :| y in s && y < x {
      LeastExists(s, y);
    } else {
      assert Least(x, s);
    }
  }

  /** `keys` are the smallest of `s`, in order, and `left` the others. */
  ghost predicate SortedSoFar(s: set<nat>, left: set<nat>, keys: seq<nat>) {
    && Increasing(keys)
    && (forall u :: u in s <==> u in left || u in keys)
    && (forall u, v :: u in left && v in keys ==> v < u)
  }

  lemma SortStep(s: set<nat>, left: set<nat>, keys: seq<nat>, m: nat)
    requires SortedSoFar(s, left, keys) && Least(m, left)
    ensures SortedSoFar(s, left - {m}, keys + [m])
  {
    assert forall k :: 0 <= k < |keys| ==> keys[k] in keys;
  }

  /** Python's `sorted` on a dictionary's keys. */
  method SortKeys(s: set<nat>) returns (keys: seq<nat>)
    ensures Increasing(keys)
    ensures forall u :: u in s <==> u in keys
  {
    keys := [];
    var left := s;
    while left != {}
      invariant SortedSoFar(s, left, keys)
    {
      hide SortedSoFar;
      var x :| x in left;
      LeastExists(left, x);
      var m :| Least(m, left);
      SortStep(s, left, keys, m);
      keys := keys + [m];
      left := left - {m};
    }
  }

  /** The dictionary counts exactly these samples by the bounds of their buckets. */
  ghost predicate Holds(hist: map<nat, nat>, s: seq<nat>) {
    && (forall i :: 0 <= i < NBUCKETS ==>
          (UpperOf(i) in hist <==> CountIn(s, i) > 0) && Get(hist, UpperOf(i)) == CountIn(s, i))
    && (forall u :: u in hist ==> IsBound(u))
  }

  /** Samples in buckets below that of the k-th key. */
  ghost function SeenBefore(keys: seq<nat>, s: seq<nat>, k: nat): nat
    requires k <= |keys|
  {
    CountBefore(s, if k < |keys| then BucketOf(keys[k]) else NBUCKETS)
  }

  lemma {:induction false} EmptyGap(s: seq<nat>, i: nat, j: nat)
    requires i <= j && forall b :: i <= b < j ==> CountIn(s, b) == 0
    ensures CountBefore(s, i) == CountBefore(s, j)
    decreases j
  {
    if i < j {
      EmptyGap(s, i, j - 1);
      BeforeNext(s, j - 1);
    }
  }

  /** The bucket of a key, and that its bound is the key. */
  lemma KeyBucket(hist: map<nat, nat>, s: seq<nat>, u: nat)
    requires Holds(hist, s) && u in hist
    ensures UpperOf(BucketOf(u)) == u && hist[u] == CountIn(s, BucketOf(u))
  {
    var i :| 0 <= i < NBUCKETS && UpperOf(i) == u;
    UpperInBucket(i);
  }

  lemma NextKey(hist: map<nat, nat>, keys: seq<nat>, s: seq<nat>, k: nat)
    requires Holds(hist, s) && Increasing(keys) && (forall u :: u in hist <==> u in keys) && k < |keys|
    ensures SeenBefore(keys, s, k + 1)
         == SeenBefore(keys, s, k) + hist[keys[k]] == CountBefore(s, BucketOf(keys[k]) + 1)
  {
    hide BucketOf;
    KeyBucket(hist, s, keys[k]);
    var b := BucketOf(keys[k]);
    var next := if k + 1 < |keys| then BucketOf(keys[k + 1]) else NBUCKETS;
    BeforeNext(s, b);
    if k + 1 < |keys| {
      KeyBucket(hist, s, keys[k + 1]);
      BucketMono(keys[k], keys[k + 1]);
    }
    forall i | b + 1 <= i < next ensures CountIn(s, i) == 0 {
      NoKeyBetween(keys, k, b, next, i);
      assert UpperOf(i) !in hist;
    }
    EmptyGap(s, b + 1, next);
  }

  /** Between two consecutive keys there is no other bucket's bound among the keys. */
  lemma NoKeyBetween(keys: seq<nat>, k: nat, b: nat, next: nat, i: nat)
    requires Increasing(keys) && k < |keys| && b < i < next <= NBUCKETS && UpperOf(b) == keys[k]
    requires k + 1 < |keys| ==> next < NBUCKETS && UpperOf(next) == keys[k + 1]
    ensures UpperOf(i) !in keys
  {
    UpperIncreases(b, i);
    if k + 1 < |keys| {
      UpperIncreases(i, next);
    }
    forall p | 0 <= p < |keys| ensures keys[p] != UpperOf(i) {
      assert p <= k || k + 1 <= p;
    }
  }

  lemma FirstKey(hist: map<nat, nat>, keys: seq<nat>, s: seq<nat>)
    requires Holds(hist, s) && Increasing(keys) && forall u :: u in hist <==> u in keys
    ensures SeenBefore(keys, s, 0) == 0
  {
    hide BucketOf;
    BeforeNone(s);
    var first := if keys != [] then BucketOf(keys[0]) else NBUCKETS;
    if keys != [] {
      KeyBucket(hist, s, keys[0]);
    }
    forall i | 0 <= i < first ensures CountIn(s, i) == 0 {
      if keys != [] {
        UpperIncreases(i, first);
      }
      assert UpperOf(i) !in keys;
    }
    EmptyGap(s, 0, first);
  }

  /** The report's quantile, in microseconds, of a dictionary that counts the samples `s`:
      the bucket bound of the rank-th smallest, with no clamp to the maximum. */
  method Quantile(hist: map<nat, nat>, q: nat, ghost s: seq<nat>) returns (r: real)
    requires Holds(hist, s)
    ensures s == [] ==> r == 0.0
    ensures var rank := if q < 1 then 1 else q;
      forall x :: IsRank(s, rank, x) ==> r == UpperOf(BucketOf(x)) as real / 1000.0
    ensures var rank := if q < 1 then 1 else q;
      rank <= |s| <==> exists x :: IsRank(s, rank, x)
    ensures q > |s| > 0 ==> r == UpperOf(BucketOf(MaxOf(s))) as real / 1000.0
  {
    hide BucketOf;
    RankExists(s, if q < 1 then 1 else q);
    var keys := SortKeys(hist.Keys);
    FirstKey(hist, keys, s);
    BeforeNone(s);
    var n, k := 0, 0;
    while k < |keys|
      invariant 0 <= k <= |keys| && n == SeenBefore(keys, s, k)
    {
      NextKey(hist, keys, s, k);
      n := n + hist[keys[k]];
      k := k + 1;
    }
    assert n == |s|;
    forall x ensures CountLe(s, x) <= |s| {
      CountAtMost(s, x);
    }
    if n == 0 {
      return 0.0;
    }
    var rank := if q < 1 then 1 else q;
    var seen := 0;
    k := 0;
    while k < |keys|
      invariant 0 <= k <= |keys| && seen == SeenBefore(keys, s, k) < rank
    {
      NextKey(hist, keys, s, k);
      seen := seen + hist[keys[k]];
      if seen >= rank {
        KeyBucket(hist, s, keys[k]);
        forall x | IsRank(s, rank, x) ensures BucketOf(keys[k]) == BucketOf(x) {
          BucketBracket(s, rank, x, BucketOf(keys[k]));
        }
        BeforeMono(s, BucketOf(keys[k]) + 1, NBUCKETS);
        return keys[k] as real / 1000.0;
      }
      k := k + 1;
    }
    LastKey(hist, keys, s);
    return keys[|keys| - 1] as real / 1000.0;
  }

  lemma BucketBracket(s: seq<nat>, r: nat, x: nat, b: nat)
    requires b < NBUCKETS && IsRank(s, r, x) && CountBefore(s, b) < r <= CountBefore(s, b + 1)
    ensures b == BucketOf(x)
  {
    hide BucketOf;
    CountsBracket(s, x);
    if b < BucketOf(x) {
      BeforeMono(s, b + 1, BucketOf(x));
    } else if BucketOf(x) < b {
      BeforeMono(s, BucketOf(x) + 1, b);
    }
  }

  /** The largest key is the bound of the largest sample's bucket. */
  lemma LastKey(hist: map<nat, nat>, keys: seq<nat>, s: seq<nat>)
    requires Holds(hist, s) && Increasing(keys) && (forall u :: u in hist <==> u in keys) && s != []
    ensures keys != [] && keys[|keys| - 1] == UpperOf(BucketOf(MaxOf(s)))
  {
    hide BucketOf;
    MaxBounds(s);
    var b := BucketOf(MaxOf(s));
    SampleCounted(s, MaxOf(s));
    assert UpperOf(b) in keys;
    var last := keys[|keys| - 1];
    assert last in keys;
    KeyBucket(hist, s, last);
    CountedSample(s, BucketOf(last));
    var v :| v in s && BucketOf(v) == BucketOf(last);
    BucketMono(v, MaxOf(s));
    var p :| 0 <= p < |keys| && keys[p] == UpperOf(b);
    assert UpperOf(b) <= last;
    if BucketOf(last) < b {
      UpperIncreases(BucketOf(last), b);
    }
  }

  // ---- summed dumps ----

  function Concat(ss: seq<seq<nat>>): seq<nat> {
    if ss == [] then [] else Concat(ss[..|ss| - 1]) + ss[|ss| - 1]
  }

  lemma {:induction false} TotalsAdd(dumps: seq<seq<(nat, nat)>>, ss: seq<seq<nat>>, i: nat)
    requires |dumps| == |ss| && i < NBUCKETS && forall k :: 0 <= k < |ss| ==> IsDump(dumps[k], ss[k])
    ensures TotalAt(dumps, UpperOf(i)) == CountIn(Concat(ss), i)
    decreases |ss|
  {
    hide UpperOf, BucketOf;
    if ss != [] {
      var n := |ss| - 1;
      TotalsAdd(dumps[..n], ss[..n], i);
      CountInConcat(Concat(ss[..n]), ss[n], i);
      assert IsDump(dumps[n], ss[n]);
    }
  }

  lemma {:induction false} TotalPositive(dumps: seq<seq<(nat, nat)>>, ss: seq<seq<nat>>, u: nat)
    requires |dumps| == |ss| && forall k :: 0 <= k < |ss| ==> IsDump(dumps[k], ss[k])
    ensures TotalAt(dumps, u) > 0 <==> AnyLists(dumps, u)
    decreases |ss|
  {
    hide UpperOf, BucketOf;
    if ss != [] {
      var n := |ss| - 1;
      TotalPositive(dumps[..n], ss[..n], u);
      AnyListsNext(dumps, n);
      assert dumps[..n + 1] == dumps && IsDump(dumps[n], ss[n]);
      if Lists(dumps[n], u) {
        var k :| 0 <= k < |dumps[n]| && dumps[n][k].0 == u;
        AtOnce(dumps[n], k);
      } else {
        AtNever(dumps[n], u);
      }
    }
  }

  /** The dictionary summed from dumps counts all their samples together. */
  lemma SummedDumpsHold(dumps: seq<seq<(nat, nat)>>, ss: seq<seq<nat>>, hist: map<nat, nat>)
    requires |dumps| == |ss| && forall k :: 0 <= k < |ss| ==> IsDump(dumps[k], ss[k])
    requires (forall u :: u in hist <==> AnyLists(dumps, u)) && forall u :: Get(hist, u) == TotalAt(dumps, u)
    ensures Holds(hist, Concat(ss))
  {
    hide UpperOf, BucketOf, CountIn;
    forall i | 0 <= i < NBUCKETS
      ensures (UpperOf(i) in hist <==> CountIn(Concat(ss), i) > 0) && Get(hist, UpperOf(i)) == CountIn(Concat(ss), i)
    {
      TotalsAdd(dumps, ss, i);
      TotalPositive(dumps, ss, UpperOf(i));
    }
    forall u | u in hist ensures IsBound(u) {
      var i :| 0 <= i < |dumps| && Lists(dumps[i], u);
      var k :| 0 <= k < |dumps[i]| && dumps[i][k].0 == u;
      assert IsDump(dumps[i], ss[i]);
    }
  }

  /** A group's quantile from the dumps of its runs is the one of all their samples. */
  method GroupQuantile(dumps: seq<seq<(nat, nat)>>, q: nat, ghost ss: seq<seq<nat>>) returns (r: real)
    requires |dumps| == |ss| && forall k :: 0 <= k < |ss| ==> IsDump(dumps[k], ss[k])
    ensures Concat(ss) == [] ==> r == 0.0
    ensures var rank := if q < 1 then 1 else q;
      forall x :: IsRank(Concat(ss), rank, x) ==> r == UpperOf(BucketOf(x)) as real / 1000.0
    ensures var rank := if q < 1 then 1 else q;
      rank <= |Concat(ss)| <==> exists x :: IsRank(Concat(ss), rank, x)
    ensures q > |Concat(ss)| > 0 ==> r == UpperOf(BucketOf(MaxOf(Concat(ss)))) as real / 1000.0
  {
    hide UpperOf, BucketOf;
    var hist := Aggregate(dumps);
    SummedDumpsHold(dumps, ss, hist);
    r := Quantile(hist, q, Concat(ss));
  }
}
