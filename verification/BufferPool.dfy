/** The refcounted buffer slabs: per-class freelists with a warm and a paged-out run, and
    the pool over the three classes. */
module BufferPools {
  import opened Words
  import opened BufferRefs

  /** Free slots per class that keep their pages when released. */
  const RESIDENT_FREE_SLOTS: nat := 256

  /** One 2 MiB region as the allocator returned it. */
  datatype Region = Region(ptr: nat, registered: bool, largePages: bool, freshHeld: bool) {
    predicate Pageable() {
      !registered && !largePages
    }
  }

  /** The freelist is every slot without references, once: first the paged-out ones, then
      the `resident` resident ones. Slots in use are never paged out. */
  ghost predicate FreeRuns(refcounts: seq<u32>, pagedOut: seq<bool>, freelist: seq<u32>, resident: nat) {
    && |pagedOut| == |refcounts| <= TWO32
    && resident <= |freelist|
    && (forall k :: 0 <= k < |freelist| ==> freelist[k] < |refcounts| && refcounts[freelist[k]] == 0)
    && (forall k :: 0 <= k < |freelist| ==> (pagedOut[freelist[k]] <==> k < |freelist| - resident))
    && (forall i: u32 :: i < |refcounts| && refcounts[i] == 0 ==> i in freelist)
    && (forall j, k :: 0 <= j < k < |freelist| ==> freelist[j] != freelist[k])
    && (forall i :: 0 <= i < |refcounts| && refcounts[i] > 0 ==> !pagedOut[i])
  }

  function Fill(n: nat, b: bool): (f: seq<bool>)
    ensures |f| == n && forall i :: 0 <= i < n ==> f[i] == b
  {
    seq(n, _ => b)
  }

  lemma RunsTake(refcounts: seq<u32>, pagedOut: seq<bool>, freelist: seq<u32>, resident: nat)
    requires FreeRuns(refcounts, pagedOut, freelist, resident) && freelist != []
    ensures var index := freelist[|freelist| - 1];
      && index < |refcounts| == |pagedOut| && refcounts[index] == 0
      && (pagedOut[index] <==> resident == 0) && resident <= |freelist|
      && FreeRuns(refcounts[index := 1], pagedOut[index := false], freelist[..|freelist| - 1],
                  if resident == 0 then 0 else resident - 1)
  {
    var index, rest := freelist[|freelist| - 1], freelist[..|freelist| - 1];
    var rc := refcounts[index := 1];
    forall i: u32 | i < |rc| && rc[i] == 0 ensures i in rest {
      assert i in freelist && i != index;
    }
  }

  /** A slot's last reference gone, it joins either run. */
  lemma RunsFree(refcounts: seq<u32>, pagedOut: seq<bool>, freelist: seq<u32>, resident: nat, index: u32)
    requires FreeRuns(refcounts, pagedOut, freelist, resident) && index < |refcounts| && refcounts[index] > 0
    ensures |pagedOut| == |refcounts| && !pagedOut[index]
    ensures FreeRuns(refcounts[index := 0], pagedOut, freelist + [index], resident + 1)
    ensures FreeRuns(refcounts[index := 0], pagedOut[index := true], [index] + freelist, resident)
  {
    RunsFreeWarm(refcounts, pagedOut, freelist, resident, index);
    RunsFreeCold(refcounts, pagedOut, freelist, resident, index);
  }

  lemma RunsFreeWarm(refcounts: seq<u32>, pagedOut: seq<bool>, freelist: seq<u32>, resident: nat, index: u32)
    requires FreeRuns(refcounts, pagedOut, freelist, resident) && index < |refcounts| && refcounts[index] > 0
    ensures FreeRuns(refcounts[index := 0], pagedOut, freelist + [index], resident + 1)
  {
    var rc, all := refcounts[index := 0], freelist + [index];
    assert all[|freelist|] == index;
    forall i: u32 | i < |rc| && rc[i] == 0 ensures i in all {
      assert i == index || i in freelist;
    }
  }

  lemma RunsFreeCold(refcounts: seq<u32>, pagedOut: seq<bool>, freelist: seq<u32>, resident: nat, index: u32)
    requires FreeRuns(refcounts, pagedOut, freelist, resident) && index < |refcounts| && refcounts[index] > 0
    ensures FreeRuns(refcounts[index := 0], pagedOut[index := true], [index] + freelist, resident)
  {
    var rc, all := refcounts[index := 0], [index] + freelist;
    forall i: u32 | i < |rc| && rc[i] == 0 ensures i in all {
      assert i == index || i in freelist;
    }
    forall j, k | 0 <= j < k < |all| ensures all[j] != all[k] {
      assert all[k] == freelist[k - 1];
    }
    forall k | 0 < k < |all| ensures all[k] == freelist[k - 1] {
    }
  }

  lemma RunsLengths(refcounts: seq<u32>, pagedOut: seq<bool>, freelist: seq<u32>, resident: nat)
    requires FreeRuns(refcounts, pagedOut, freelist, resident)
    ensures |pagedOut| == |refcounts| <= TWO32 && resident <= |freelist|
  {
  }

  /** Any count but zero keeps a used slot used; at zero it would be neither used nor free. */
  lemma RunsCount(refcounts: seq<u32>, pagedOut: seq<bool>, freelist: seq<u32>, resident: nat, index: u32, rc: u32)
    requires FreeRuns(refcounts, pagedOut, freelist, resident)
    requires index < |refcounts| && refcounts[index] > 0
    ensures index !in freelist
    ensures FreeRuns(refcounts[index := rc], pagedOut, freelist, resident) <==> rc > 0
  {
  }

  lemma RunsGrow(refcounts: seq<u32>, pagedOut: seq<bool>, freelist: seq<u32>, resident: nat,
                 added: seq<u32>, held: bool)
    requires FreeRuns(refcounts, pagedOut, freelist, resident) && freelist == [] && |refcounts| + |added| <= TWO32
    requires Descending(added, |refcounts|)
    ensures FreeRuns(refcounts + Zeros(|added|), pagedOut + Fill(|added|, !held), added, if held then |added| else 0)
  {
    var rc := refcounts + Zeros(|added|);
    forall i: u32 | i < |rc| && rc[i] == 0 ensures i in added {
      assert i !in freelist;
      assert added[|refcounts| + |added| - 1 - i] == i;
    }
  }

  /** `live` names exactly the slots with references, by their current id. */
  ghost predicate Names(live: map<SlotId, nat>, c: SizeClass, refcounts: seq<u32>, generations: seq<u32>) {
    && |generations| == |refcounts|
    && (forall id :: id in live ==> LiveId(id, c, refcounts, generations) && live[id] == refcounts[id.index])
    && (forall i: u32 :: i < |refcounts| && refcounts[i] > 0 ==> SlotId(c, i, generations[i]) in live)
  }

  predicate LiveId(id: SlotId, c: SizeClass, refcounts: seq<u32>, generations: seq<u32>)
    requires |generations| == |refcounts|
  {
    id.class_ == c && id.index < |refcounts| && refcounts[id.index] > 0 && generations[id.index] == id.generation
  }

  lemma NamesTake(live: map<SlotId, nat>, c: SizeClass, refcounts: seq<u32>, generations: seq<u32>, index: u32)
    requires Names(live, c, refcounts, generations) && index < |refcounts| && refcounts[index] == 0
    ensures var id := SlotId(c, index, generations[index]);
      && |generations| == |refcounts| && id !in live && Unheld(Refs(live, generations, 0), index)
      && Names(live[id := 1], c, refcounts[index := 1], generations) && |live[id := 1]| == |live| + 1
  {
  }

  lemma NamesCount(live: map<SlotId, nat>, c: SizeClass, refcounts: seq<u32>, generations: seq<u32>, id: SlotId, n: u32)
    requires Names(live, c, refcounts, generations) && id in live
    ensures n > 0 ==> Names(live[id := n], c, refcounts[id.index := n], generations) && |live[id := n]| == |live|
  {
    assert live[id := n].Keys == live.Keys;
  }

  lemma NamesFree(live: map<SlotId, nat>, c: SizeClass, refcounts: seq<u32>, generations: seq<u32>, id: SlotId, g: u32)
    requires Names(live, c, refcounts, generations) && id in live
    ensures Names(live - {id}, c, refcounts[id.index := 0], generations[id.index := g]) && |live - {id}| == |live| - 1
  {
    assert (live - {id}).Keys == live.Keys - {id};
  }

  lemma NamesGrow(live: map<SlotId, nat>, c: SizeClass, refcounts: seq<u32>, generations: seq<u32>, n: nat)
    requires Names(live, c, refcounts, generations)
    ensures Names(live, c, refcounts + Zeros(n), generations + Zeros(n))
  {
  }

  /** An id is live just when the pool's own bounds, count and generation test says so. */
  lemma NamesLive(live: map<SlotId, nat>, c: SizeClass, refcounts: seq<u32>, generations: seq<u32>, id: SlotId)
    requires Names(live, c, refcounts, generations) && id.class_ == c
    ensures |generations| == |refcounts|
    ensures LiveId(id, c, refcounts, generations) <==> id in live
    ensures id in live ==> live[id] == refcounts[id.index]
  {
  }

  lemma NamesIndex(live: map<SlotId, nat>, c: SizeClass, refcounts: seq<u32>, generations: seq<u32>, id: SlotId)
    requires Names(live, c, refcounts, generations) && id in live
    ensures id.class_ == c && id.index < |refcounts| == |generations|
    ensures live[id] == refcounts[id.index] && generations[id.index] == id.generation
  {
  }

  /** The OS has given the memory of exactly the slots that are not paged out. */
  ghost predicate Backed(committed: set<nat>, pagedOut: seq<bool>) {
    forall i: nat :: i in committed <==> i < |pagedOut| && !pagedOut[i]
  }

  lemma BackedIn(committed: set<nat>, pagedOut: seq<bool>, i: nat)
    requires Backed(committed, pagedOut) && i < |pagedOut|
    ensures i in committed <==> !pagedOut[i]
    ensures Backed(committed + {i}, pagedOut[i := false])
    ensures Backed(committed - {i}, pagedOut[i := true])
    ensures i !in committed ==> |committed + {i}| == |committed| + 1
    ensures i in committed ==> committed + {i} == committed && |committed - {i}| == |committed| - 1
  {
  }

  ghost function Joined(committed: set<nat>, base: nat, n: nat, held: bool): set<nat> {
    if held then committed + Range(base, base + n) else committed
  }

  lemma JoinedIs(committed: set<nat>, base: nat, n: nat, held: bool)
    ensures forall i: nat :: i in Joined(committed, base, n, held) <==>
      i in committed || (held && base <= i < base + n)
  {
  }

  lemma BackedGrow(committed: set<nat>, pagedOut: seq<bool>, n: nat, held: bool)
    requires Backed(committed, pagedOut)
    ensures Backed(Joined(committed, |pagedOut|, n, held), pagedOut + Fill(n, !held))
    ensures |Joined(committed, |pagedOut|, n, held)| == |committed| + if held then n else 0
  {
    var added := if held then Range(|pagedOut|, |pagedOut| + n) else {};
    assert committed !! added;
  }

  /** The numbers from `len` on, highest first. */
  ghost predicate Descending(s: seq<u32>, len: nat) {
    forall k :: 0 <= k < |s| ==> s[k] == len + |s| - 1 - k
  }

  /** The indices of a region added after `len` slots, highest first, truncated to 32 bits. */
  method NewIndices(len: nat, n: nat) returns (freelist: seq<u32>)
    requires Blocks(len, n)
    ensures |freelist| == n && Last(freelist) == Wrap32(len)
    ensures len < TWO32 ==> Descending(freelist, len)
  {
    FreshIndicesExact(len, n);
    freelist := [];
    var i := n;
    while i > 0
      invariant 0 <= i <= n && |freelist| == n - i
      invariant forall k :: 0 <= k < |freelist| ==> freelist[k] == FreshIndex(len, n, n - 1 - k)
    {
      i := i - 1;
      freelist := freelist + [FreshIndex(len, n, i)];
    }
  }

  /** A class's slots, as its arrays hold them. */
  datatype Slots = Slots(refcounts: seq<u32>, generations: seq<u32>, pagedOut: seq<bool>, freelist: seq<u32>,
                         resident: nat, live: map<SlotId, nat>, committed: set<nat>)

  ghost predicate Sane(c: SizeClass, x: Slots) {
    && FreeRuns(x.refcounts, x.pagedOut, x.freelist, x.resident)
    && Names(x.live, c, x.refcounts, x.generations)
    && Backed(x.committed, x.pagedOut)
    && |x.committed| == |x.live| + x.resident && |x.live| + |x.freelist| == |x.refcounts|
  }

  lemma SaneLengths(c: SizeClass, x: Slots)
    requires Sane(c, x)
    ensures |x.generations| == |x.refcounts| == |x.pagedOut| <= TWO32 && x.resident <= |x.freelist|
    ensures |x.live| + |x.freelist| == |x.refcounts|
  {
  }

  predicate CanTake(x: Slots) {
    x.freelist != [] && Last(x.freelist) < |x.refcounts| == |x.generations| == |x.pagedOut|
  }

  /** The id the freelist's last slot is handed out under. */
  function NextId(c: SizeClass, x: Slots): SlotId
    requires CanTake(x)
  {
    var index := Last(x.freelist);
    SlotId(c, index, x.generations[index])
  }

  /** `usize` subtraction of one, as a release build does it. */
  function Less1(n: nat): nat {
    if n == 0 then TWO32 * TWO32 - 1 else n - 1
  }

  /** The slots after handing that one out. */
  function Taken(c: SizeClass, x: Slots): Slots
    requires CanTake(x)
  {
    var id := NextId(c, x);
    var paged := x.pagedOut[id.index];
    Slots(x.refcounts[id.index := 1], x.generations, x.pagedOut[id.index := false], x.freelist[..|x.freelist| - 1],
          if paged then x.resident else Less1(x.resident), x.live[id := 1],
          if paged then x.committed + {id.index as nat} else x.committed)
  }

  lemma TakenRuns(c: SizeClass, x: Slots)
    requires FreeRuns(x.refcounts, x.pagedOut, x.freelist, x.resident) && x.freelist != []
    requires |x.generations| == |x.refcounts|
    ensures CanTake(x) && x.refcounts[Last(x.freelist)] == 0 && (x.pagedOut[Last(x.freelist)] <==> x.resident == 0)
    ensures var y := Taken(c, x);
      && FreeRuns(y.refcounts, y.pagedOut, y.freelist, y.resident)
      && y.resident == if x.resident > 0 then x.resident - 1 else 0
  {
    RunsTake(x.refcounts, x.pagedOut, x.freelist, x.resident);
    hide FreeRuns;
  }

  lemma TakenBacked(c: SizeClass, x: Slots)
    requires Backed(x.committed, x.pagedOut) && CanTake(x)
    ensures var i, y := Last(x.freelist), Taken(c, x);
      && Backed(y.committed, y.pagedOut) && y.committed == x.committed + {i as nat}
      && (i in x.committed <==> !x.pagedOut[i])
      && |y.committed| == |x.committed| + if x.pagedOut[i] then 1 else 0
  {
    BackedIn(x.committed, x.pagedOut, Last(x.freelist));
    hide Backed;
    if !x.pagedOut[Last(x.freelist)] {
      assert x.pagedOut == x.pagedOut[Last(x.freelist) := false];
    }
  }

  lemma TakenKeeps(c: SizeClass, x: Slots, stale: nat)
    requires Sane(c, x) && x.freelist != []
    ensures CanTake(x) && Sane(c, Taken(c, x))
    ensures var id, y := NextId(c, x), Taken(c, x);
      && id !in x.live && Unheld(Refs(x.live, x.generations, stale), id.index)
      && |y.live| == |x.live| + 1 && y.committed == x.committed + {id.index as nat}
      && (id.index in x.committed <==> x.resident > 0)
      && y.resident == if x.resident > 0 then x.resident - 1 else 0
  {
    RunsLengths(x.refcounts, x.pagedOut, x.freelist, x.resident);
    NamesLengths(x.live, c, x.refcounts, x.generations);
    TakenRuns(c, x);
    NamesTake(x.live, c, x.refcounts, x.generations, Last(x.freelist));
    TakenBacked(c, x);
    hide FreeRuns, Names, Backed, Unheld;
  }

  lemma NamesLengths(live: map<SlotId, nat>, c: SizeClass, refcounts: seq<u32>, generations: seq<u32>)
    requires Names(live, c, refcounts, generations)
    ensures |generations| == |refcounts|
  {
  }

  lemma TakenIsStep(c: SizeClass, x: Slots, stale: nat)
    requires CanTake(x) && Unheld(Refs(x.live, x.generations, stale), Last(x.freelist))
    ensures StepBy(Refs(x.live, x.generations, stale), Event.Acquire(NextId(c, x)), 0,
                   Refs(Taken(c, x).live, x.generations, stale))
  {
    assert x.generations + Zeros(0) == x.generations;
  }

  /** The slots after the last reference through `id` is gone: its ids go stale, and its pages
      go back to the OS if it is to be cold. */
  function Freed(x: Slots, id: SlotId, cold: bool): Slots
    requires id.index < |x.refcounts| == |x.generations| == |x.pagedOut|
  {
    var i := id.index;
    Slots(x.refcounts[i := 0], x.generations[i := Next32(x.generations[i])],
          if cold then x.pagedOut[i := true] else x.pagedOut, if cold then [i] + x.freelist else x.freelist + [i],
          if cold then x.resident else x.resident + 1, x.live - {id},
          if cold then x.committed - {i as nat} else x.committed)
  }

  lemma FreedRuns(x: Slots, id: SlotId, cold: bool)
    requires FreeRuns(x.refcounts, x.pagedOut, x.freelist, x.resident)
    requires id.index < |x.refcounts| == |x.generations| == |x.pagedOut| && x.refcounts[id.index] > 0
    ensures !x.pagedOut[id.index]
    ensures var y := Freed(x, id, cold); FreeRuns(y.refcounts, y.pagedOut, y.freelist, y.resident)
  {
    RunsFree(x.refcounts, x.pagedOut, x.freelist, x.resident, id.index);
    hide FreeRuns, Next32;
  }

  lemma FreedNames(c: SizeClass, x: Slots, id: SlotId, cold: bool)
    requires Names(x.live, c, x.refcounts, x.generations) && id in x.live
    requires id.index < |x.refcounts| == |x.generations| == |x.pagedOut|
    ensures var y := Freed(x, id, cold); Names(y.live, c, y.refcounts, y.generations) && |y.live| == |x.live| - 1
  {
    NamesFree(x.live, c, x.refcounts, x.generations, id, Next32(x.generations[id.index]));
    hide Names, Next32;
  }

  lemma FreedBacked(x: Slots, id: SlotId, cold: bool)
    requires Backed(x.committed, x.pagedOut)
    requires id.index < |x.refcounts| == |x.generations| == |x.pagedOut| && !x.pagedOut[id.index]
    ensures var y := Freed(x, id, cold);
      Backed(y.committed, y.pagedOut) && |y.committed| == |x.committed| - if cold then 1 else 0
  {
    BackedIn(x.committed, x.pagedOut, id.index);
    hide Backed, Next32;
  }

  lemma FreedKeeps(c: SizeClass, x: Slots, id: SlotId, cold: bool)
    requires Sane(c, x) && id in x.live && x.live[id] == 1
    ensures id.index < |x.refcounts| == |x.generations| == |x.pagedOut| && x.refcounts[id.index] == 1
    ensures Sane(c, Freed(x, id, cold)) && |Freed(x, id, cold).live| == |x.live| - 1
  {
    SaneLengths(c, x);
    NamesIndex(x.live, c, x.refcounts, x.generations, id);
    FreedRuns(x, id, cold);
    FreedNames(c, x, id, cold);
    FreedBacked(x, id, cold);
    hide FreeRuns, Names, Backed, Next32;
  }

  lemma UsedIsBacked(c: SizeClass, x: Slots, id: SlotId)
    requires Sane(c, x) && id in x.live
    ensures id.index in x.committed && id.index < |x.refcounts| == |x.generations| == |x.pagedOut|
  {
    SaneLengths(c, x);
    NamesIndex(x.live, c, x.refcounts, x.generations, id);
  }

  /** The k-th of some slots freed one after another, in regions that can be paged and with the
      OS agreeing: it goes cold just when 256 free slots are resident already. */
  ghost predicate AgreedRelease(c: SizeClass, xs: seq<Slots>, ids: seq<SlotId>, k: nat)
    requires k < |ids| < |xs|
  {
    && Sane(c, xs[k]) && ids[k] in xs[k].live && ids[k].index < |xs[k].refcounts|
    && |xs[k].refcounts| == |xs[k].generations| == |xs[k].pagedOut|
    && xs[k + 1] == Freed(xs[k], ids[k], xs[k].resident >= 256)
  }

  /** Then the resident free slots never outgrow the budget, or what they were, and no pages
      go back while there are fewer. */
  lemma {:induction false} WarmBudget(c: SizeClass, xs: seq<Slots>, ids: seq<SlotId>, k: nat)
    requires |xs| == |ids| + 1 && k <= |ids| && forall j :: 0 <= j < |ids| ==> AgreedRelease(c, xs, ids, j)
    ensures xs[k].resident <= if xs[0].resident > 256 then xs[0].resident else 256
    ensures k < |ids| && xs[k].resident < 256 ==>
      xs[k + 1].committed == xs[k].committed && xs[k + 1].resident == xs[k].resident + 1
    ensures k < |ids| && xs[k].resident >= 256 ==>
      ids[k].index !in xs[k + 1].committed && xs[k + 1].resident == xs[k].resident
  {
    assert k < |ids| ==> AgreedRelease(c, xs, ids, k);
    if k > 0 {
      assert AgreedRelease(c, xs, ids, k - 1);
      WarmBudget(c, xs, ids, k - 1);
    }
  }

  lemma FreedIsStep(x: Slots, id: SlotId, cold: bool, stale: nat)
    requires id.index < |x.refcounts| == |x.generations| == |x.pagedOut| && id in x.live && x.live[id] == 1
    ensures var y := Freed(x, id, cold);
      StepBy(Refs(x.live, x.generations, stale), Event.Release(id, true), 0, Refs(y.live, y.generations, stale))
  {
    hide Next32;
  }

  /** The slots after a region of `n` more was added. */
  ghost function Grown(x: Slots, n: nat, held: bool, indices: seq<u32>): Slots {
    Slots(x.refcounts + Zeros(n), x.generations + Zeros(n), x.pagedOut + Fill(n, !held), indices,
          x.resident + if held then n else 0, x.live, Joined(x.committed, |x.refcounts|, n, held))
  }

  lemma GrownIsSane(c: SizeClass, x: Slots, n: nat, held: bool, indices: seq<u32>)
    requires Sane(c, x) && x.freelist == [] && |indices| == n > 0
    requires |x.refcounts| + n <= TWO32 && Descending(indices, |x.refcounts|)
    ensures Sane(c, Grown(x, n, held, indices))
  {
    SaneLengths(c, x);
    GrownRuns(x, n, held, indices);
    NamesGrow(x.live, c, x.refcounts, x.generations, n);
    BackedGrow(x.committed, x.pagedOut, n, held);
    hide FreeRuns, Names, Backed, Joined, Descending;
  }

  lemma GrownRuns(x: Slots, n: nat, held: bool, indices: seq<u32>)
    requires FreeRuns(x.refcounts, x.pagedOut, x.freelist, x.resident) && x.freelist == [] && |indices| == n
    requires |x.refcounts| + n <= TWO32 && Descending(indices, |x.refcounts|)
    ensures var y := Grown(x, n, held, indices);
      FreeRuns(y.refcounts, y.pagedOut, y.freelist, y.resident)
  {
    RunsGrow(x.refcounts, x.pagedOut, x.freelist, x.resident, indices, held);
    RunsLengths(x.refcounts, x.pagedOut, x.freelist, x.resident);
    hide FreeRuns, Joined, Descending;
  }

  lemma GrownKeeps(c: SizeClass, x: Slots, n: nat, held: bool, indices: seq<u32>)
    requires Sane(c, x) && x.freelist == [] && |indices| == n > 0
    ensures |x.refcounts| == |x.generations| == |x.pagedOut| && x.resident == 0
    ensures |x.refcounts| + n <= TWO32 && Descending(indices, |x.refcounts|) ==> Sane(c, Grown(x, n, held, indices))
    ensures |x.refcounts| + n > TWO32 ==> !Sane(c, Grown(x, n, held, indices))
  {
    hide Sane, Joined, Descending;
    SaneLengths(c, x);
    var y := Grown(x, n, held, indices);
    if |x.refcounts| + n <= TWO32 {
      if Descending(indices, |x.refcounts|) {
        GrownIsSane(c, x, n, held, indices);
      }
    } else if Sane(c, y) {
      SaneLengths(c, y);
    }
  }

  /** Every slot of a class without free ones is held under its current id. */
  lemma AllHeld(c: SizeClass, x: Slots, i: u32)
    requires Sane(c, x) && x.freelist == [] && i < |x.refcounts|
    ensures |x.generations| == |x.refcounts| && SlotId(c, i, x.generations[i]) in x.live
  {
  }

  /** Acquiring from `pre`, which is what was there or that and a new region: a step while
      there is room, and otherwise slot 0 over again, under an id that is still live. */
  lemma AcquireFrom(c: SizeClass, was: Slots, pre: Slots, n: nat, held: bool, stale: nat)
    requires Sane(c, was) && n > 0
    requires was.freelist != [] ==> pre == was
    requires was.freelist == [] ==> pre == Grown(was, n, held, pre.freelist)
    requires was.freelist == [] ==> |pre.freelist| == n && Last(pre.freelist) == Wrap32(|was.refcounts|)
    requires was.freelist == [] && |was.refcounts| < TWO32 ==> Sane(c, pre)
    ensures CanTake(pre)
    ensures var id, y, room := NextId(c, pre), Taken(c, pre), was.freelist != [] || |was.refcounts| < TWO32;
      && (id in was.live <==> !room) && (Sane(c, y) <==> room)
      && |y.refcounts| == |was.refcounts| + (if was.freelist == [] then n else 0)
      && (room ==>
            && was.committed <= y.committed
            && StepBy(Refs(was.live, was.generations, stale), Event.Acquire(id), if was.freelist == [] then n else 0,
                      Refs(y.live, y.generations, stale))
            && |y.live| == |was.live| + 1 && y.committed == pre.committed + {id.index as nat}
            && (id.index in pre.committed <==> pre.resident > 0)
            && y.resident == if pre.resident > 0 then pre.resident - 1 else 0)
  {
    if was.freelist != [] || |was.refcounts| < TWO32 {
      TakenKeeps(c, pre, stale);
      TakenIsStep(c, pre, stale);
    } else {
      RunsLengths(was.refcounts, was.pagedOut, was.freelist, was.resident);
      AllHeld(c, was, 0);
    }
  }

  /** Slots carved out of `n` regions of a class. */
  function Capacity(n: nat, c: SizeClass): nat {
    n * c.PerRegion()
  }

  /** Whole regions, numbered below 2^32 as long as they start there. */
  lemma CapacityBlocks(n: nat, c: SizeClass)
    ensures Blocks(Capacity(n, c), c.PerRegion()) && Wrap32(Capacity(n, c)) + c.PerRegion() <= TWO32
    ensures Capacity(n + 1, c) == Capacity(n, c) + c.PerRegion()
  {
    assert match c case S4K => n * 512 % 512 == 0 case S16K => n * 128 % 128 == 0 case S64K => n * 32 % 32 == 0;
    BlockFits(Capacity(n, c), c.PerRegion());
  }

  lemma RegionIndex(n: nat, c: SizeClass, index: nat)
    requires index < Capacity(n, c)
    ensures index / c.PerRegion() < n
  {
  }

  /** Two stretches of memory share no byte. */
  predicate Separate(a: nat, aSize: nat, b: nat, bSize: nat) {
    a + aSize <= b || b + bSize <= a
  }

  ghost predicate RegionsApart(regions: seq<Region>) {
    forall i, j :: 0 <= i < j < |regions| ==> Separate(regions[i].ptr, REGION_SIZE, regions[j].ptr, REGION_SIZE)
  }

  class ClassPool {
    const cls: SizeClass
    /** Does `page_out` return memory on this platform? */
    const pagesOut: bool
    var regions: seq<Region>
    var freelist: seq<u32>
    var refcounts: seq<u32>
    var generations: seq<u32>
    var pagedOut: seq<bool>
    var residentFree: nat
    var staleRejections: nat
    var inUse: nat
    /** Live ids and their counts. */
    ghost var live: map<SlotId, nat>
    /** Slots whose memory the OS has given us. */
    ghost var committed: set<nat>

    ghost function Refs(): Refs
      reads this
    {
      BufferRefs.Refs(live, generations, staleRejections)
    }

    ghost predicate Valid()
      reads this
    {
      Sane(cls, Arrays()) && |live| == inUse && |refcounts| == Capacity(|regions|, cls) && RegionsApart(regions)
    }

    constructor (c: SizeClass, pagesOut: bool)
      ensures Valid() && Refs() == BufferRefs.Refs(map[], [], 0)
      ensures cls == c && this.pagesOut == pagesOut && regions == []
    {
      cls, this.pagesOut := c, pagesOut;
      regions, freelist, refcounts, generations, pagedOut := [], [], [], [], [];
      residentFree, staleRejections, inUse := 0, 0, 0;
      live, committed := map[], {};
    }

    /** The region's address is apart from the others. */
    ghost predicate Placed(region: Region)
      reads this
    {
      forall i :: 0 <= i < |regions| ==> Separate(regions[i].ptr, REGION_SIZE, region.ptr, REGION_SIZE)
    }

    /** A free slot, or one that a new region can still number. */
    ghost predicate HasRoom()
      reads this
    {
      freelist != [] || |refcounts| < TWO32
    }

    ghost function Arrays(): Slots
      reads this
    {
      Slots(refcounts, generations, pagedOut, freelist, residentFree, live, committed)
    }

    method AddRegion(region: Region)
      requires Valid() && freelist == [] && Placed(region)
      modifies this
      ensures regions == old(regions) + [region]
      ensures Arrays() == Grown(old(Arrays()), cls.PerRegion(), region.freshHeld, freelist)
      ensures |freelist| == cls.PerRegion() && Last(freelist) == Wrap32(|old(refcounts)|)
      ensures residentFree == if region.freshHeld then |freelist| else 0
      ensures |pagedOut| == |refcounts| == |old(refcounts)| + |freelist|
      ensures forall i :: |old(refcounts)| <= i < |pagedOut| ==> (pagedOut[i] <==> !region.freshHeld)
      ensures forall i: nat :: i in committed <==>
        i in old(committed) || (region.freshHeld && |old(refcounts)| <= i < |refcounts|)
      ensures |old(refcounts)| < TWO32 ==>
        forall k :: 0 <= k < |freelist| ==> freelist[k] == |old(refcounts)| + |freelist| - 1 - k
      ensures staleRejections == old(staleRejections) && inUse == old(inUse)
      ensures Valid() <==> |old(refcounts)| < TWO32
      ensures |refcounts| == Capacity(|regions|, cls) && RegionsApart(regions)
    {
      hide Sane, RegionsApart, Placed, Range, Joined, Capacity;
      var n, held := cls.PerRegion(), region.freshHeld;
      RegionsGrow(region);
      var base := Capacity(|regions|, cls);
      var indices := NewIndices(base, n);
      GrownKeeps(cls, Arrays(), n, held, indices);
      JoinedIs(committed, base, n, held);
      regions := regions + [region];
      refcounts := refcounts + Zeros(n);
      generations := generations + Zeros(n);
      pagedOut := pagedOut + Fill(n, !held);
      if held {
        residentFree := residentFree + n;
      }
      committed := Joined(committed, base, n, held);
      freelist := indices;
    }

    lemma RegionsGrow(region: Region)
      requires Valid() && Placed(region)
      ensures Blocks(|refcounts|, cls.PerRegion()) && Wrap32(|refcounts|) + cls.PerRegion() <= TWO32
      ensures Capacity(|regions + [region]|, cls) == |refcounts| + cls.PerRegion()
      ensures RegionsApart(regions + [region])
    {
      CapacityBlocks(|regions|, cls);
      hide Capacity, Names, FreeRuns, Backed, Blocks;
    }

    /** A slot with one reference: a resident one while there is any. `supplied` is the region
        the allocator would supply; it is used only when nothing is free. A class of 2^32
        slots in use has no number left for another, and hands out an id that is live. */
    method Acquire(supplied: Region) returns (id: SlotId)
      requires Valid() && (freelist == [] ==> Placed(supplied))
      modifies this
      ensures Valid() <==> old(HasRoom())
      ensures id in old(live) <==> !old(HasRoom())
      ensures id.class_ == cls && inUse == old(inUse) + 1
      ensures regions == if old(freelist) == [] then old(regions) + [supplied] else old(regions)
      ensures old(freelist) != [] ==> id.index == Last(old(freelist))
      ensures old(HasRoom()) ==>
        StepBy(old(Refs()), Event.Acquire(id), if old(freelist) == [] then cls.PerRegion() else 0, Refs())
      ensures old(HasRoom()) ==> id.index in committed && old(committed) <= committed
      ensures old(residentFree) > 0 ==>
        id.index in old(committed) && committed == old(committed) && residentFree == old(residentFree) - 1
      ensures old(residentFree) == 0 && old(freelist) != [] ==>
        id.index !in old(committed) && committed == old(committed) + {id.index as nat} && residentFree == 0
    {
      hide Sane, RegionsApart, Joined, StepBy, Capacity;
      ghost var was := Arrays();
      SaneLengths(cls, was);
      if freelist == [] {
        AddRegion(supplied);
      }
      AcquireFrom(cls, was, Arrays(), cls.PerRegion(), supplied.freshHeld, staleRejections);
      id := TakeFree();
    }

    method TakeFree() returns (id: SlotId)
      requires CanTake(Arrays())
      modifies this`freelist, this`pagedOut, this`residentFree, this`refcounts, this`inUse, this`live, this`committed
      ensures id == NextId(cls, old(Arrays())) && Arrays() == Taken(cls, old(Arrays()))
      ensures inUse == old(inUse) + 1
    {
      var index := Last(freelist);
      id := SlotId(cls, index, generations[index]);
      freelist := freelist[..|freelist| - 1];
      if pagedOut[index] {
        pagedOut := pagedOut[index := false];
        committed := committed + {index as nat};  // page_in
      } else {
        assert pagedOut == pagedOut[index := false];
        residentFree := Less1(residentFree);
      }
      refcounts := refcounts[index := 1];
      inUse := inUse + 1;
      live := live[id := 1];
    }

    predicate Live(id: SlotId)
      requires |generations| == |refcounts|
      reads this
    {
      id.index < |refcounts| && refcounts[id.index] > 0 && generations[id.index] == id.generation
    }

    /** Would one more reference through this id be its 2^32nd? */
    ghost predicate Saturated(id: SlotId)
      reads this
    {
      id in live && live[id] + 1 == TWO32
    }

    /** One more reference to a live slot. The 2^32nd wraps the count to zero: the id goes
        stale under its holders, and its slot is neither live nor free. */
    method Retain(id: SlotId)
      requires Valid() && id.class_ == cls
      modifies this`refcounts, this`staleRejections, this`live
      ensures Valid() <==> !old(Saturated(id))
      ensures !old(Saturated(id)) ==> StepBy(old(Refs()), Event.Retain(id), 0, Refs())
      ensures old(Saturated(id)) ==> |generations| == |refcounts| && !Live(id) && id.index !in freelist
    {
      hide FreeRuns, Names, Backed, RegionsApart, Capacity;
      NamesLive(live, cls, refcounts, generations, id);
      if !Live(id) {
        staleRejections := staleRejections + 1;
        return;
      }
      var held: nat := refcounts[id.index];
      var count := Wrap32(held + 1);
      RunsCount(refcounts, pagedOut, freelist, residentFree, id.index, count);
      NamesCount(live, cls, refcounts, generations, id, count);
      refcounts := refcounts[id.index := count];
      live := live[id := live[id] + 1];
    }

    /** One reference less; true exactly when it was the last. `pageOutOk` is what the OS
        would answer if asked to take the pages back. */
    method Release(id: SlotId, pageOutOk: bool) returns (freed: bool)
      requires Valid() && id.class_ == cls
      modifies this
      ensures Valid() && StepBy(old(Refs()), Event.Release(id, freed), 0, Refs())
      ensures regions == old(regions) && inUse == if freed then old(inUse) - 1 else old(inUse)
      ensures !freed ==> freelist == old(freelist) && committed == old(committed) && residentFree == old(residentFree)
      ensures freed ==> id.index < |old(refcounts)| == Capacity(|regions|, cls) && id.index in old(committed)
      ensures freed ==>
        var region := old(RegionOf(id.index));
        id.index !in committed <==>
          pagesOut && pageOutOk && old(residentFree) >= 256 && !region.registered && !region.largePages
      ensures freed ==>
        var cold := id.index !in committed;
        && freelist == (if cold then [id.index] + old(freelist) else old(freelist) + [id.index])
        && committed == (if cold then old(committed) - {id.index as nat} else old(committed))
        && residentFree == (if cold then old(residentFree) else old(residentFree) + 1)
        && Arrays() == Freed(old(Arrays()), id, cold)
    {
      hide FreeRuns, Names, Backed, RegionsApart, Capacity;
      NamesLive(live, cls, refcounts, generations, id);
      if !Live(id) {
        staleRejections := staleRejections + 1;
        return false;
      }
      var index := id.index;
      if refcounts[index] - 1 != 0 {
        RunsCount(refcounts, pagedOut, freelist, residentFree, index, refcounts[index] - 1);
        NamesCount(live, cls, refcounts, generations, id, refcounts[index] - 1);
        refcounts := refcounts[index := refcounts[index] - 1];
        live := live[id := live[id] - 1];
        return false;
      }
      ghost var was := Arrays();
      UsedIsBacked(cls, was, id);
      ghost var cold := FreeLast(id, pageOutOk);
      FreedKeeps(cls, was, id, cold);
      FreedIsStep(was, id, cold, staleRejections);
      freed := true;
    }

    /** A slot loses its last reference: its ids go stale, and it stays warm or is paged out. */
    method FreeLast(id: SlotId, pageOutOk: bool) returns (ghost cold: bool)
      requires id.index < |refcounts| == |generations| == |pagedOut| && refcounts[id.index] == 1 && inUse > 0
      requires |refcounts| == Capacity(|regions|, cls)
      modifies this`refcounts, this`generations, this`inUse, this`live
      modifies this`pagedOut, this`committed, this`freelist, this`residentFree
      ensures Arrays() == Freed(old(Arrays()), id, cold)
      ensures var region := old(RegionOf(id.index));
        cold <==> pagesOut && pageOutOk && old(residentFree) >= 256 && !region.registered && !region.largePages
      ensures inUse == old(inUse) - 1
    {
      var index, region := id.index, RegionOf(id.index);
      refcounts := refcounts[index := refcounts[index] - 1];
      generations := generations[index := Next32(generations[index])];
      inUse := inUse - 1;
      live := live - {id};
      cold := false;
      if pagesOut && residentFree >= RESIDENT_FREE_SLOTS && region.Pageable() && pageOutOk {
        cold := true;
        pagedOut := pagedOut[index := true];
        committed := committed - {index as nat};
        freelist := [index] + freelist;
      } else {
        residentFree := residentFree + 1;
        freelist := freelist + [index];
      }
    }

    /** A region holds 2 MiB of slots. */
    function RegionOf(index: u32): (r: Region)
      requires |refcounts| == Capacity(|regions|, cls) && index < |refcounts|
      reads this
      ensures var i := index / (0x20_0000 / cls.Size()); i < |regions| && r == regions[i]
    {
      RegionIndex(|regions|, cls, index);
      regions[index / cls.PerRegion()]
    }

    /** `register_buffers` fills a region's cookie: the kernel holds its pages from now on, and
        no slot of it is paged out any more. */
    method Register(r: nat)
      requires Valid() && r < |regions|
      modifies this`regions
      ensures Valid() && |regions| == |old(regions)| && regions[r] == old(regions)[r].(registered := true)
      ensures !regions[r].Pageable()
      ensures forall k :: 0 <= k < |regions| && k != r ==> regions[k] == old(regions)[k]
    {
      regions := regions[r := regions[r].(registered := true)];
    }

    /** The pool's references to a slot, zero for a stale id. */
    function Refcount(id: SlotId): (n: nat)
      requires Valid() && id.class_ == cls
      reads this
      ensures n == if id in live then live[id] else 0
    {
      if Live(id) then refcounts[id.index] else 0
    }

    /** The memory of a slot: region start plus its offset in the region. */
    function SlotPtr(index: u32): nat
      requires |refcounts| == Capacity(|regions|, cls) && index < |refcounts|
      reads this
    {
      RegionOf(index).ptr + index % cls.PerRegion() * cls.Size()
    }

    /** Slot j of region r starts j slot sizes into it. */
    lemma SlotPtrIs(r: nat, j: nat)
      requires Valid() && r < |regions|
      requires j * cls.Size() < 0x20_0000
      ensures cls.PerRegion() == 0x20_0000 / cls.Size() && r * cls.PerRegion() + j < |refcounts|
      ensures SlotPtr(r * cls.PerRegion() + j) == regions[r].ptr + j * cls.Size()
    {
      assert match cls case S4K => j < 512 case S16K => j < 128 case S64K => j < 32;
      var i := r * cls.PerRegion() + j;
      assert i < |refcounts| by {
        MulMono(r + 1, |regions|, cls.PerRegion());
        MulNext(r, cls.PerRegion());
      }
      assert i / cls.PerRegion() == r && i % cls.PerRegion() == j;
    }

    /** Two different slots never share a byte. */
    lemma SlotsApart(a: u32, b: u32)
      requires Valid() && a < |refcounts| && b < |refcounts| && a != b
      ensures Separate(SlotPtr(a), cls.Size(), SlotPtr(b), cls.Size())
    {
      var per := cls.PerRegion();
      var x, y := a / per, b / per;
      OffsetInRegion(cls, a % per);
      OffsetInRegion(cls, b % per);
      if x == y {
        assert a % per != b % per;
        OffsetsApart(cls, a % per, b % per);
      } else if x < y {
        assert Separate(regions[x].ptr, REGION_SIZE, regions[y].ptr, REGION_SIZE);
      } else {
        assert Separate(regions[y].ptr, REGION_SIZE, regions[x].ptr, REGION_SIZE);
      }
    }

    /** A slot lies within its region. */
    lemma InRegion(index: u32)
      requires Valid() && index < |refcounts|
      ensures index / cls.PerRegion() < |regions|
      ensures var start := regions[index / cls.PerRegion()].ptr;
        start <= SlotPtr(index) && SlotPtr(index) + cls.Size() <= start + REGION_SIZE
    {
      RegionIndex(|regions|, cls, index);
      OffsetInRegion(cls, index % cls.PerRegion());
    }

    /** A live id names a slot by its current generation, so no two name the same one. */
    lemma LiveSlot(id: SlotId)
      requires Valid() && id in live
      ensures id.class_ == cls && id.index < |refcounts| == |generations| && id.generation == generations[id.index]
      ensures |refcounts| == Capacity(|regions|, cls)
    {
      NamesIndex(live, cls, refcounts, generations, id);
    }

    /** Bytes kept from the OS: all regions less the free slots that hold nothing. */
    function BytesHeld(): (n: nat)
      requires Valid()
      reads this
      ensures n == (inUse + residentFree) * cls.Size() == |committed| * cls.Size()
    {
      HeldExact();
      SaturatingSub(|regions| * REGION_SIZE, (|freelist| - residentFree) * cls.Size())
    }

    /** The subtraction in BytesHeld never saturates. */
    lemma HeldExact()
      requires Valid()
      ensures |regions| * REGION_SIZE - (|freelist| - residentFree) * cls.Size() == (inUse + residentFree) * cls.Size()
    {
      assert |regions| * REGION_SIZE == |refcounts| * cls.Size();
    }
  }

  function SaturatingSub(a: nat, b: nat): nat {
    if a < b then 0 else a - b
  }

  lemma OffsetInRegion(c: SizeClass, i: nat)
    requires i < c.PerRegion()
    ensures i * c.Size() + c.Size() <= REGION_SIZE
  {
  }

  lemma OffsetsApart(c: SizeClass, i: nat, j: nat)
    requires i != j
    ensures i * c.Size() + c.Size() <= j * c.Size() || j * c.Size() + c.Size() <= i * c.Size()
  {
  }

  /** No region of one class overlaps a region of the other. */
  ghost predicate PoolsApart(p: ClassPool, q: ClassPool)
    reads p, q
  {
    forall i, j :: 0 <= i < |p.regions| && 0 <= j < |q.regions| ==>
      Separate(p.regions[i].ptr, REGION_SIZE, q.regions[j].ptr, REGION_SIZE)
  }

  lemma SlotsOfPoolsApart(p: ClassPool, q: ClassPool, a: u32, b: u32)
    requires p.Valid() && q.Valid() && (PoolsApart(p, q) || PoolsApart(q, p))
    requires a < |p.refcounts| && b < |q.refcounts|
    ensures Separate(p.SlotPtr(a), p.cls.Size(), q.SlotPtr(b), q.cls.Size())
  {
    p.InRegion(a);
    q.InRegion(b);
    hide ClassPool.Valid, ClassPool.SlotPtr;
    var i, j := a / p.cls.PerRegion(), b / q.cls.PerRegion();
    assert Separate(p.regions[i].ptr, REGION_SIZE, q.regions[j].ptr, REGION_SIZE);
  }

  /** The pool of the three classes. */
  class BufferPool {
    const p4: ClassPool
    const p16: ClassPool
    const p64: ClassPool
    var regionsDirty: bool

    ghost predicate Valid()
      reads this, p4, p16, p64
    {
      && p4.Valid() && p16.Valid() && p64.Valid()
      && p4.cls == S4K && p16.cls == S16K && p64.cls == S64K
      && PoolsApart(p4, p16) && PoolsApart(p4, p64) && PoolsApart(p16, p64)
    }

    constructor (pagesOut: bool)
      ensures Valid() && fresh({p4, p16, p64}) && !regionsDirty
      ensures forall c :: Class(c).Refs() == BufferRefs.Refs(map[], [], 0)
    {
      hide ClassPool.Valid, Sane;
      p4 := new ClassPool(S4K, pagesOut);
      p16 := new ClassPool(S16K, pagesOut);
      p64 := new ClassPool(S64K, pagesOut);
      regionsDirty := false;
    }

    function Class(c: SizeClass): ClassPool {
      match c
      case S4K => p4
      case S16K => p16
      case S64K => p64
    }

    /** The region lies apart from every region there is. */
    ghost predicate Placed(region: Region)
      reads this, p4, p16, p64
    {
      p4.Placed(region) && p16.Placed(region) && p64.Placed(region)
    }

    /** Grows the class's slab when nothing is free, and says so in `regionsDirty`. */
    method Acquire(c: SizeClass, supplied: Region) returns (id: SlotId)
      requires Valid() && (Class(c).freelist == [] ==> Placed(supplied))
      modifies this, Class(c)
      ensures Valid() <==> old(Class(c).HasRoom())
      ensures id in old(Class(c).live) <==> !old(Class(c).HasRoom())
      ensures id.class_ == c
      ensures old(Class(c).HasRoom()) ==> Step(old(Class(c).Refs()), Event.Acquire(id), Class(c).Refs())
      ensures regionsDirty == (old(regionsDirty) || old(Class(c).freelist) == [])
      ensures BytesInUse() == old(BytesInUse()) + c.Size()
      ensures forall d | d != c :: unchanged(Class(d))
    {
      hide ClassPool.Valid;
      if Class(c).freelist == [] {
        regionsDirty := true;
      }
      id := Class(c).Acquire(supplied);
    }

    method Retain(id: SlotId)
      requires Valid()
      modifies Class(id.class_)
      ensures Valid() <==> !old(Class(id.class_).Saturated(id))
      ensures !old(Class(id.class_).Saturated(id)) ==>
        Step(old(Class(id.class_).Refs()), Event.Retain(id), Class(id.class_).Refs())
    {
      hide ClassPool.Valid;
      ghost var full := Class(id.class_).Saturated(id);
      Class(id.class_).Retain(id);
      if !full {
        assert StepBy(old(Class(id.class_).Refs()), Event.Retain(id), 0, Class(id.class_).Refs());
      }
    }

    method Release(id: SlotId, pageOutOk: bool) returns (freed: bool)
      requires Valid()
      modifies Class(id.class_)
      ensures Valid()
      ensures Step(old(Class(id.class_).Refs()), Event.Release(id, freed), Class(id.class_).Refs())
      ensures BytesInUse() == old(BytesInUse()) - if freed then id.class_.Size() else 0
      ensures var p := Class(id.class_);
        && p.regions == old(p.regions) && p.committed <= old(p.committed)
        && (!freed ==> p.committed == old(p.committed))
        && (freed ==> id.index < |old(p.refcounts)| == Capacity(|old(p.regions)|, p.cls))
        && (freed ==>
              var region := old(p.RegionOf(id.index));
              id.index !in p.committed <==>
                p.pagesOut && pageOutOk && old(p.residentFree) >= 256 && !region.registered && !region.largePages)
    {
      hide ClassPool.Valid;
      freed := Class(id.class_).Release(id, pageOutOk);
      assert StepBy(old(Class(id.class_).Refs()), Event.Release(id, freed), 0, Class(id.class_).Refs());
    }

    function BytesInUse(): nat
      reads this, p4, p16, p64
    {
      p4.inUse * p4.cls.Size() + p16.inUse * p16.cls.Size() + p64.inUse * p64.cls.Size()
    }

    /** Over the classes: the bytes in use plus those of the resident free slots, which is
        what the OS has actually given. */
    function BytesHeld(): (n: nat)
      requires Valid()
      reads this, p4, p16, p64
      ensures n == BytesInUse() + p4.residentFree * 4096 + p16.residentFree * 16384 + p64.residentFree * 65536
      ensures n == |p4.committed| * 4096 + |p16.committed| * 16384 + |p64.committed| * 65536
    {
      p4.BytesHeld() + p16.BytesHeld() + p64.BytesHeld()
    }

    /** True once after any growth. */
    method TakeRegionsDirty() returns (dirty: bool)
      requires Valid()
      modifies this`regionsDirty
      ensures Valid() && dirty == old(regionsDirty) && !regionsDirty
    {
      dirty, regionsDirty := regionsDirty, false;
    }

    /** The buffers of two different live ids, of any classes, never share a byte. */
    lemma LiveApart(a: SlotId, b: SlotId)
      requires Valid() && a in Class(a.class_).live && b in Class(b.class_).live && a != b
      ensures var p, q := Class(a.class_), Class(b.class_);
        && a.index < |p.refcounts| == Capacity(|p.regions|, p.cls)
        && b.index < |q.refcounts| == Capacity(|q.regions|, q.cls)
        && Separate(p.SlotPtr(a.index), a.class_.Size(), q.SlotPtr(b.index), b.class_.Size())
    {
      hide ClassPool.Valid, ClassPool.SlotPtr, ClassPool.RegionOf, PoolsApart, Capacity, Separate;
      var p, q := Class(a.class_), Class(b.class_);
      p.LiveSlot(a);
      q.LiveSlot(b);
      if a.class_ == b.class_ {
        p.SlotsApart(a.index, b.index);
      } else {
        SlotsOfPoolsApart(p, q, a.index, b.index);
      }
    }
  }
}
