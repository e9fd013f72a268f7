/** What a buffer class promises its callers: a map from live slot ids to reference counts. */
module BufferRefs {
  import opened Words

  datatype SizeClass = S4K | S16K | S64K {
    function Size(): nat {
      match this
      case S4K => 4096
      case S16K => 16384
      case S64K => 65536
    }

    /** Slots one 2 MiB region is carved into. */
    function PerRegion(): (n: nat)
      ensures n * Size() == REGION_SIZE
    {
      match this
      case S4K => 512
      case S16K => 128
      case S64K => 32
    }
  }

  const REGION_SIZE: nat := 2 * 1024 * 1024

  datatype SlotId = SlotId(class_: SizeClass, index: u32, generation: u32)

  /** Live ids with their counts, the generation every slot would be handed out with, and
      the calls refused so far. */
  datatype Refs = Refs(live: map<SlotId, nat>, gens: seq<u32>, stale: nat)

  datatype Event =
    | Acquire(id: SlotId)
    | Retain(id: SlotId)
    | Release(id: SlotId, freed: bool)

  function Zeros(n: nat): (z: seq<u32>)
    ensures |z| == n && forall i :: 0 <= i < n ==> z[i] == 0
  {
    seq(n, _ => 0)
  }

  ghost predicate Unheld(r: Refs, index: u32) {
    forall id :: id in r.live ==> id.index != index
  }

  /** `added` is the number of slots the pool grew by during the call. */
  ghost predicate StepBy(r: Refs, e: Event, added: nat, r': Refs) {
    match e
    case Acquire(id) =>
      && Unheld(r, id.index)
      && r'.gens == r.gens + Zeros(added)
      && id.index < |r'.gens| && id.generation == r'.gens[id.index]
      && r'.live == r.live[id := 1] && r'.stale == r.stale
    case Retain(id) =>
      && added == 0
      && r' == if id in r.live then r.(live := r.live[id := r.live[id] + 1]) else r.(stale := r.stale + 1)
    case Release(id, freed) =>
      && added == 0
      && (freed <==> id in r.live && r.live[id] == 1)
      && (if id !in r.live then r' == r.(stale := r.stale + 1)
          else if r.live[id] > 1 then r' == r.(live := r.live[id := r.live[id] - 1])
          else id.index < |r.gens| && r' == Refs(r.live - {id}, r.gens[id.index := Next32(r.gens[id.index])], r.stale))
  }

  ghost predicate Step(r: Refs, e: Event, r': Refs) {
    exists added: nat :: StepBy(r, e, added, r')
  }

  /** Live ids are current, positively counted, and name pairwise different slots. */
  ghost predicate Sound(r: Refs) {
    && (forall id :: id in r.live ==> id.index < |r.gens| && id.generation == r.gens[id.index] && r.live[id] > 0)
    && (forall a, b :: a in r.live && b in r.live && a.index == b.index ==> a == b)
  }

  ghost predicate StepAt(rs: seq<Refs>, es: seq<Event>, k: nat)
    requires k < |es| < |rs|
  {
    Step(rs[k], es[k], rs[k + 1])
  }

  ghost predicate Run(rs: seq<Refs>, es: seq<Event>) {
    && |rs| == |es| + 1
    && rs[0] == Refs(map[], [], 0)
    && forall k :: 0 <= k < |es| ==> StepAt(rs, es, k)
  }

  lemma StepKeepsSound(r: Refs, e: Event, r': Refs)
    requires Sound(r) && Step(r, e, r')
    ensures Sound(r')
  {
  }

  lemma {:induction false} AlwaysSound(rs: seq<Refs>, es: seq<Event>, k: nat)
    requires Run(rs, es) && k <= |es|
    ensures Sound(rs[k])
  {
    if k > 0 {
      AlwaysSound(rs, es, k - 1);
      assert StepAt(rs, es, k - 1);
      StepKeepsSound(rs[k - 1], es[k - 1], rs[k]);
    }
  }

  /** Calls refused by events up to k: those through an id that was not live. */
  ghost function Refused(rs: seq<Refs>, es: seq<Event>, k: nat): nat
    requires k <= |es| < |rs|
  {
    if k == 0 then 0
    else Refused(rs, es, k - 1) + if !es[k - 1].Acquire? && es[k - 1].id !in rs[k - 1].live then 1 else 0
  }

  /** The rejections counted are just those, and a refused call changes nothing else. */
  lemma {:induction false} StaleCountsRefused(rs: seq<Refs>, es: seq<Event>, k: nat)
    requires Run(rs, es) && k <= |es|
    ensures rs[k].stale == Refused(rs, es, k)
    ensures k < |es| && !es[k].Acquire? && es[k].id !in rs[k].live ==>
      rs[k + 1].live == rs[k].live && rs[k + 1].gens == rs[k].gens && (es[k].Release? ==> !es[k].freed)
  {
    if k > 0 {
      StaleCountsRefused(rs, es, k - 1);
      assert StepAt(rs, es, k - 1);
    }
    assert k < |es| ==> StepAt(rs, es, k);
  }

  predicate Frees(e: Event, index: u32) {
    e.Release? && e.freed && e.id.index == index
  }

  /** How often slot `index` was freed by events i..k. */
  function FreedCount(es: seq<Event>, index: u32, i: nat, k: nat): nat
    requires i <= k <= |es|
    decreases k
  {
    if k == i then 0
    else FreedCount(es, index, i, k - 1) + (if Frees(es[k - 1], index) then 1 else 0)
  }

  /** What one event does to the count behind `id`. */
  function Delta(e: Event, id: SlotId): int {
    if e == Retain(id) then 1 else if e.Release? && e.id == id then -1 else 0
  }

  /** References taken minus references dropped through `id` by events i..k. */
  function Balance(es: seq<Event>, id: SlotId, i: nat, k: nat): int
    requires i <= k <= |es|
    decreases k
  {
    if k == i then 0 else Balance(es, id, i, k - 1) + Delta(es[k - 1], id)
  }

  lemma RunCount(rs: seq<Refs>, es: seq<Event>, id: SlotId, k: nat)
    requires Run(rs, es) && k < |es| && id in rs[k].live
    ensures Frees(es[k], id.index) <==> es[k].Release? && es[k].id == id && rs[k].live[id] == 1
    ensures !Frees(es[k], id.index) ==> id in rs[k + 1].live && rs[k + 1].live[id] == rs[k].live[id] + Delta(es[k], id)
  {
    AlwaysSound(rs, es, k);
    assert StepAt(rs, es, k);
  }

  lemma StepGeneration(r: Refs, e: Event, r': Refs, index: u32)
    requires Sound(r) && Step(r, e, r') && index < |r.gens|
    ensures index < |r'.gens|
    ensures r'.gens[index] == if Frees(e, index) then Next32(r.gens[index]) else r.gens[index]
  {
  }

  lemma RunGeneration(rs: seq<Refs>, es: seq<Event>, index: u32, k: nat)
    requires Run(rs, es) && k < |es| && index < |rs[k].gens|
    ensures index < |rs[k + 1].gens|
    ensures rs[k + 1].gens[index] == if Frees(es[k], index) then Next32(rs[k].gens[index]) else rs[k].gens[index]
  {
    AlwaysSound(rs, es, k);
    assert StepAt(rs, es, k);
    StepGeneration(rs[k], es[k], rs[k + 1], index);
  }

  /** Counting modulo 2^32, one event further. */
  lemma CountWraps(es: seq<Event>, index: u32, i: nat, k: nat, g: u32)
    requires i <= k <= |es|
    ensures k == i ==> Wrap32(g + FreedCount(es, index, i, k)) == g
    ensures k > i ==>
      var before := Wrap32(g + FreedCount(es, index, i, k - 1));
      Wrap32(g + FreedCount(es, index, i, k)) == if Frees(es[k - 1], index) then Next32(before) else before
  {
    hide Frees;
    if k > i {
      WrapStep(g + FreedCount(es, index, i, k - 1));
    }
  }

  lemma {:induction false} GenerationCountsFrees(rs: seq<Refs>, es: seq<Event>, index: u32, i: nat, k: nat)
    requires Run(rs, es) && i <= k <= |es| && index < |rs[i].gens|
    ensures index < |rs[k].gens|
    ensures rs[k].gens[index] == Wrap32(rs[i].gens[index] + FreedCount(es, index, i, k))
    decreases k
  {
    RunLength(rs, es);
    hide *;
    CountWraps(es, index, i, k, rs[i].gens[index]);
    if k > i {
      GenerationCountsFrees(rs, es, index, i, k - 1);
      RunGeneration(rs, es, index, k - 1);
    }
  }

  lemma AcquiredAt(rs: seq<Refs>, es: seq<Event>, i: nat)
    requires Run(rs, es) && i < |es| && es[i].Acquire?
    ensures var id, r := es[i].id, rs[i + 1];
      && id in r.live && r.live[id] == 1 && id.index < |r.gens| && r.gens[id.index] == id.generation
  {
    assert StepAt(rs, es, i);
  }

  /** Until its slot is freed, an acquired id stays live and its count is one plus every
      retain less every release through it; the next release frees it just when that is one. */
  lemma {:induction false} CountIsBalance(rs: seq<Refs>, es: seq<Event>, i: nat, k: nat)
    requires Run(rs, es) && i < k <= |es| && es[i].Acquire?
    requires FreedCount(es, es[i].id.index, i + 1, k) == 0
    ensures es[i].id in rs[k].live && rs[k].live[es[i].id] == 1 + Balance(es, es[i].id, i + 1, k)
    ensures k < |es| && es[k].Release? && es[k].id == es[i].id ==>
            (es[k].freed <==> Balance(es, es[i].id, i + 1, k) == 0)
    decreases k
  {
    var id := es[i].id;
    RunLength(rs, es);
    hide Run, Frees;
    if k > i + 1 {
      CountIsBalance(rs, es, i, k - 1);
      RunCount(rs, es, id, k - 1);
    } else {
      AcquiredAt(rs, es, i);
    }
    if k < |es| {
      RunCount(rs, es, id, k);
    }
  }

  lemma RunLength(rs: seq<Refs>, es: seq<Event>)
    requires Run(rs, es)
    ensures |rs| == |es| + 1
  {
  }

  /** What an acquire left, counted on: its slot's generation, and its id while not freed. */
  lemma {:induction false} AcquiredSince(rs: seq<Refs>, es: seq<Event>, i: nat, k: nat)
    requires Run(rs, es) && i < k <= |es| && es[i].Acquire?
    ensures var id, n := es[i].id, FreedCount(es, es[i].id.index, i + 1, k);
      && id.index < |rs[k].gens| && rs[k].gens[id.index] == Wrap32(id.generation + n)
      && (n == 0 ==> id in rs[k].live)
  {
    RunLength(rs, es);
    hide *;
    AcquiredAt(rs, es, i);
    GenerationCountsFrees(rs, es, es[i].id.index, i + 1, k);
    if FreedCount(es, es[i].id.index, i + 1, k) == 0 {
      CountIsBalance(rs, es, i, k);
    }
  }

  /** Of one class's ids, the live one for a slot is that of its generation. */
  lemma LiveByGeneration(r: Refs, id: SlotId, n: nat)
    requires Sound(r) && id.index < |r.gens| && forall d :: d in r.live ==> d.class_ == id.class_
    requires r.gens[id.index] == Wrap32(id.generation + n) && (n == 0 ==> id in r.live)
    ensures id in r.live <==> !Unheld(r, id.index) && n % TWO32 == 0
    ensures n < TWO32 ==> (id in r.live <==> n == 0)
  {
    WrapsBack(id.generation, n);
    hide Wrap32;
  }

  /** When an id is live, exactly: its slot is held and was freed a multiple of 2^32 times
      since. Below 2^32 frees that means: not freed at all, so a stale id never reaches
      the slot's next owner. */
  lemma {:induction false} IdLiveIff(rs: seq<Refs>, es: seq<Event>, i: nat, k: nat)
    requires Run(rs, es) && i < k <= |es| && es[i].Acquire?
    requires forall e :: e in es ==> e.id.class_ == es[i].id.class_
    ensures var id, n := es[i].id, FreedCount(es, es[i].id.index, i + 1, k);
      && (id in rs[k].live <==> !Unheld(rs[k], id.index) && n % TWO32 == 0)
      && (n < TWO32 ==> (id in rs[k].live <==> n == 0))
  {
    hide *;
    var id, n := es[i].id, FreedCount(es, es[i].id.index, i + 1, k);
    RunLength(rs, es);
    AlwaysSound(rs, es, k);
    LiveIdsOfClass(rs, es, id.class_, k);
    AcquiredSince(rs, es, i, k);
    LiveByGeneration(rs[k], id, n);
  }

  lemma {:induction false} LiveIdsOfClass(rs: seq<Refs>, es: seq<Event>, c: SizeClass, k: nat)
    requires Run(rs, es) && k <= |es|
    requires forall e :: e in es ==> e.id.class_ == c
    ensures forall id :: id in rs[k].live ==> id.class_ == c
  {
    if k > 0 {
      LiveIdsOfClass(rs, es, c, k - 1);
      assert StepAt(rs, es, k - 1);
      assert es[k - 1] in es;
    }
  }
}
