/** The op-slot protocol, without the slab's data structures: which slot may be
    handed out, and what the kernel still holds. */
module OpLifecycle {
  import opened Words

  const CHUNK: nat := 256

  datatype OpState = Free | Posted | Completed | Cancelled
  datatype OpKind =
    | Accept | Recv | Send | Connect | Disconnect | Wakeup | RecvFrom | SendTo | PipeRead | PipeWrite | Poll
  datatype OpId = OpId(index: u32, generation: u32)
  datatype Slot = Slot(state: OpState, generation: u32, kind: OpKind)

  /** The slots of a slab, and the ops the kernel has been given and not returned. */
  datatype World = World(slots: seq<Slot>, kernel: set<OpId>)

  /** One call on the slab, with what it returned. */
  datatype Event =
    | Post(kind: OpKind, grew: bool, id: OpId)
    | Cancel(id: OpId, first: bool)
    | Reap(id: OpId, outcome: Option<(OpKind, bool)>)
    | Release(id: OpId)

  predicate InFlight(s: OpState) {
    s == Posted || s == Cancelled
  }

  function FreshChunk(): (c: seq<Slot>)
    ensures |c| == CHUNK
  {
    seq(CHUNK, _ => Slot(Free, 0, Wakeup))
  }

  /** The id names a slot and carries that slot's current generation. */
  predicate Current(w: World, id: OpId) {
    id.index < |w.slots| && w.slots[id.index].generation == id.generation
  }

  /** `get` answers this id. */
  predicate Resolves(w: World, id: OpId) {
    Current(w, id) && w.slots[id.index].state != Free
  }

  ghost predicate NoneFree(slots: seq<Slot>) {
    forall i :: 0 <= i < |slots| ==> slots[i].state != Free
  }

  /** What each call may do. A post may take ANY free slot, and grows only when there is none. */
  ghost predicate Step(w: World, e: Event, w': World) {
    match e
    case Post(kind, grew, id) =>
      var base := if grew then w.slots + FreshChunk() else w.slots;
      && (grew ==> NoneFree(w.slots))
      && id.index < |base|
      && base[id.index].state == Free
      && base[id.index].generation == id.generation
      && w' == World(base[id.index := Slot(Posted, id.generation, kind)], w.kernel + {id})
    case Cancel(id, first) =>
      && (first <==> Current(w, id) && w.slots[id.index].state == Posted)
      && w' == if first then w.(slots := w.slots[id.index := w.slots[id.index].(state := Cancelled)]) else w
    case Reap(id, outcome) =>
      if Current(w, id) && InFlight(w.slots[id.index].state) then
        && outcome == Some((w.slots[id.index].kind, w.slots[id.index].state == Cancelled))
        && w' == World(w.slots[id.index := w.slots[id.index].(state := Completed)], w.kernel - {id})
      else
        outcome == None && w' == w
    case Release(id) =>
      w' == if Recycles(w, id) then w.(slots := w.slots[id.index := Recycled(w.slots[id.index])]) else w
  }

  /** Does this release recycle its slot? */
  predicate Recycles(w: World, id: OpId) {
    Current(w, id) && w.slots[id.index].state == Completed
  }

  function Recycled(s: Slot): Slot {
    s.(state := Free, generation := Next32(s.generation))
  }

  /** The kernel holds exactly the ops whose slots are Posted or Cancelled. */
  ghost predicate Exact(w: World) {
    && |w.slots| <= TWO32
    && (forall id :: id in w.kernel ==> Current(w, id) && InFlight(w.slots[id.index].state))
    && (forall i: u32 :: i < |w.slots| && InFlight(w.slots[i].state) ==> OpId(i, w.slots[i].generation) in w.kernel)
  }

  /** A run from the empty slab: the world before and after every event. */
  ghost predicate Run(ws: seq<World>, es: seq<Event>) {
    && |ws| == |es| + 1
    && ws[0] == World([], {})
    && (forall k :: 0 <= k < |ws| ==> |ws[k].slots| <= TWO32)
    && (forall k {:trigger es[k]} :: 0 <= k < |es| ==> Step(ws[k], es[k], ws[k + 1]))
  }

  lemma StepKeepsExact(w: World, e: Event, w': World)
    requires Exact(w) && Step(w, e, w') && |w'.slots| <= TWO32
    ensures Exact(w')
  {
  }

  /** Whatever the calls and their arguments, the kernel's ops and the in-flight
      slots never drift apart, and a completion is accepted just when its op is outstanding. */
  lemma {:induction false} KernelExact(ws: seq<World>, es: seq<Event>, k: nat)
    requires Run(ws, es) && k <= |es|
    ensures Exact(ws[k])
    ensures k < |es| && es[k].Reap? ==> (es[k].outcome.Some? <==> es[k].id in ws[k].kernel)
  {
    if k > 0 {
      KernelExact(ws, es, k - 1);
      StepKeepsExact(ws[k - 1], es[k - 1], ws[k]);
    }
    assert k < |es| ==> Step(ws[k], es[k], ws[k + 1]);
  }

  /** No post hands out a slot the kernel still holds an op for. */
  lemma {:induction false} HeldSlotNotReissued(ws: seq<World>, es: seq<Event>, k: nat, held: OpId)
    requires Run(ws, es) && k < |es| && es[k].Post? && held in ws[k].kernel
    ensures es[k].id.index != held.index
    ensures held in ws[k + 1].kernel
  {
    KernelExact(ws, es, k);
    assert Step(ws[k], es[k], ws[k + 1]);
  }

  /** The op posted by event i was reaped at r and its slot recycled at f. */
  ghost predicate ReapedThenRecycled(ws: seq<World>, es: seq<Event>, i: nat, r: nat, f: nat, k: nat)
    requires Run(ws, es) && i < |es| && es[i].Post?
  {
    && i < r < f < k <= |es|
    && es[r].Reap? && es[r].id == es[i].id && es[r].outcome.Some?
    && es[f] == Release(es[i].id) && Recycles(ws[f], es[i].id)
  }

  ghost predicate ReapedAt(es: seq<Event>, i: nat, r: nat, k: nat)
    requires i < |es| && es[i].Post?
  {
    i < r < k <= |es| && es[r].Reap? && es[r].id == es[i].id && es[r].outcome.Some?
  }

  /** Where an op can be after it was posted: in flight, reaped, or reaped and then recycled. */
  lemma {:induction false} OpProgress(ws: seq<World>, es: seq<Event>, i: nat, k: nat)
    requires Run(ws, es) && i < k <= |es| && es[i].Post?
    ensures |ws[k].slots| > es[i].id.index
    ensures
      || (Current(ws[k], es[i].id) && InFlight(ws[k].slots[es[i].id.index].state))
      || (Current(ws[k], es[i].id) && ws[k].slots[es[i].id.index].state == Completed
          && exists r :: ReapedAt(es, i, r, k))
      || (exists r, f :: ReapedThenRecycled(ws, es, i, r, f, k))
  {
    if k > i + 1 {
      var p := k - 1;
      OpProgress(ws, es, i, p);
      var id := es[i].id;
      assert Step(ws[k - 1], es[k - 1], ws[k]);
      if exists r, f :: ReapedThenRecycled(ws, es, i, r, f, p) {
        var r, f :| ReapedThenRecycled(ws, es, i, r, f, p);
        assert ReapedThenRecycled(ws, es, i, r, f, k);
      } else if Current(ws[k - 1], id) && InFlight(ws[k - 1].slots[id.index].state) {
        if es[k - 1].Reap? && es[k - 1].id == id {
          assert ReapedAt(es, i, k - 1, k);
        }
      } else {
        var r :| ReapedAt(es, i, r, p);
        assert ReapedAt(es, i, r, k);
        if es[k - 1] == Release(id) {
          assert ReapedThenRecycled(ws, es, i, r, k - 1, k);
        }
      }
    }
  }

  /** A slot is handed out a second time only after the kernel returned its first op
      and that op was released, in that order. */
  lemma {:induction false} ReissueFollowsReapAndRelease(ws: seq<World>, es: seq<Event>, i: nat, j: nat)
    requires Run(ws, es) && i < j < |es| && es[i].Post? && es[j].Post?
    requires es[i].id.index == es[j].id.index
    ensures exists r, f :: ReapedThenRecycled(ws, es, i, r, f, j)
  {
    OpProgress(ws, es, i, j);
    assert Step(ws[j], es[j], ws[j + 1]);
  }

  /** How often a slot was recycled by events i..k. */
  ghost function RecycleCount(ws: seq<World>, es: seq<Event>, index: u32, i: nat, k: nat): nat
    requires Run(ws, es) && i <= k <= |es|
    decreases k
  {
    if k == i then 0
    else
      RecycleCount(ws, es, index, i, k - 1) +
      (if es[k - 1].Release? && es[k - 1].id.index == index && Recycles(ws[k - 1], es[k - 1].id) then 1 else 0)
  }

  /** A step changes a slot's generation only by recycling it. */
  lemma StepGeneration(w: World, e: Event, w': World, index: u32)
    requires Step(w, e, w') && index < |w.slots|
    ensures index < |w'.slots|
    ensures w'.slots[index].generation ==
      if e.Release? && e.id.index == index && Recycles(w, e.id) then Next32(w.slots[index].generation)
      else w.slots[index].generation
  {
  }

  lemma {:induction false} GenerationCountsRecycles(ws: seq<World>, es: seq<Event>, index: u32, i: nat, k: nat)
    requires Run(ws, es) && i <= k <= |es| && index < |ws[i].slots|
    ensures index < |ws[k].slots|
    ensures ws[k].slots[index].generation == Wrap32(ws[i].slots[index].generation + RecycleCount(ws, es, index, i, k))
    decreases k
  {
    if k > i {
      GenerationCountsRecycles(ws, es, index, i, k - 1);
      WrapStep(ws[i].slots[index].generation + RecycleCount(ws, es, index, i, k - 1));
      StepGeneration(ws[k - 1], es[k - 1], ws[k], index);
    }
  }

  /** Never recycled since its post, an op's slot is not Free. */
  lemma {:induction false} UnrecycledStaysLive(ws: seq<World>, es: seq<Event>, i: nat, k: nat)
    requires Run(ws, es) && i < k <= |es| && es[i].Post?
    requires RecycleCount(ws, es, es[i].id.index, i + 1, k) == 0
    ensures Resolves(ws[k], es[i].id)
    decreases k
  {
    if k > i + 1 {
      UnrecycledStaysLive(ws, es, i, k - 1);
      assert Step(ws[k - 1], es[k - 1], ws[k]);
    }
  }

  /** When an id resolves, exactly: its slot is occupied and has been recycled a
      multiple of 2^32 times since. Below 2^32 recycles that means: not recycled at all. */
  lemma {:induction false} IdResolvesIff(ws: seq<World>, es: seq<Event>, i: nat, k: nat)
    requires Run(ws, es) && i < k <= |es| && es[i].Post?
    ensures |ws[k].slots| > es[i].id.index
    ensures var n := RecycleCount(ws, es, es[i].id.index, i + 1, k);
      && (Resolves(ws[k], es[i].id) <==> ws[k].slots[es[i].id.index].state != Free && n % TWO32 == 0)
      && (n < TWO32 ==> (Resolves(ws[k], es[i].id) <==> n == 0))
  {
    var id := es[i].id;
    assert Step(ws[i], es[i], ws[i + 1]);
    GenerationCountsRecycles(ws, es, id.index, i + 1, k);
    var n := RecycleCount(ws, es, id.index, i + 1, k);
    assert Wrap32(id.generation + n) == id.generation <==> n % TWO32 == 0;
    if n == 0 {
      UnrecycledStaysLive(ws, es, i, k);
    }
  }
}
