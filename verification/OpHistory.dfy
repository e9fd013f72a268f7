/** What callers see of an op slot, in terms of the calls made through its id and nothing else. */
module OpHistories {
  import opened Words
  import opened OpLifecycle

  /** Was the op's completion reaped through this id, by events after i and before k? */
  ghost predicate Reaped(es: seq<Event>, id: OpId, i: nat, k: nat) {
    exists j {:trigger es[j]} :: i < j < k <= |es| && es[j].Reap? && es[j].id == id
  }

  ghost predicate CancelAsked(es: seq<Event>, id: OpId, i: nat, k: nat) {
    exists j {:trigger es[j]} :: i < j < k <= |es| && es[j].Cancel? && es[j].id == id
  }

  /** Was it reaped, and after that released? */
  ghost predicate Returned(es: seq<Event>, id: OpId, i: nat, k: nat) {
    exists f {:trigger es[f]} :: i < f < k <= |es| && es[f] == Release(id) && Reaped(es, id, i, f)
  }

  lemma OneMore(es: seq<Event>, id: OpId, i: nat, k: nat)
    requires i < k < |es|
    ensures Reaped(es, id, i, k + 1) <==> Reaped(es, id, i, k) || (es[k].Reap? && es[k].id == id)
    ensures CancelAsked(es, id, i, k + 1) <==> CancelAsked(es, id, i, k) || (es[k].Cancel? && es[k].id == id)
    ensures Returned(es, id, i, k + 1) <==> Returned(es, id, i, k) || (es[k] == Release(id) && Reaped(es, id, i, k))
  {
    var e := es[k];
  }

  /** Until an op was reaped and released, its slot is its own: of its kind, Completed if it was
      reaped, else Cancelled if a cancel was asked for, else Posted. */
  lemma {:induction false} OpStateIs(ws: seq<World>, es: seq<Event>, i: nat, k: nat)
    requires Run(ws, es) && i < k <= |es| && es[i].Post? && !Returned(es, es[i].id, i, k)
    ensures var id := es[i].id;
      && Current(ws[k], id) && ws[k].slots[id.index].kind == es[i].kind
      && ws[k].slots[id.index].state ==
         if Reaped(es, id, i, k) then Completed else if CancelAsked(es, id, i, k) then Cancelled else Posted
    decreases k
  {
    assert Step(ws[k - 1], es[k - 1], ws[k]);
    if k > i + 1 {
      OneMore(es, es[i].id, i, k - 1);
      hide Reaped, CancelAsked, Returned, Run;
      OpStateIs(ws, es, i, k - 1);
    }
  }

  /** A completion answers the kind its op was posted with, and whether a cancel answered true
      in between; it answers at all just the first time. */
  lemma {:induction false} ReapAnswers(ws: seq<World>, es: seq<Event>, i: nat, k: nat)
    requires Run(ws, es) && i < k < |es| && es[i].Post? && !Returned(es, es[i].id, i, k)
    requires es[k].Reap? && es[k].id == es[i].id
    ensures es[k].outcome.Some? <==> !exists j {:trigger es[j]} :: i < j < k && es[j].Reap? && es[j].id == es[i].id
    ensures es[k].outcome.Some? ==> es[k].outcome.value.0 == es[i].kind
    ensures es[k].outcome.Some? ==>
      (es[k].outcome.value.1 <==> exists j {:trigger es[j]} :: i < j < k && es[j] == Cancel(es[i].id, true))
  {
    OpStateIs(ws, es, i, k);
    assert Step(ws[k], es[k], ws[k + 1]);
    CancelAnswered(ws, es, i, k);
  }

  /** A cancel answers true just when it is the first through its id, and the op not reaped. */
  lemma {:induction false} CancelAnswers(ws: seq<World>, es: seq<Event>, i: nat, k: nat)
    requires Run(ws, es) && i < k < |es| && es[i].Post? && !Returned(es, es[i].id, i, k)
    requires es[k].Cancel? && es[k].id == es[i].id
    ensures es[k].first <==>
      !exists j {:trigger es[j]} :: i < j < k && (es[j].Cancel? || es[j].Reap?) && es[j].id == es[i].id
  {
    OpStateIs(ws, es, i, k);
    assert Step(ws[k], es[k], ws[k + 1]);
  }

  /** Of the cancels before a reap, one answered true. */
  lemma {:induction false} CancelAnswered(ws: seq<World>, es: seq<Event>, i: nat, k: nat)
    requires Run(ws, es) && i < k <= |es| && es[i].Post? && !Returned(es, es[i].id, i, k)
    ensures !Reaped(es, es[i].id, i, k) ==>
      (CancelAsked(es, es[i].id, i, k) <==> exists j {:trigger es[j]} :: i < j < k && es[j] == Cancel(es[i].id, true))
    decreases k
  {
    if k > i + 1 && !Reaped(es, es[i].id, i, k) {
      OneMore(es, es[i].id, i, k - 1);
      CancelAnswered(ws, es, i, k - 1);
      if es[k - 1].Cancel? && es[k - 1].id == es[i].id {
        CancelAnswers(ws, es, i, k - 1);
      }
    }
  }

  /** An op's slot is recycled just when the op was reaped and then released: a release before
      the reap, or through any other id, does not recycle it. */
  lemma {:induction false} RecycledIff(ws: seq<World>, es: seq<Event>, i: nat, k: nat)
    requires Run(ws, es) && i < k <= |es| && es[i].Post?
    ensures RecycleCount(ws, es, es[i].id.index, i + 1, k) > 0 <==> Returned(es, es[i].id, i, k)
    decreases k
  {
    if k > i + 1 {
      var id := es[i].id;
      RecycledIff(ws, es, i, k - 1);
      OneMore(es, id, i, k - 1);
      if !Returned(es, id, i, k - 1) {
        OpStateIs(ws, es, i, k - 1);
      }
    }
  }

  /** So, below 2^32 recycles, an id resolves exactly until its op was reaped and released. */
  lemma {:induction false} ResolvesUntilReturned(ws: seq<World>, es: seq<Event>, i: nat, k: nat)
    requires Run(ws, es) && i < k <= |es| && es[i].Post?
    requires RecycleCount(ws, es, es[i].id.index, i + 1, k) < TWO32
    ensures Resolves(ws[k], es[i].id) <==> !Returned(es, es[i].id, i, k)
  {
    IdResolvesIff(ws, es, i, k);
    RecycledIff(ws, es, i, k);
  }
}
