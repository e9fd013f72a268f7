/** What a worker's pump does with the connections it is handed, as its loop does or does not
    keep up. */
module Adoptions {
  import opened Words

  /** Adoptions that may wait for the loop at once. */
  const MAX_PENDING: nat := 1024

  /** When a connection arrives: can its blob be made a socket, how many waiting adoptions has
      the loop run since the one before, and does the loop still take calls? */
  datatype Around = Around(usable: bool, ran: nat, open: bool)

  datatype Worker = Worker(
    adopted: seq<bytes>, turnedAway: seq<bytes>, unusable: seq<bytes>, pending: nat, stopped: bool)

  function Fresh(): Worker {
    Worker([], [], [], 0, false)
  }

  /** One connection: adopted if there is a place to wait, and otherwise closed at once. */
  function Meet(w: Worker, body: bytes, e: Around): Worker {
    var v := w.(pending := if e.ran < w.pending then w.pending - e.ran else 0);
    if !e.usable then v.(unusable := w.unusable + [body])
    else if v.pending >= MAX_PENDING then v.(turnedAway := w.turnedAway + [body])
    else if e.open then v.(adopted := w.adopted + [body], pending := v.pending + 1)
    else v.(turnedAway := w.turnedAway + [body], stopped := true)
  }

  /** In numbers: an unusable blob is dropped; past 1024 waiting the connection is closed at
      once; a closed loop closes it and ends the pump; otherwise it waits with the others. */
  lemma MeetMeans(w: Worker, body: bytes, e: Around)
    requires !w.stopped
    ensures var p := if e.ran < w.pending then w.pending - e.ran else 0;
      var v := Meet(w, body, e);
      && (v.unusable == w.unusable + [body] <==> !e.usable)
      && (v.turnedAway == w.turnedAway + [body] <==> e.usable && (p >= 1024 || !e.open))
      && (v.adopted == w.adopted + [body] <==> e.usable && p < 1024 && e.open)
      && (v.stopped <==> e.usable && p < 1024 && !e.open)
      && v.pending == p + if v.adopted != w.adopted then 1 else 0
  {
    assert w.unusable + [body] != w.unusable by { Longer(w.unusable, body); }
    assert w.turnedAway + [body] != w.turnedAway by { Longer(w.turnedAway, body); }
    assert w.adopted + [body] != w.adopted by { Longer(w.adopted, body); }
  }

  lemma Longer(s: seq<bytes>, b: bytes)
    ensures s + [b] != s
  {
    assert |s + [b]| == |s| + 1;
  }

  /** All of them, the first being the i-th, until the loop is closed. */
  function MeetAll(w: Worker, bodies: seq<bytes>, env: nat -> Around, i: nat): Worker
    decreases |bodies|
  {
    if bodies == [] || w.stopped then w else MeetAll(Meet(w, bodies[0], env(i)), bodies[1..], env, i + 1)
  }

  /** Everything met so far. */
  function All(w: Worker): multiset<bytes> {
    multiset(w.adopted) + multiset(w.turnedAway) + multiset(w.unusable)
  }

  /** `part` can be had from `whole` by leaving some out. */
  predicate Within(part: seq<bytes>, whole: seq<bytes>)
    decreases |whole|
  {
    if part == [] then true
    else if whole == [] then false
    else if part[0] == whole[0] && Within(part[1..], whole[1..]) then true
    else Within(part, whole[1..])
  }

  lemma {:induction false} WithinGrows(part: seq<bytes>, whole: seq<bytes>, b: bytes)
    requires Within(part, whole)
    ensures Within(part, whole + [b]) && Within(part + [b], whole + [b])
    decreases |whole|
  {
    var all := whole + [b];
    if whole == [] {
      assert all[1..] == [] && part + [b] == [b];
    } else {
      assert all[0] == whole[0] && all[1..] == whole[1..] + [b];
      if part == [] {
        WithinGrows([], whole[1..], b);
        assert [] + [b] == [b];
      } else if part[0] == whole[0] && Within(part[1..], whole[1..]) {
        WithinGrows(part[1..], whole[1..], b);
        assert (part + [b])[1..] == part[1..] + [b];
      } else {
        WithinGrows(part, whole[1..], b);
      }
    }
  }

  /** The worker has met these, and only so many adoptions wait. */
  ghost predicate HasMet(w: Worker, met: seq<bytes>) {
    All(w) == multiset(met) && Within(w.adopted, met) && w.pending <= MAX_PENDING
  }

  lemma MeetOne(w: Worker, met: seq<bytes>, b: bytes, e: Around)
    requires HasMet(w, met)
    ensures HasMet(Meet(w, b, e), met + [b])
  {
    WithinGrows(w.adopted, met, b);
    AllGrows(w, b, e);
    hide Within, All;
    assert multiset(met + [b]) == multiset(met) + multiset{b};
  }

  lemma AllGrows(w: Worker, b: bytes, e: Around)
    ensures All(Meet(w, b, e)) == All(w) + multiset{b}
  {
    assert multiset(w.adopted + [b]) == multiset(w.adopted) + multiset{b};
    assert multiset(w.turnedAway + [b]) == multiset(w.turnedAway) + multiset{b};
    assert multiset(w.unusable + [b]) == multiset(w.unusable) + multiset{b};
  }

  /** However the loop keeps up, no more than the limit ever wait, every connection met is
      adopted or closed, never both, adoptions keep the order of arrival, and the pump goes
      through all of them unless the loop was closed. */
  lemma {:induction false} Accounted(w: Worker, met: seq<bytes>, bodies: seq<bytes>, env: nat -> Around, i: nat)
    returns (n: nat)
    requires HasMet(w, met)
    ensures var v := MeetAll(w, bodies, env, i);
      && n <= |bodies| && (n < |bodies| ==> v.stopped) && HasMet(v, met + bodies[..n])
      && (w.stopped ==> n == 0)
    decreases |bodies|
  {
    hide HasMet, Meet;
    if bodies == [] || w.stopped {
      n := 0;
      assert met + bodies[..0] == met;
    } else {
      MeetOne(w, met, bodies[0], env(i));
      var m := Accounted(Meet(w, bodies[0], env(i)), met + [bodies[0]], bodies[1..], env, i + 1);
      n := m + 1;
      assert met + bodies[..n] == met + [bodies[0]] + bodies[1..][..m];
    }
  }

  /** Adoptions waiting when the k-th connection arrives, if none from the i-th on was turned
      away and p waited after the one before. */
  function Waiting(p: nat, env: nat -> Around, i: nat, k: nat): nat
    requires i <= k
    decreases k
  {
    var before := if k == i then p else Waiting(p, env, i, k - 1) + if env(k - 1).usable then 1 else 0;
    if env(k).ran < before then before - env(k).ran else 0
  }

  lemma {:induction false} WaitingFromNext(p: nat, env: nat -> Around, i: nat, k: nat)
    requires i < k
    ensures Waiting(p, env, i, k) == Waiting(Waiting(p, env, i, i) + if env(i).usable then 1 else 0, env, i + 1, k)
    decreases k
  {
    if k > i + 1 {
      WaitingFromNext(p, env, i, k - 1);
    }
  }

  /** A place to wait, and an open loop, for every usable one of these arrivals. */
  ghost predicate RoomForAll(p: nat, env: nat -> Around, i: nat, n: nat) {
    forall k :: i <= k < i + n && env(k).usable ==> Waiting(p, env, i, k) < 1024 && env(k).open
  }

  lemma RoomForRest(p: nat, env: nat -> Around, i: nat, n: nat)
    requires n > 0
    ensures var first := env(i).usable ==> Waiting(p, env, i, i) < 1024 && env(i).open;
      RoomForAll(p, env, i, n) <==>
        first && RoomForAll(Waiting(p, env, i, i) + if env(i).usable then 1 else 0, env, i + 1, n - 1)
  {
    var q := Waiting(p, env, i, i) + if env(i).usable then 1 else 0;
    forall k | i < k < i + n ensures Waiting(p, env, i, k) == Waiting(q, env, i + 1, k) {
      WaitingFromNext(p, env, i, k);
    }
    hide Waiting;
  }

  /** The usable ones, in order, the first being the i-th. */
  function Usable(bodies: seq<bytes>, env: nat -> Around, i: nat): seq<bytes>
    decreases |bodies|
  {
    if bodies == [] then [] else (if env(i).usable then [bodies[0]] else []) + Usable(bodies[1..], env, i + 1)
  }

  lemma {:induction false} TurnedAwayGrows(w: Worker, bodies: seq<bytes>, env: nat -> Around, i: nat)
    ensures w.turnedAway <= MeetAll(w, bodies, env, i).turnedAway
    decreases |bodies|
  {
    if bodies != [] && !w.stopped {
      TurnedAwayGrows(Meet(w, bodies[0], env(i)), bodies[1..], env, i + 1);
    }
  }

  /** No connection is turned away just when each usable arrival finds fewer than 1024 waiting
      and an open loop; then every usable one is adopted, in order, and the pump goes on. */
  lemma {:induction false} NoneTurnedAwayIff(w: Worker, bodies: seq<bytes>, env: nat -> Around, i: nat)
    requires !w.stopped
    ensures var v := MeetAll(w, bodies, env, i);
      && (v.turnedAway == w.turnedAway <==> RoomForAll(w.pending, env, i, |bodies|))
      && (v.turnedAway == w.turnedAway ==> !v.stopped && v.adopted == w.adopted + Usable(bodies, env, i))
    decreases |bodies|
  {
    if bodies == [] {
      assert w.adopted + [] == w.adopted;
    } else {
      var v, e := Meet(w, bodies[0], env(i)), env(i);
      RoomForRest(w.pending, env, i, |bodies|);
      TurnedAwayGrows(v, bodies[1..], env, i + 1);
      if !v.stopped {
        NoneTurnedAwayIff(v, bodies[1..], env, i + 1);
      }
      Regrouped(w.adopted, if e.usable then [bodies[0]] else [], Usable(bodies[1..], env, i + 1));
      assert w.adopted + [] == w.adopted;
      hide RoomForAll, Usable;
    }
  }
}
