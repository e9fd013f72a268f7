/** The cross-thread handoff as atomic steps of any number of producers and one consumer,
    in any order, on sequentially consistent memory. */
module Handover {

  /** A producer between calls, between its enqueue and its swap (of item `at` of the
      history), or owing the wakeup its swap asked for. */
  datatype Producer = Idle | Enqueued(timer: bool, at: nat) | Owes

  /** The consumer's place in `drain_into`, or parked in the poll. */
  datatype Consumer =
    | Parked
    | Awake
    | FlagSeen
    | Cleared
    | PopItems(left: nat)
    | AtTimers
    | TimersSeen
    | PopTimers(left: nat)
    | Done

  datatype State<T> = State(
    queue: seq<T>,
    timers: seq<(int, T)>,
    flag: bool,
    tokens: nat,             // wakeups posted and not yet taken by the consumer
    prod: map<nat, Producer>,
    cons: Consumer,
    pushed: seq<T>,          // every callback ever enqueued, in order
    pushedTimers: seq<(int, T)>,
    ran: seq<T>,             // every callback ever popped, in order
    ranTimers: seq<(int, T)>,
    wakes: nat,              // pushes that returned true
    clears: nat)             // times the flag was cleared

  datatype Action<T> =
    | Enqueue(p: nat, item: T)
    | EnqueueTimer(p: nat, deadline: int, item: T)
    | SwapTrue(p: nat)
    | PostWakeup(p: nat)
    | Park
    | Wake(taken: nat)       // leaves the poll, taking this many tokens
    | LoadFlag
    | SwapFalse
    | ReadLen
    | PopItem
    | ItemsDone
    | TestTimers
    | ReadTimersLen
    | PopTimer
    | TimersDone

  datatype Actor = Producing(p: nat) | Consuming

  function Init<T>(): State<T> {
    State([], [], false, 0, map[], Done, [], [], [], [], 0, 0)
  }

  function Pc<T>(s: State<T>, p: nat): Producer {
    if p in s.prod then s.prod[p] else Idle
  }

  function Who<T>(a: Action<T>): Actor {
    if a.Enqueue? || a.EnqueueTimer? || a.SwapTrue? || a.PostWakeup? then Producing(a.p) else Consuming
  }

  predicate Enabled<T>(s: State<T>, a: Action<T>) {
    match a
    case Enqueue(p, _) => Pc(s, p) == Idle
    case EnqueueTimer(p, _, _) => Pc(s, p) == Idle
    case SwapTrue(p) => Pc(s, p).Enqueued?
    case PostWakeup(p) => Pc(s, p) == Owes
    case Park => s.cons == Done
    case Wake(taken) => s.cons in {Parked, Done} && taken <= s.tokens
    case LoadFlag => s.cons == Awake
    case SwapFalse => s.cons == FlagSeen
    case ReadLen => s.cons == Cleared
    case PopItem => s.cons.PopItems? && s.cons.left > 0
    case ItemsDone => s.cons == PopItems(0)
    case TestTimers => s.cons == AtTimers
    case ReadTimersLen => s.cons == TimersSeen
    case PopTimer => s.cons.PopTimers? && s.cons.left > 0
    case TimersDone => s.cons == PopTimers(0)
  }

  /** A pop that found its queue empty would leave its loop early. */
  function Apply<T>(s: State<T>, a: Action<T>): State<T>
    requires Enabled(s, a)
  {
    match a
    case Enqueue(p, item) =>
      s.(queue := s.queue + [item], pushed := s.pushed + [item], prod := s.prod[p := Enqueued(false, |s.pushed|)])
    case EnqueueTimer(p, deadline, item) =>
      s.(timers := s.timers + [(deadline, item)], pushedTimers := s.pushedTimers + [(deadline, item)],
         prod := s.prod[p := Enqueued(true, |s.pushedTimers|)])
    case SwapTrue(p) =>
      s.(flag := true, prod := s.prod[p := if s.flag then Idle else Owes], wakes := s.wakes + if s.flag then 0 else 1)
    case PostWakeup(p) => s.(tokens := s.tokens + 1, prod := s.prod[p := Idle])
    case Park => s.(cons := Parked)
    case Wake(taken) => s.(cons := Awake, tokens := s.tokens - taken)
    case LoadFlag => s.(cons := if s.flag then FlagSeen else Done)
    case SwapFalse => s.(cons := Cleared, flag := false, clears := s.clears + 1)
    case ReadLen => s.(cons := PopItems(|s.queue|))
    case PopItem =>
      if s.queue == [] then s.(cons := AtTimers)
      else s.(queue := s.queue[1..], ran := s.ran + [s.queue[0]], cons := PopItems(s.cons.left - 1))
    case ItemsDone => s.(cons := AtTimers)
    case TestTimers => s.(cons := if s.timers == [] then Done else TimersSeen)
    case ReadTimersLen => s.(cons := PopTimers(|s.timers|))
    case PopTimer =>
      if s.timers == [] then s.(cons := Done)
      else s.(timers := s.timers[1..], ranTimers := s.ranTimers + [s.timers[0]], cons := PopTimers(s.cons.left - 1))
    case TimersDone => s.(cons := Done)
  }

  /** Every action is enabled when it is taken. */
  predicate Legal<T>(log: seq<Action<T>>)
    decreases |log|, 0
  {
    |log| == 0 || (Legal(log[..|log| - 1]) && Enabled(Exec(log[..|log| - 1]), log[|log| - 1]))
  }

  function Exec<T>(log: seq<Action<T>>): State<T>
    requires Legal(log)
    decreases |log|, 1
  {
    if |log| == 0 then Init() else Apply(Exec(log[..|log| - 1]), log[|log| - 1])
  }

  lemma Extend<T>(log: seq<Action<T>>, a: Action<T>)
    requires Legal(log) && Enabled(Exec(log), a)
    ensures Legal(log + [a]) && Exec(log + [a]) == Apply(Exec(log), a)
  {
    assert (log + [a])[..|log|] == log;
  }

  /** Some producer enqueued item k and has not swapped the flag yet. */
  ghost predicate Unfinished<T>(s: State<T>, timer: bool, k: nat) {
    exists p :: p in s.prod && s.prod[p] == Enqueued(timer, k)
  }

  ghost predicate WakeupOwed<T>(s: State<T>) {
    exists p :: p in s.prod && s.prod[p] == Owes
  }

  /** The drain under way will pop callback k. */
  predicate WillPop<T>(s: State<T>, k: nat) {
    s.cons == Cleared || (s.cons.PopItems? && k < |s.ran| + s.cons.left)
  }

  predicate WillPopTimer<T>(s: State<T>, k: nat) {
    || s.cons == Cleared || s.cons.PopItems? || s.cons == AtTimers || s.cons == TimersSeen
    || (s.cons.PopTimers? && k < |s.ranTimers| + s.cons.left)
  }

  /** Whoever is queued is announced by the flag, about to be announced, or about to be popped. */
  ghost predicate Covered<T>(s: State<T>) {
    && (forall k {:trigger Unfinished(s, false, k)} :: |s.ran| <= k < |s.pushed| ==>
          s.flag || WillPop(s, k) || Unfinished(s, false, k))
    && (forall k {:trigger Unfinished(s, true, k)} :: |s.ranTimers| <= k < |s.pushedTimers| ==>
          s.flag || WillPopTimer(s, k) || Unfinished(s, true, k))
  }

  /** A raised flag is never overlooked: the consumer is about to read it, or will be woken. */
  ghost predicate FlagSeenSoon<T>(s: State<T>) {
    s.flag ==> s.cons == Awake || s.cons == FlagSeen || s.tokens > 0 || WakeupOwed(s)
  }

  ghost predicate Inv<T>(s: State<T>) {
    && s.pushed == s.ran + s.queue && s.pushedTimers == s.ranTimers + s.timers
    && (s.cons == FlagSeen ==> s.flag)
    && (s.cons.PopItems? ==> s.cons.left <= |s.queue|)
    && (s.cons.PopTimers? ==> s.cons.left <= |s.timers|)
    && s.wakes == s.clears + (if s.flag then 1 else 0)
    && Covered(s) && FlagSeenSoon(s)
  }

  lemma CoveredStep<T>(s: State<T>, a: Action<T>)
    requires Inv(s) && Enabled(s, a)
    ensures Covered(Apply(s, a))
  {
    var s' := Apply(s, a);
    forall k | |s'.ran| <= k < |s'.pushed| ensures s'.flag || WillPop(s', k) || Unfinished(s', false, k) {
      if a.Enqueue? && k == |s.pushed| {
        assert s'.prod[a.p] == Enqueued(false, k);
      } else if Unfinished(s, false, k) {
        var p :| p in s.prod && s.prod[p] == Enqueued(false, k);
        assert s'.flag || s'.prod[p] == Enqueued(false, k);
      }
    }
    forall k | |s'.ranTimers| <= k < |s'.pushedTimers|
      ensures s'.flag || WillPopTimer(s', k) || Unfinished(s', true, k)
    {
      if a.EnqueueTimer? && k == |s.pushedTimers| {
        assert s'.prod[a.p] == Enqueued(true, k);
      } else if Unfinished(s, true, k) {
        var p :| p in s.prod && s.prod[p] == Enqueued(true, k);
        assert s'.flag || s'.prod[p] == Enqueued(true, k);
      }
    }
  }

  lemma FlagStep<T>(s: State<T>, a: Action<T>)
    requires Inv(s) && Enabled(s, a)
    ensures FlagSeenSoon(Apply(s, a))
  {
    var s' := Apply(s, a);
    if a.SwapTrue? && !s.flag {
      assert s'.prod[a.p] == Owes;
    } else if WakeupOwed(s) {
      var p :| p in s.prod && s.prod[p] == Owes;
      assert s'.tokens > 0 || s'.prod[p] == Owes;
    }
  }

  lemma StepKeepsInv<T>(s: State<T>, a: Action<T>)
    requires Inv(s) && Enabled(s, a)
    ensures Inv(Apply(s, a))
  {
    CoveredStep(s, a);
    FlagStep(s, a);
  }

  lemma {:induction false} AlwaysInv<T>(log: seq<Action<T>>)
    requires Legal(log)
    ensures Inv(Exec(log))
    decreases |log|
  {
    if |log| > 0 {
      AlwaysInv(log[..|log| - 1]);
      StepKeepsInv(Exec(log[..|log| - 1]), log[|log| - 1]);
    }
  }

  /** No lost wakeup: in every interleaving, a parked consumer with a finished push still
      queued has a wakeup outstanding or owed. */
  lemma {:induction false} NoLostWakeup<T>(log: seq<Action<T>>, timer: bool, k: nat)
    requires Legal(log) && Exec(log).cons == Parked
    requires if timer then |Exec(log).ranTimers| <= k < |Exec(log).pushedTimers|
             else |Exec(log).ran| <= k < |Exec(log).pushed|
    requires !Unfinished(Exec(log), timer, k)
    ensures Exec(log).tokens > 0 || WakeupOwed(Exec(log))
  {
    AlwaysInv(log);
  }

  /** Once every producer is between calls and no wakeup is outstanding, a parked consumer
      has everything, in the order it was pushed. */
  lemma {:induction false} QuietMeansDelivered<T>(log: seq<Action<T>>)
    requires Legal(log) && Exec(log).cons == Parked && Exec(log).tokens == 0
    requires forall p :: Pc(Exec(log), p) == Idle
    ensures Exec(log).ran == Exec(log).pushed && Exec(log).ranTimers == Exec(log).pushedTimers
  {
    AlwaysInv(log);
    var s := Exec(log);
    assert !WakeupOwed(s) by {
      forall p | p in s.prod ensures s.prod[p] != Owes {
        assert Pc(s, p) == Idle;
      }
    }
    forall timer, k ensures !Unfinished(s, timer, k) {
      forall p | p in s.prod ensures s.prod[p] != Enqueued(timer, k) {
        assert Pc(s, p) == Idle;
      }
    }
    if s.queue != [] {
      NoLostWakeup(log, false, |s.ran|);
    } else if s.timers != [] {
      NoLostWakeup(log, true, |s.ranTimers|);
    }
  }

  function Rank(c: Consumer): nat {
    match c
    case Awake => 8
    case FlagSeen => 7
    case Cleared => 6
    case PopItems(_) => 5
    case AtTimers => 4
    case TimersSeen => 3
    case PopTimers(_) => 2
    case Done => 1
    case Parked => 0
  }

  /** What stands between the consumer and a quiet park. */
  function Pending<T>(s: State<T>): nat {
    10 * s.tokens + |s.queue| + |s.timers| + Rank(s.cons)
  }

  /** A step of the consumer other than leaving the poll without a wakeup. */
  predicate Advances<T>(s: State<T>, a: Action<T>) {
    Who(a) == Consuming && Enabled(s, a) && a != Wake(0)
  }

  /** Its next step, if it is not parked for want of a wakeup. */
  function NextStep<T>(s: State<T>): Action<T> {
    match s.cons
    case Awake => LoadFlag
    case FlagSeen => SwapFalse
    case Cleared => ReadLen
    case PopItems(left) => if left > 0 then PopItem else ItemsDone
    case AtTimers => TestTimers
    case TimersSeen => ReadTimersLen
    case PopTimers(left) => if left > 0 then PopTimer else TimersDone
    case Done => Park
    case Parked => Wake(s.tokens)
  }

  predicate AllIdle<T>(s: State<T>) {
    forall p :: p in s.prod ==> s.prod[p] == Idle
  }

  predicate QuietPark<T>(s: State<T>) {
    s.cons == Parked && s.tokens == 0
  }

  /** With the producers between calls, the consumer has such a step until it is parked with no
      wakeup outstanding, and each brings it nearer. */
  lemma StepTowardsQuiet<T>(s: State<T>, a: Action<T>)
    requires AllIdle(s)
    ensures QuietPark(s) <==> !Advances(s, NextStep(s))
    ensures Advances(s, a) ==> !QuietPark(s) && Pending(Apply(s, a)) < Pending(s) && AllIdle(Apply(s, a))
  {
  }

  /** So once the producers are between calls the quiet state is reached, within that many
      steps, whichever the consumer takes; and then everything pushed was delivered. */
  lemma {:induction false} QuietIsReached<T>(log: seq<Action<T>>, more: seq<Action<T>>)
    requires Legal(log) && AllIdle(Exec(log)) && Legal(log + more)
    requires forall i :: 0 <= i < |more| ==> Who(more[i]) == Consuming && more[i] != Wake(0)
    ensures |more| + Pending(Exec(log + more)) <= Pending(Exec(log)) && AllIdle(Exec(log + more))
    ensures var s := Exec(log + more);
      if Advances(s, NextStep(s)) then Legal(log + more + [NextStep(s)])
      else s.ran == s.pushed && s.ranTimers == s.pushedTimers
    decreases |more|
  {
    if more == [] {
      assert log + more == log;
    } else {
      var n := |more| - 1;
      assert (log + more)[..|log + more| - 1] == log + more[..n];
      QuietIsReached(log, more[..n]);
      StepTowardsQuiet(Exec(log + more[..n]), more[n]);
    }
    var s := Exec(log + more);
    StepTowardsQuiet(s, NextStep(s));
    if Advances(s, NextStep(s)) {
      Extend(log + more, NextStep(s));
    } else {
      QuietMeansDelivered(log + more);
    }
  }

  /** Nothing is lost, duplicated or reordered, and one flag clear costs at most one wakeup. */
  lemma {:induction false} ConservedAndCollapsed<T>(log: seq<Action<T>>)
    requires Legal(log)
    ensures var s := Exec(log);
      && s.ran + s.queue == s.pushed && s.ranTimers + s.timers == s.pushedTimers
      && s.wakes == s.clears + (if s.flag then 1 else 0) <= s.clears + 1
  {
    AlwaysInv(log);
  }

  /** Callbacks popped so far plus those the drain under way still means to pop. */
  function ItemQuota<T>(s: State<T>): nat {
    |s.ran| + if s.cons.PopItems? then s.cons.left else 0
  }

  function TimerQuota<T>(s: State<T>): nat {
    |s.ranTimers| + if s.cons.PopTimers? then s.cons.left else 0
  }

  lemma QuotaStep<T>(s: State<T>, a: Action<T>)
    requires Enabled(s, a)
    ensures !a.ReadLen? ==> ItemQuota(Apply(s, a)) <= ItemQuota(s)
    ensures !a.ReadTimersLen? ==> TimerQuota(Apply(s, a)) <= TimerQuota(s)
  {
  }

  /** From one length read to the next, no more is popped than had been pushed by the first:
      producers cannot keep a drain busy. */
  lemma {:induction false} DrainIsBounded<T>(log: seq<Action<T>>, at: nat)
    requires Legal(log) && at < |log| && Legal(log[..at + 1])
    ensures log[at] == ReadLen && (forall i :: at < i < |log| ==> log[i] != ReadLen) ==>
      |Exec(log).ran| <= ItemQuota(Exec(log)) <= |Exec(log[..at + 1]).pushed|
    ensures log[at] == ReadTimersLen && (forall i :: at < i < |log| ==> log[i] != ReadTimersLen) ==>
      |Exec(log).ranTimers| <= TimerQuota(Exec(log)) <= |Exec(log[..at + 1]).pushedTimers|
    decreases |log|
  {
    if at + 1 < |log| {
      var shorter := log[..|log| - 1];
      assert shorter[..at + 1] == log[..at + 1];
      DrainIsBounded(shorter, at);
      QuotaStep(Exec(shorter), log[|log| - 1]);
    } else {
      assert log[..at + 1] == log;
      AlwaysInv(log);
      LengthRead(Exec(log[..at]), log[at]);
    }
  }

  lemma LengthRead<T>(s: State<T>, a: Action<T>)
    requires Enabled(s, a) && Inv(Apply(s, a))
    ensures a.ReadLen? ==> ItemQuota(Apply(s, a)) == |Apply(s, a).pushed|
    ensures a.ReadTimersLen? ==> TimerQuota(Apply(s, a)) == |Apply(s, a).pushedTimers|
  {
  }

  /** The actions from `from` on are all someone else's. */
  predicate OthersOnly<T>(log: seq<Action<T>>, from: nat, me: Actor) {
    forall i :: from <= i < |log| ==> Who(log[i]) != me
  }

  /** What a thread may rely on while others run: its own place, what it alone changes, and
      that histories only grow. */
  ghost predicate Stable<T>(s: State<T>, s': State<T>, me: Actor) {
    && s.pushed <= s'.pushed && s.pushedTimers <= s'.pushedTimers
    && (me.Producing? ==> Pc(s', me.p) == Pc(s, me.p))
    && (me == Consuming ==>
          && s'.cons == s.cons && s'.ran == s.ran && s'.ranTimers == s.ranTimers
          && s'.clears == s.clears && (s.flag ==> s'.flag))
  }

  lemma OtherStep<T>(s: State<T>, a: Action<T>, me: Actor)
    requires Enabled(s, a) && Who(a) != me
    ensures Stable(s, Apply(s, a), me)
  {
  }

  lemma {:induction false} OthersKeep<T>(log: seq<Action<T>>, from: nat, me: Actor)
    requires Legal(log) && from <= |log| && Legal(log[..from]) && OthersOnly(log, from, me)
    ensures Stable(Exec(log[..from]), Exec(log), me)
    decreases |log|
  {
    if from < |log| {
      var shorter := log[..|log| - 1];
      assert shorter[..from] == log[..from];
      OthersKeep(shorter, from, me);
      OtherStep(Exec(shorter), log[|log| - 1], me);
    } else {
      assert log[..from] == log;
    }
  }
}
