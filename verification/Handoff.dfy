/** A spawned worker's handoff queue as atomic steps: threads offering connections, threads
    requesting a stop, and the one writer, in any order, before `close()` is called. */
module Handoff {
  import opened Words

  /** Connections the queue holds at most. */
  const CAPACITY: nat := 256

  /** `None` is the marker `request_stop` queues to wake the writer. */
  type Entry = Option<nat>

  datatype Frame = ConnFrame(conn: nat) | StopFrame

  /** A thread outside the queue, between the two checks of `offer`, past them, or between
      setting the stop flag and queuing the marker. */
  datatype Caller = Outside | Checking(conn: nat) | Ready(conn: nat) | Stopping

  datatype Writer =
    | Getting
    | Holding(conn: nat)
    | Sent(conn: nat)       // on the wire, our copy not closed yet
    | Failed(conn: nat)     // the send raised, our copy not closed yet
    | CheckStop
    | CheckEmpty
    | SendingStop
    | Raised
    | Dropping
    | DropOne(conn: nat)
    | Exited

  datatype State = State(
    queue: seq<Entry>,
    stopRequested: bool,
    broken: bool,
    callers: map<nat, Caller>,
    writer: Writer,
    accepted: seq<nat>,     // every connection ever queued, in order
    sent: seq<nat>,         // sent and closed
    unsent: seq<nat>,       // closed without being sent
    wire: seq<Frame>,       // frames written whole
    stopAt: nat)            // connections accepted before the first request_stop

  datatype Action =
    | OfferBegin(t: nat, conn: nat)
    | OfferCheckStop(t: nat)
    | OfferPut(t: nat)
    | OfferFull(t: nat)
    | StopFlag(t: nat)
    | StopPut(t: nat)
    | Get
    | SendOk
    | SendFails
    | CloseSent
    | CloseFailed
    | TestStop
    | TestEmpty
    | StopSent
    | StopFails
    | MarkBroken
    | DropGet
    | DropClose

  datatype Actor = Calling(t: nat) | Writing

  function Init(): State {
    State([], false, false, map[], Getting, [], [], [], [], 0)
  }

  function At(s: State, t: nat): Caller {
    if t in s.callers then s.callers[t] else Outside
  }

  function Who(a: Action): Actor {
    if a.OfferBegin? || a.OfferCheckStop? || a.OfferPut? || a.OfferFull? || a.StopFlag? || a.StopPut? then Calling(a.t)
    else Writing
  }

  predicate Enabled(s: State, a: Action) {
    match a
    case OfferBegin(t, _) => At(s, t) == Outside
    case OfferCheckStop(t) => At(s, t).Checking?
    case OfferPut(t) => At(s, t).Ready? && |s.queue| < CAPACITY
    case OfferFull(t) => At(s, t).Ready? && |s.queue| >= CAPACITY
    case StopFlag(t) => At(s, t) == Outside
    case StopPut(t) => At(s, t) == Stopping
    case Get => s.writer == Getting && s.queue != []
    case SendOk => s.writer.Holding?
    case SendFails => s.writer.Holding?
    case CloseSent => s.writer.Sent?
    case CloseFailed => s.writer.Failed?
    case TestStop => s.writer == CheckStop
    case TestEmpty => s.writer == CheckEmpty
    case StopSent => s.writer == SendingStop
    case StopFails => s.writer == SendingStop
    case MarkBroken => s.writer == Raised
    case DropGet => s.writer == Dropping
    case DropClose => s.writer.DropOne?
  }

  function Apply(s: State, a: Action): State
    requires Enabled(s, a)
  {
    match a
    case OfferBegin(t, conn) => s.(callers := s.callers[t := if s.broken then Outside else Checking(conn)])
    case OfferCheckStop(t) => s.(callers := s.callers[t := if s.stopRequested then Outside else Ready(At(s, t).conn)])
    case OfferPut(t) =>
      s.(callers := s.callers[t := Outside], queue := s.queue + [Some(At(s, t).conn)],
         accepted := s.accepted + [At(s, t).conn])
    case OfferFull(t) => s.(callers := s.callers[t := Outside])
    case StopFlag(t) =>
      s.(callers := s.callers[t := Stopping], stopRequested := true,
         stopAt := if s.stopRequested then s.stopAt else |s.accepted|)
    case StopPut(t) =>
      s.(callers := s.callers[t := Outside], queue := if |s.queue| < CAPACITY then s.queue + [None] else s.queue)
    case Get => s.(queue := s.queue[1..], writer := if s.queue[0].Some? then Holding(s.queue[0].value) else CheckStop)
    case SendOk => s.(writer := Sent(s.writer.conn), wire := s.wire + [ConnFrame(s.writer.conn)])
    case SendFails => s.(writer := Failed(s.writer.conn))
    case CloseSent => s.(writer := CheckStop, sent := s.sent + [s.writer.conn])
    case CloseFailed => s.(writer := Raised, unsent := s.unsent + [s.writer.conn])
    case TestStop => s.(writer := if s.stopRequested then CheckEmpty else Getting)
    case TestEmpty => s.(writer := if s.queue == [] then SendingStop else Getting)
    case StopSent => s.(writer := Dropping, wire := s.wire + [StopFrame])
    case StopFails => s.(writer := Raised)
    case MarkBroken => s.(writer := Dropping, broken := true)
    case DropGet =>
      if s.queue == [] then s.(writer := Exited)
      else if s.queue[0].Some? then s.(queue := s.queue[1..], writer := DropOne(s.queue[0].value))
      else s.(queue := s.queue[1..])
    case DropClose => s.(writer := Dropping, unsent := s.unsent + [s.writer.conn])
  }

  predicate Legal(log: seq<Action>)
    decreases |log|, 0
  {
    |log| == 0 || (Legal(log[..|log| - 1]) && Enabled(Exec(log[..|log| - 1]), log[|log| - 1]))
  }

  function Exec(log: seq<Action>): State
    requires Legal(log)
    decreases |log|, 1
  {
    if |log| == 0 then Init() else Apply(Exec(log[..|log| - 1]), log[|log| - 1])
  }

  lemma Extend(log: seq<Action>, a: Action)
    requires Legal(log) && Enabled(Exec(log), a)
    ensures Legal(log + [a]) && Exec(log + [a]) == Apply(Exec(log), a)
  {
    assert (log + [a])[..|log|] == log;
  }

  // ---- ownership ----

  function Conns(q: seq<Entry>): seq<nat> {
    if q == [] then [] else (if q[0].Some? then [q[0].value] else []) + Conns(q[1..])
  }

  lemma {:induction false} ConnsAppend(q: seq<Entry>, e: Entry)
    ensures Conns(q + [e]) == Conns(q) + (if e.Some? then [e.value] else [])
    decreases |q|
  {
    if q == [] {
      assert q + [e] == [e] && Conns([e][1..]) == [];
    } else {
      assert (q + [e])[1..] == q[1..] + [e];
      ConnsAppend(q[1..], e);
      var a, b := if q[0].Some? then [q[0].value] else [], if e.Some? then [e.value] else [];
      assert Conns(q) == a + Conns(q[1..]);
      assert Conns(q + [e]) == a + (Conns(q[1..]) + b);
      assert a + (Conns(q[1..]) + b) == a + Conns(q[1..]) + b;
    }
  }

  /** The connection in the writer's hands. */
  function Held(w: Writer): seq<nat> {
    if w.Holding? || w.Sent? || w.Failed? || w.DropOne? then [w.conn] else []
  }

  function ConnFrames(cs: seq<nat>): (f: seq<Frame>)
    ensures |f| == |cs|
  {
    seq(|cs|, i requires 0 <= i < |cs| => ConnFrame(cs[i]))
  }

  /** The writer has stopped sending connections for good. */
  predicate Finishing(w: Writer) {
    w == Raised || w == Dropping || w.DropOne? || w == Exited
  }

  /** The writer is out of its sending loop. */
  predicate Leaving(w: Writer) {
    w == Dropping || w.DropOne? || w == Exited
  }

  /** Queued connections are accepted ones, in order, each owned in exactly one place. */
  predicate Owned(s: State) {
    && s.accepted == s.sent + s.unsent + Held(s.writer) + Conns(s.queue)
    && |s.queue| <= CAPACITY
    && (s.unsent != [] ==> Finishing(s.writer))
  }

  /** The connections written to the channel. */
  function Written(s: State): seq<nat> {
    if s.writer.Sent? then s.sent + [s.writer.conn] else s.sent
  }

  /** The wire carries the sent connections in order, then at most one STOP. */
  predicate WireOrder(s: State) {
    || s.wire == ConnFrames(Written(s))
    || (s.wire == ConnFrames(Written(s)) + [StopFrame] && Leaving(s.writer))
  }

  predicate StopWasSent(s: State) {
    |s.wire| > 0 && s.wire[|s.wire| - 1] == StopFrame
  }

  /** STOP follows everything accepted before it was asked for. */
  predicate StopAfterBacklog(s: State) {
    && s.stopAt <= |s.accepted|
    && (s.writer == CheckEmpty || s.writer == SendingStop || StopWasSent(s) ==> s.stopRequested)
    && (s.writer == SendingStop || StopWasSent(s) ==> s.stopAt <= |s.sent|)
    && (s.broken ==> Leaving(s.writer))
    && (Leaving(s.writer) ==> StopWasSent(s) != s.broken)
  }

  ghost predicate MarkerPending(s: State) {
    exists t :: t in s.callers && s.callers[t] == Stopping
  }

  /** Once a stop is requested the writer does not wait on an empty queue. */
  ghost predicate NeverBlocked(s: State) {
    s.stopRequested && s.writer == Getting ==> s.queue != [] || MarkerPending(s)
  }

  ghost predicate Inv(s: State) {
    Owned(s) && WireOrder(s) && StopAfterBacklog(s) && NeverBlocked(s)
  }

  lemma OwnedPut(s: State, a: Action)
    requires Owned(s) && Enabled(s, a) && (a.OfferPut? || a.StopPut?)
    ensures Owned(Apply(s, a))
  {
    var front := s.sent + s.unsent + Held(s.writer);
    if a.OfferPut? {
      var c := [At(s, a.t).conn];
      ConnsAppend(s.queue, Some(At(s, a.t).conn));
      assert front + (Conns(s.queue) + c) == front + Conns(s.queue) + c;
    } else {
      ConnsAppend(s.queue, None);
      assert Conns(s.queue) + [] == Conns(s.queue);
    }
  }

  lemma OwnedGet(s: State, a: Action)
    requires Owned(s) && Enabled(s, a) && (a == Get || a == DropGet)
    ensures Owned(Apply(s, a))
  {
    if s.queue != [] {
      var c := if s.queue[0].Some? then [s.queue[0].value] else [];
      var front, rest := s.sent + s.unsent, Conns(s.queue[1..]);
      assert front + [] + (c + rest) == front + c + rest;
    }
  }

  lemma OwnedClose(s: State, a: Action)
    requires Owned(s) && Enabled(s, a) && (a == CloseSent || a == CloseFailed || a == DropClose)
    ensures Owned(Apply(s, a))
  {
    var c, rest := [s.writer.conn], Conns(s.queue);
    assert s.sent + s.unsent + c + rest == s.sent + (s.unsent + c) + [] + rest;
    assert s.sent + [] + c + rest == (s.sent + c) + [] + [] + rest;
  }

  lemma OwnedStep(s: State, a: Action)
    requires Owned(s) && Enabled(s, a)
    ensures Owned(Apply(s, a))
  {
    if a.OfferPut? || a.StopPut? {
      OwnedPut(s, a);
    } else if a == Get || a == DropGet {
      OwnedGet(s, a);
    } else if a == CloseSent || a == CloseFailed || a == DropClose {
      OwnedClose(s, a);
    } else {
      assert Held(Apply(s, a).writer) == Held(s.writer);
    }
  }

  lemma WireStep(s: State, a: Action)
    requires Owned(s) && WireOrder(s) && Enabled(s, a)
    ensures WireOrder(Apply(s, a))
  {
    if a == SendOk {
      assert ConnFrames(s.sent + [s.writer.conn]) == ConnFrames(s.sent) + [ConnFrame(s.writer.conn)];
    }
  }

  /** STOP on the wire means the writer has left; only sending it puts it there. */
  lemma WireEnd(s: State, a: Action)
    requires WireOrder(s) && Enabled(s, a)
    ensures StopWasSent(s) ==> Leaving(s.writer)
    ensures StopWasSent(Apply(s, a)) == (a == StopSent || StopWasSent(s))
  {
  }

  lemma NothingPending(s: State)
    requires Owned(s) && s.writer == CheckEmpty && s.queue == []
    ensures s.accepted == s.sent
  {
  }

  lemma CallerStopStep(s: State, a: Action)
    requires StopAfterBacklog(s) && Enabled(s, a) && Who(a).Calling?
    requires StopWasSent(Apply(s, a)) == StopWasSent(s)
    ensures StopAfterBacklog(Apply(s, a))
  {
    hide StopWasSent;
    assert Apply(s, a).writer == s.writer && |s.accepted| <= |Apply(s, a).accepted|;
  }

  lemma WriterStopStep(s: State, a: Action)
    requires StopAfterBacklog(s) && Enabled(s, a) && Who(a) == Writing
    requires StopWasSent(s) ==> Leaving(s.writer)
    requires StopWasSent(Apply(s, a)) == (a == StopSent || StopWasSent(s))
    requires a == TestEmpty && s.queue == [] ==> s.accepted == s.sent
    ensures StopAfterBacklog(Apply(s, a))
  {
    hide StopWasSent;
    assert |s.sent| <= |Apply(s, a).sent|;
  }

  lemma StopStep(s: State, a: Action)
    requires Owned(s) && WireOrder(s) && StopAfterBacklog(s) && Enabled(s, a)
    ensures StopAfterBacklog(Apply(s, a))
  {
    WireEnd(s, a);
    if a == TestEmpty && s.queue == [] {
      NothingPending(s);
    }
    hide Owned, WireOrder, StopWasSent, StopAfterBacklog, Apply;
    if Who(a).Calling? {
      CallerStopStep(s, a);
    } else {
      WriterStopStep(s, a);
    }
  }

  lemma BlockStep(s: State, a: Action)
    requires Owned(s) && NeverBlocked(s) && Enabled(s, a)
    ensures NeverBlocked(Apply(s, a))
  {
    var s' := Apply(s, a);
    if a.StopFlag? {
      assert s'.callers[a.t] == Stopping;
    } else if MarkerPending(s) && !a.StopPut? {
      var t :| t in s.callers && s.callers[t] == Stopping;
      assert s'.callers[t] == Stopping;
    }
  }

  lemma StepKeepsInv(s: State, a: Action)
    requires Inv(s) && Enabled(s, a)
    ensures Inv(Apply(s, a))
  {
    OwnedStep(s, a);
    WireStep(s, a);
    StopStep(s, a);
    BlockStep(s, a);
  }

  lemma {:induction false} AlwaysInv(log: seq<Action>)
    requires Legal(log)
    ensures var s := Exec(log);
      Owned(s) && WireOrder(s) && StopAfterBacklog(s) && NeverBlocked(s)
    decreases |log|
  {
    if |log| > 0 {
      AlwaysInv(log[..|log| - 1]);
      StepKeepsInv(Exec(log[..|log| - 1]), log[|log| - 1]);
    }
  }

  /** Every accepted connection is in exactly one place, and connections leave in queue
      order: the sent ones are the oldest, then the dropped ones, then the one in hand. */
  lemma {:induction false} Ownership(log: seq<Action>)
    requires Legal(log)
    ensures var s := Exec(log);
      && s.accepted == s.sent + s.unsent + Held(s.writer) + Conns(s.queue)
      && multiset(s.accepted)
         == multiset(s.sent) + multiset(s.unsent) + multiset(Held(s.writer)) + multiset(Conns(s.queue))
  {
    AlwaysInv(log);
  }

  /** STOP is written at most once, last, and behind every connection accepted before the
      first request_stop; a channel that broke gets none. */
  lemma {:induction false} StopIsLast(log: seq<Action>)
    requires Legal(log) && StopFrame in Exec(log).wire
    ensures var s := Exec(log);
      && s.wire == ConnFrames(s.sent) + [StopFrame] && !s.broken && s.stopRequested
      && s.stopAt <= |s.sent| && s.sent <= s.accepted
  {
    AlwaysInv(log);
    var s := Exec(log);
    assert StopFrame !in ConnFrames(Written(s));
  }

  /** All other threads are outside their calls. */
  ghost predicate Quiet(s: State) {
    forall t :: At(s, t) == Outside
  }

  function Rank(w: Writer): nat {
    match w
    case Holding(_) => 9
    case Sent(_) => 8
    case Failed(_) => 8
    case CheckStop => 7
    case CheckEmpty => 6
    case SendingStop => 5
    case Getting => 5
    case Raised => 4
    case DropOne(_) => 3
    case Dropping => 2
    case Exited => 0
  }

  /** Steps the writer can still take, at most. */
  function Measure(s: State): nat {
    10 * |s.queue| + Rank(s.writer)
  }

  ghost predicate WriterCanStep(s: State) {
    exists a :: Who(a) == Writing && Enabled(s, a)
  }

  /** With a stop requested and the callers done, the writer always has a step, and every
      step it can take brings it closer to its exit: it sends STOP or finds the channel broken. */
  lemma {:induction false} StopTerminates(log: seq<Action>, a: Action)
    requires Legal(log) && Exec(log).stopRequested && Quiet(Exec(log))
    ensures Exec(log).writer != Exited ==> WriterCanStep(Exec(log))
    ensures Who(a) == Writing && Enabled(Exec(log), a) ==> Measure(Apply(Exec(log), a)) < Measure(Exec(log))
  {
    AlwaysInv(log);
    var s := Exec(log);
    hide Legal, Exec, Owned, WireOrder, StopAfterBacklog;
    forall t | t in s.callers ensures s.callers[t] != Stopping {
      assert At(s, t) == Outside;
    }
    WriterHasStep(s);
    if Who(a) == Writing && Enabled(s, a) {
      WriterAdvances(s, a);
    }
  }

  lemma WriterAdvances(s: State, a: Action)
    requires s.stopRequested && Who(a) == Writing && Enabled(s, a)
    ensures Measure(Apply(s, a)) < Measure(s)
  {
  }

  lemma WriterHasStep(s: State)
    requires s.writer == Getting ==> s.queue != []
    ensures s.writer != Exited ==> WriterCanStep(s)
  {
    var step := match s.writer
      case Getting => Get
      case Holding(_) => SendOk
      case Sent(_) => CloseSent
      case Failed(_) => CloseFailed
      case CheckStop => TestStop
      case CheckEmpty => TestEmpty
      case SendingStop => StopSent
      case Raised => MarkBroken
      case Dropping => DropGet
      case DropOne(_) => DropClose
      case Exited => Get;
    assert s.writer != Exited ==> Who(step) == Writing && Enabled(s, step);
  }

  /** A writer that has left its loop either wrote STOP or marked the channel broken. */
  lemma {:induction false} ExitExplained(log: seq<Action>)
    requires Legal(log) && Leaving(Exec(log).writer)
    ensures Exec(log).broken <==> StopFrame !in Exec(log).wire
  {
    AlwaysInv(log);
    var s := Exec(log);
    assert StopFrame !in ConnFrames(Written(s));
  }

  // ---- what a thread may rely on ----

  predicate OthersOnly(log: seq<Action>, from: nat, me: Actor) {
    forall i :: from <= i < |log| ==> Who(log[i]) != me
  }

  /** While others run: a thread's own place, flags that only rise, histories that only grow;
      and the writer alone takes from the queue, sends and closes. */
  predicate Stable(s: State, s': State, me: Actor) {
    && s.accepted <= s'.accepted
    && (s.stopRequested ==> s'.stopRequested)
    && (me.Calling? ==> At(s', me.t) == At(s, me.t))
    && (me == Writing ==> s'.writer == s.writer && s'.sent == s.sent && s'.unsent == s.unsent && s'.wire == s.wire &&
                          s'.broken == s.broken && s.queue <= s'.queue)
  }

  lemma OtherStep(s: State, a: Action, me: Actor)
    requires Enabled(s, a) && Who(a) != me
    ensures Stable(s, Apply(s, a), me)
  {
  }

  lemma {:induction false} OthersKeep(log: seq<Action>, from: nat, me: Actor)
    requires Legal(log) && from <= |log| && Legal(log[..from]) && OthersOnly(log, from, me)
    ensures Stable(Exec(log[..from]), Exec(log), me)
    decreases |log|
  {
    if from < |log| {
      var shorter := log[..|log| - 1];
      assert shorter[..from] == log[..from];
      OthersKeep(shorter, from, me);
      OtherStep(Exec(shorter), log[|log| - 1], me);
    } else {
      assert log[..from] == log;
    }
  }
}
