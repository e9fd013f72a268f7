/** The write side of a pipe transport as a state machine over its own fields. Its inputs are
    the caller's calls, the kernel's completions and failures, and the loop running what was
    scheduled; what it promises of the byte stream is proved over every run of them. */
module PipeStream {
  import opened Words

  /** How a posted write ended. */
  datatype Outcome = Wrote(n: nat) | WriteError

  /** The transport's fields; then what surrounds it: `_call_connection_lost` calls the loop
      still has to make, connection_lost calls made, the bytes accepted and the bytes the
      kernel reported written, and whether a forced close dropped any of them. */
  datatype State = State(
    buffer: Option<bytes>,
    writeFut: bool,
    posted: Option<bytes>,
    pendingWrite: nat,
    connLost: nat,
    closing: bool,
    called: bool,
    emptyWaiter: Option<bool>,   // Some(done) while a drain waiter exists
    scheduled: nat,
    lostCalls: nat,
    accepted: bytes,
    reported: bytes,
    ruined: bool)

  /** `postOk` is whether the kernel would take a write posted during the call. */
  datatype Event =
    | Write(data: bytes, postOk: bool)
    | Done(result: Outcome, postOk: bool)
    | Close
    | Abort
    | Lost
    | MakeWaiter
    | ResetWaiter

  function Init(): State {
    State(None, false, None, 0, 0, false, false, None, 0, 0, [], [], false)
  }

  function Or(b: Option<bytes>): bytes {
    if b.Some? then b.value else []
  }

  /** Accepted and not yet reported written. */
  function Unwritten(s: State): bytes {
    Or(s.posted) + Or(s.buffer)
  }

  // ---- the transport's code ----

  function ForceClose(s: State): State {
    var t := if s.emptyWaiter == Some(false) then s.(emptyWaiter := Some(true)) else s;
    if s.closing && s.called then t
    else
      t.(closing := true, connLost := s.connLost + 1, writeFut := false, pendingWrite := 0, buffer := None,
         posted := None, scheduled := s.scheduled + 1, ruined := s.ruined || Unwritten(s) != [])
  }

  function Post(s: State, data: bytes, postOk: bool): State {
    if postOk then s.(writeFut := true, posted := Some(data), pendingWrite := |data|)
    else ForceClose(s.(ruined := true))
  }

  function Accept(s: State, data: bytes, postOk: bool): State {
    var t := s.(accepted := s.accepted + data);
    if !s.writeFut then Post(t, data, postOk)
    else if Or(s.buffer) == [] then t.(buffer := Some(data))
    else t.(buffer := Some(s.buffer.value + data))
  }

  /** Does a write of these bytes count? */
  predicate Takes(s: State, data: bytes) {
    s.emptyWaiter.None? && data != [] && s.connLost == 0
  }

  function WriteStep(s: State, data: bytes, postOk: bool): State {
    if s.emptyWaiter.Some? || data == [] then s
    else if s.connLost > 0 then s.(connLost := s.connLost + 1)
    else Accept(s, data, postOk)
  }

  function Settle(s: State): State {
    if s.emptyWaiter.Some? && !s.writeFut then s.(emptyWaiter := Some(true)) else s
  }

  /** What a short write left goes out, or else the buffer. */
  function WriteRest(s: State, short: Option<bytes>, postOk: bool): State {
    var data := if short.Some? then short else s.buffer;
    var t := if short.Some? then s else s.(buffer := None);
    Settle(if data.Some? then Post(t, data.value, postOk)
           else if s.closing then t.(scheduled := s.scheduled + 1)
           else t)
  }

  predicate Completes(s: State, result: Outcome) {
    if s.writeFut then s.posted.Some? && (result.Wrote? ==> result.n <= |s.posted.value|) else s.ruined && s.closing
  }

  function DoneStep(s: State, result: Outcome, postOk: bool): State
    requires Completes(s, result)
  {
    if !s.writeFut && s.closing then s
    else
      var t := s.(writeFut := false, pendingWrite := 0);
      if result.WriteError? then ForceClose(t)
      else
        var done := s.posted.value;
        var u := t.(posted := None, reported := s.reported + done[..result.n]);
        WriteRest(u, if result.n < |done| then Some(done[result.n..]) else None, postOk)
  }

  function CloseStep(s: State): State {
    if s.closing then s
    else
      var t := s.(closing := true, connLost := s.connLost + 1);
      if Or(s.buffer) == [] && !s.writeFut then t.(scheduled := s.scheduled + 1) else t
  }

  function LostStep(s: State): State
    requires s.scheduled > 0
  {
    var t := s.(scheduled := s.scheduled - 1);
    if s.called then t else t.(lostCalls := s.lostCalls + 1, called := true)
  }

  predicate Enabled(s: State, e: Event) {
    match e
    case Done(result, _) => Completes(s, result)
    case Lost => s.scheduled > 0
    case Write(_, _) => true
    case Close => true
    case Abort => true
    case MakeWaiter => true
    case ResetWaiter => true
  }

  function Next(s: State, e: Event): State
    requires Enabled(s, e)
  {
    match e
    case Write(data, postOk) => WriteStep(s, data, postOk)
    case Done(result, postOk) => DoneStep(s, result, postOk)
    case Close => CloseStep(s)
    case Abort => ForceClose(s)
    case Lost => LostStep(s)
    case MakeWaiter => if s.emptyWaiter.Some? then s else s.(emptyWaiter := Some(!s.writeFut))
    case ResetWaiter => s.(emptyWaiter := None)
  }

  // ---- the invariant ----

  /** How the fields hang together. */
  predicate Shape(s: State) {
    && (s.writeFut <==> s.posted.Some?) && (s.posted.Some? ==> s.posted.value != [])
    && s.pendingWrite == |Or(s.posted)|
    && (s.buffer.Some? ==> s.writeFut && s.buffer.value != [])
    && (s.closing <==> s.connLost > 0)
    && (s.emptyWaiter == Some(false) ==> s.writeFut)
    && (s.emptyWaiter == Some(true) ==> !s.writeFut)
  }

  /** No byte is lost, doubled or moved. */
  predicate Bytes(s: State) {
    if s.ruined then s.reported < s.accepted else s.accepted == s.reported + Unwritten(s)
  }

  /** connection_lost is owed exactly when nothing will be written any more. */
  predicate Ending(s: State) {
    && s.lostCalls == (if s.called then 1 else 0)
    && (s.scheduled > 0 || s.called ==> s.closing && !s.writeFut)
    && (s.ruined ==> s.closing && !s.writeFut)
    && (s.closing && !s.writeFut ==> s.scheduled + s.lostCalls > 0)
  }

  predicate Inv(s: State) {
    Shape(s) && Bytes(s) && Ending(s)
  }

  /** The kernel reports `n` more bytes of `done`, with `rest` still behind it. */
  lemma Advance(accepted: bytes, reported: bytes, done: bytes, rest: bytes, n: nat)
    requires accepted == reported + (done + rest) && n <= |done|
    ensures accepted == (reported + done[..n]) + (done[n..] + rest)
    ensures reported + done[..n] <= accepted
  {
    assert done == done[..n] + done[n..];
    Regrouped(done[..n], done[n..], rest);
    Regrouped(reported, done[..n], done[n..] + rest);
  }

  lemma ForceCloseKeepsInv(s: State)
    requires Inv(s)
    ensures Inv(ForceClose(s))
  {
  }

  /** A state between two posts: nothing in flight, nothing ending. */
  predicate Idle(s: State) {
    && !s.writeFut && s.posted.None? && s.pendingWrite == 0 && !s.ruined && !s.called
    && s.lostCalls == 0 && s.scheduled == 0 && (s.closing <==> s.connLost > 0) && s.emptyWaiter != Some(true)
    && (s.buffer.Some? ==> s.buffer.value != [])
  }

  lemma PostKeepsInv(s: State, data: bytes, postOk: bool)
    requires Idle(s) && data != [] && s.accepted == s.reported + (data + Or(s.buffer))
    ensures Inv(Settle(Post(s, data, postOk)))
    ensures s.emptyWaiter.None? ==> Inv(Post(s, data, postOk))
  {
  }

  lemma RestKeepsInv(s: State, short: Option<bytes>, postOk: bool)
    requires Idle(s) && (short.Some? ==> short.value != []) && s.accepted == s.reported + (Or(short) + Or(s.buffer))
    ensures Inv(WriteRest(s, short, postOk))
  {
    if short.Some? {
      PostKeepsInv(s, short.value, postOk);
    } else if s.buffer.Some? {
      assert s.buffer.value + [] == [] + s.buffer.value;
      PostKeepsInv(s.(buffer := None), s.buffer.value, postOk);
    } else {
      assert s.accepted == s.reported;
    }
  }

  lemma DoneKeepsInv(s: State, result: Outcome, postOk: bool)
    requires Inv(s) && Completes(s, result)
    ensures Inv(DoneStep(s, result, postOk))
  {
    if s.writeFut {
      var t := s.(writeFut := false, pendingWrite := 0);
      if result.WriteError? {
        ForceCloseKeepsInv(s);
        assert ForceClose(t) == ForceClose(s);
      } else {
        var done, n := s.posted.value, result.n;
        Advance(s.accepted, s.reported, done, Or(s.buffer), n);
        var short := if n < |done| then Some(done[n..]) else None;
        assert Or(short) == done[n..];
        RestKeepsInv(t.(posted := None, reported := s.reported + done[..n]), short, postOk);
      }
    }
  }

  lemma AcceptKeepsInv(s: State, data: bytes, postOk: bool)
    requires Inv(s) && Takes(s, data)
    ensures Inv(Accept(s, data, postOk))
  {
    Regrouped(s.reported, Unwritten(s), data);
    Regrouped(Or(s.posted), Or(s.buffer), data);
    if !s.writeFut {
      assert Unwritten(s) == [] && data + Or(s.buffer) == data;
      PostKeepsInv(s.(accepted := s.accepted + data), data, postOk);
    }
  }

  lemma StepKeepsInv(s: State, e: Event)
    requires Inv(s) && Enabled(s, e)
    ensures Inv(Next(s, e))
  {
    match e
    case Write(data, postOk) =>
      hide Accept, Bytes, Ending;
      if Takes(s, data) {
        AcceptKeepsInv(s, data, postOk);
      } else {
        QuietKeepsInv(s, WriteStep(s, data, postOk));
      }
    case Done(result, postOk) => DoneKeepsInv(s, result, postOk);
    case Abort => ForceCloseKeepsInv(s);
    case Close => CloseKeepsInv(s);
    case Lost =>
    case MakeWaiter =>
    case ResetWaiter =>
  }

  lemma QuietKeepsInv(s: State, t: State)
    requires Inv(s) && t == s.(connLost := t.connLost) && (t.connLost > 0 <==> s.connLost > 0)
    ensures Inv(t)
  {
  }

  lemma CloseKeepsInv(s: State)
    requires Inv(s)
    ensures Inv(CloseStep(s))
  {
  }

  // ---- over every run ----

  ghost predicate StepAt(ss: seq<State>, es: seq<Event>, k: nat)
    requires k < |es| < |ss|
  {
    Enabled(ss[k], es[k]) && ss[k + 1] == Next(ss[k], es[k])
  }

  ghost predicate Run(ss: seq<State>, es: seq<Event>) {
    && |ss| == |es| + 1 && ss[0] == Init()
    && forall k :: 0 <= k < |es| ==> StepAt(ss, es, k)
  }

  lemma {:induction false} AlwaysInv(ss: seq<State>, es: seq<Event>, k: nat)
    requires Run(ss, es) && k <= |es|
    ensures Inv(ss[k])
  {
    if k > 0 {
      AlwaysInv(ss, es, k - 1);
      var e := es[k - 1];
      assert StepAt(ss, es, k - 1);
      StepKeepsInv(ss[k - 1], e);
    }
  }

  /** The data of every write that came before the close and outside a drain, in order. */
  function Written(ss: seq<State>, es: seq<Event>, k: nat): bytes
    requires k <= |es| < |ss|
  {
    if k == 0 then []
    else
      var e, s := es[k - 1], ss[k - 1];
      Written(ss, es, k - 1) + if e.Write? && s.emptyWaiter.None? && !s.closing then e.data else []
  }

  lemma StepTakes(s: State, e: Event)
    requires Inv(s) && Enabled(s, e)
    ensures Next(s, e).accepted ==
      s.accepted + if e.Write? && s.emptyWaiter.None? && !s.closing then e.data else []
  {
    assert s.accepted + [] == s.accepted;
  }

  lemma {:induction false} AcceptedIsWritten(ss: seq<State>, es: seq<Event>, k: nat)
    requires Run(ss, es) && k <= |es|
    ensures ss[k].accepted == Written(ss, es, k)
  {
    if k > 0 {
      AcceptedIsWritten(ss, es, k - 1);
      AlwaysInv(ss, es, k - 1);
      var e := es[k - 1];
      assert StepAt(ss, es, k - 1);
      StepTakes(ss[k - 1], e);
    }
  }

  /** Does this step drop accepted bytes: an abort or a failed write with bytes unwritten, or
      a post the kernel refuses? */
  predicate Drops(s: State, e: Event) {
    match e
    case Write(data, postOk) => Takes(s, data) && !s.writeFut && !postOk
    case Done(result, postOk) =>
      s.writeFut && (result.WriteError? || (result.n < |Unwritten(s)| && !postOk))
    case Abort => Unwritten(s) != []
    case Close => false
    case Lost => false
    case MakeWaiter => false
    case ResetWaiter => false
  }

  lemma StepRuins(s: State, e: Event)
    requires Inv(s) && Enabled(s, e)
    ensures Next(s, e).ruined <==> s.ruined || Drops(s, e)
  {
  }

  /** Bytes are dropped by these steps, and by nothing else. */
  lemma {:induction false} RuinedIff(ss: seq<State>, es: seq<Event>, k: nat)
    requires Run(ss, es) && k <= |es|
    ensures ss[k].ruined <==> exists i :: 0 <= i < k && Drops(ss[i], es[i])
  {
    if k > 0 {
      RuinedIff(ss, es, k - 1);
      AlwaysInv(ss, es, k - 1);
      var e := es[k - 1];
      assert StepAt(ss, es, k - 1);
      StepRuins(ss[k - 1], e);
    }
  }

  /** Over every run, with any calls, short writes and failures: what the kernel reported,
      what it still has and what waits are all accepted bytes in order, unless a step dropped
      some; connection_lost runs at most once, and exactly once when a closing pipe has nothing
      in flight and nothing scheduled; and then everything was written just when no step
      dropped any. */
  lemma {:induction false} Conserved(ss: seq<State>, es: seq<Event>, k: nat)
    requires Run(ss, es) && k <= |es|
    ensures var s := ss[k];
      && s.reported <= s.accepted == Written(ss, es, k)
      && (!s.ruined ==> s.reported + Or(s.posted) + Or(s.buffer) == s.accepted)
      && (!s.ruined ==> s.pendingWrite + |Or(s.buffer)| == |s.accepted| - |s.reported|)
      && s.lostCalls <= 1
      && (s.closing && !s.writeFut && s.scheduled == 0 ==> s.lostCalls == 1)
      && (s.lostCalls == 1 ==> s.closing && !s.writeFut)
      && (s.lostCalls == 1 ==> (s.reported == s.accepted <==> !s.ruined))
    ensures ss[k].ruined <==> exists i :: 0 <= i < k && Drops(ss[i], es[i])
  {
    AlwaysInv(ss, es, k);
    AcceptedIsWritten(ss, es, k);
    RuinedIff(ss, es, k);
    var s := ss[k];
    Regrouped(s.reported, Or(s.posted), Or(s.buffer));
  }

  lemma ClosedStep(s: State, e: Event)
    requires Inv(s) && Enabled(s, e) && s.closing
    ensures Next(s, e).closing && Next(s, e).accepted == s.accepted
  {
    StepTakes(s, e);
    assert s.accepted + [] == s.accepted;
  }

  /** Nothing is accepted once the pipe is closing, and it stays so. */
  lemma {:induction false} ClosedIsFinal(ss: seq<State>, es: seq<Event>, i: nat, k: nat)
    requires Run(ss, es) && i <= k <= |es| && ss[i].closing
    ensures ss[k].closing && ss[k].accepted == ss[i].accepted
    decreases k
  {
    if k > i {
      ClosedIsFinal(ss, es, i, k - 1);
      AlwaysInv(ss, es, k - 1);
      var e := es[k - 1];
      assert StepAt(ss, es, k - 1);
      ClosedStep(ss[k - 1], e);
    }
  }

  /** What stands between a closing pipe and connection_lost. */
  function Measure(s: State): nat {
    |Unwritten(s)| + if s.called then 0 else 1
  }

  /** Is this the kernel getting somewhere, or the loop running what is scheduled? */
  predicate Progress(s: State, e: Event) {
    Enabled(s, e) && (e == Lost || (e.Done? && s.writeFut && (e.result.Wrote? ==> e.result.n > 0)))
  }

  /** A closing pipe whose connection is not lost yet always has such a step, and each brings
      connection_lost nearer: it comes as long as the kernel makes progress. */
  lemma {:induction false} CloseEnds(ss: seq<State>, es: seq<Event>, k: nat, e: Event)
    requires Run(ss, es) && k <= |es| && ss[k].closing && !ss[k].called
    ensures Progress(ss[k], Done(Wrote(|Or(ss[k].posted)|), true)) || Progress(ss[k], Lost)
    ensures Progress(ss[k], e) ==> Measure(Next(ss[k], e)) < Measure(ss[k])
  {
    AlwaysInv(ss, es, k);
    if Progress(ss[k], e) {
      ProgressShrinks(ss[k], e);
    }
  }

  lemma ProgressShrinks(s: State, e: Event)
    requires Inv(s) && s.closing && !s.called && Progress(s, e)
    ensures Measure(Next(s, e)) < Measure(s)
  {
  }
}
