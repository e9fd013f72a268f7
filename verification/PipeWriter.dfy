/** The overlapped pipe writer: one WriteFile in flight, a buffer behind it, and the close path. */
module PipeWriter {
  import opened Words
  import opened PipeStream

  datatype WriteResult = Accepted | Ignored | Refused

  class WritePipe {
    var buffer: Option<bytes>
    var writeFut: bool
    var posted: Option<bytes>
    var pendingWrite: nat
    var connLost: nat
    var closing: bool
    var calledConnectionLost: bool
    var emptyWaiter: Option<bool>
    var scheduledLost: nat
    var lostCalls: nat
    ghost var accepted: bytes
    ghost var reported: bytes
    ghost var ruined: bool

    ghost function S(): State
      reads this
    {
      State(buffer, writeFut, posted, pendingWrite, connLost, closing, calledConnectionLost, emptyWaiter,
            scheduledLost, lostCalls, accepted, reported, ruined)
    }

    ghost predicate Valid()
      reads this
    {
      Inv(S())
    }

    constructor ()
      ensures Valid() && S() == Init()
    {
      buffer, writeFut, posted, pendingWrite := None, false, None, 0;
      connLost, closing, calledConnectionLost, emptyWaiter := 0, false, false, None;
      scheduledLost, lostCalls := 0, 0;
      accepted, reported, ruined := [], [], false;
    }

    /** Accept bytes: post them, or line them up behind the write in flight. `postOk` is
        whether the kernel would take the write. */
    method Write(data: bytes, postOk: bool) returns (r: WriteResult)
      requires Valid()
      modifies this
      ensures Valid() && S() == Next(old(S()), Event.Write(data, postOk))
      ensures r == if old(emptyWaiter).Some? then Refused else if data == [] || old(closing) then Ignored else Accepted
      ensures r != Accepted || old(writeFut) ==> posted == old(posted)
      ensures r != Accepted ==> buffer == old(buffer)
      ensures r == Accepted && old(writeFut) ==> Or(buffer) == old(Or(buffer)) + data
      ensures r == Accepted && !old(writeFut) && postOk ==> posted == Some(data) && buffer == None
    {
      StepKeepsInv(S(), Event.Write(data, postOk));
      if emptyWaiter.Some? {
        return Refused;
      }
      if data == [] {
        return Ignored;
      }
      if connLost > 0 {
        connLost := connLost + 1;
        return Ignored;
      }
      accepted := accepted + data;
      if !writeFut {
        Post(data, postOk);
      } else if Or(buffer) == [] {
        buffer := Some(data);
      } else {
        buffer := Some(buffer.value + data);
      }
      r := Accepted;
    }

    /** Hand bytes to the kernel; its refusal is fatal. */
    method Post(data: bytes, postOk: bool)
      modifies this
      ensures S() == PipeStream.Post(old(S()), data, postOk)
    {
      if !postOk {
        ruined := true;
        ForceClose();
        return;
      }
      writeFut := true;
      posted := Some(data);
      pendingWrite := |data|;
    }

    /** The completion of a posted write. What a short write left goes out next, ahead of
        the buffer; the completion of a write that a forced close cancelled changes nothing. */
    method WriteDone(result: Outcome, postOk: bool)
      requires Valid() && Completes(S(), result)
      modifies this
      ensures Valid() && S() == Next(old(S()), Done(result, postOk))
      ensures old(ruined) ==> S() == old(S())
      ensures old(writeFut) && !ruined && result.n == |old(posted).value| ==> posted == old(buffer) && buffer == None
      ensures old(writeFut) && !ruined && result.n < |old(posted).value| ==>
        posted == Some(old(posted).value[result.n..]) && buffer == old(buffer)
    {
      StepKeepsInv(S(), Done(result, postOk));
      if !writeFut && closing {
        return;
      }
      writeFut := false;
      pendingWrite := 0;
      if result.WriteError? {
        ForceClose();
        return;
      }
      var done := posted.value;
      posted := None;
      var data := None;
      if result.n < |done| {
        data := Some(done[result.n..]);
      }
      reported := reported + done[..result.n];
      WriteRest(data, postOk);
    }

    /** After a completion: what a short write left, or else the buffer, goes out. */
    method WriteRest(short: Option<bytes>, postOk: bool)
      modifies this
      ensures S() == PipeStream.WriteRest(old(S()), short, postOk)
    {
      var data := short;
      if data.None? {
        data := buffer;
        buffer := None;
      }
      if data.None? {
        if closing {
          scheduledLost := scheduledLost + 1;
        }
      } else {
        Post(data.value, postOk);
      }
      if emptyWaiter.Some? && !writeFut {
        emptyWaiter := Some(true);
      }
    }

    /** Stop accepting; connection_lost follows once everything is written. */
    method Close()
      requires Valid()
      modifies this
      ensures Valid() && S() == Next(old(S()), Event.Close)
      ensures closing && posted == old(posted) && buffer == old(buffer) && emptyWaiter == old(emptyWaiter)
    {
      StepKeepsInv(S(), Event.Close);
      if closing {
        return;
      }
      closing := true;
      connLost := connLost + 1;
      if Or(buffer) == [] && !writeFut {
        scheduledLost := scheduledLost + 1;
      }
    }

    /** Drop everything unwritten and lose the connection, unless that has happened already. */
    method ForceClose()
      modifies this
      ensures S() == PipeStream.ForceClose(old(S()))
    {
      if emptyWaiter == Some(false) {
        emptyWaiter := Some(true);
      }
      if closing && calledConnectionLost {
        return;
      }
      closing := true;
      connLost := connLost + 1;
      DropUnwritten();
      scheduledLost := scheduledLost + 1;
    }

    /** The write in flight is cancelled, and nothing of it or behind it goes out any more. */
    method DropUnwritten()
      modifies this`ruined, this`writeFut, this`pendingWrite, this`buffer, this`posted
      ensures S() == old(S()).(ruined := old(ruined) || Unwritten(old(S())) != [], writeFut := false,
                               pendingWrite := 0, buffer := None, posted := None)
    {
      ruined := ruined || Or(posted) + Or(buffer) != [];
      writeFut := false;
      pendingWrite := 0;
      buffer := None;
      posted := None;
    }

    method Abort()
      requires Valid()
      modifies this
      ensures Valid() && S() == Next(old(S()), Event.Abort)
      ensures closing && Unwritten(S()) == [] && (ruined <==> old(ruined) || Unwritten(old(S())) != [])
    {
      StepKeepsInv(S(), Event.Abort);
      ForceClose();
    }

    /** A scheduled `_call_connection_lost` runs. */
    method CallConnectionLost()
      requires Valid() && scheduledLost > 0
      modifies this
      ensures Valid() && S() == Next(old(S()), Lost)
      ensures calledConnectionLost && lostCalls == old(lostCalls) + if old(calledConnectionLost) then 0 else 1
    {
      StepKeepsInv(S(), Lost);
      scheduledLost := scheduledLost - 1;
      if calledConnectionLost {
        return;
      }
      lostCalls := lostCalls + 1;
      calledConnectionLost := true;
    }

    /** The bytes accepted and not reported written. */
    function GetWriteBufferSize(): (n: nat)
      requires Valid()
      reads this
      ensures n == |Unwritten(S())|
      ensures !ruined ==> n == |accepted| - |reported|
    {
      pendingWrite + if buffer.Some? then |buffer.value| else 0
    }

    /** A waiter for the buffer to drain; done at once when nothing is in flight. */
    method MakeEmptyWaiter() returns (ok: bool)
      requires Valid()
      modifies this`emptyWaiter
      ensures Valid() && S() == Next(old(S()), MakeWaiter) && ok == old(emptyWaiter).None?
      ensures ok ==> (emptyWaiter == Some(true) <==> Unwritten(S()) == [])
    {
      if emptyWaiter.Some? {
        return false;
      }
      emptyWaiter := Some(!writeFut);
      ok := true;
    }

    method ResetEmptyWaiter()
      requires Valid()
      modifies this`emptyWaiter
      ensures Valid() && S() == Next(old(S()), ResetWaiter) && emptyWaiter == None
    {
      emptyWaiter := None;
    }
  }
}
