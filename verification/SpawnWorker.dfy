/** The supervisor's handle on a worker: its own code, run by one thread while any others
    take steps in between. */
module SpawnWorkers {
  import opened Words
  import opened Handoff

  class SpawnWorker {
    var outq: seq<Entry>
    var broken: bool
    var stopRequested: bool
    /** Every atomic action so far, by whichever thread. */
    ghost var log: seq<Action>

    ghost predicate Valid()
      reads this
    {
      && Legal(log)
      && var s := Exec(log);
         Inv(s) && outq == s.queue && broken == s.broken && stopRequested == s.stopRequested
    }

    ghost function S(): State
      requires Valid()
      reads this
    {
      Exec(log)
    }

    constructor ()
      ensures Valid() && log == []
    {
      outq, broken, stopRequested, log := [], false, false, [];
    }

    twostate predicate Interfered(me: Actor)
      requires old(Valid()) && Valid()
      reads this
    {
      && old(log) <= log && OthersOnly(log, |old(log)|, me)
      && Stable(old(S()), S(), me)
    }

    /** Other threads may run here. */
    method Interfere(ghost me: Actor)
      requires Valid()
      modifies this
      ensures Valid() && Interfered(me)
    {
    }

    /** Record the atomic action the code has just taken. */
    ghost method Record(a: Action)
      requires Legal(log) && Inv(Exec(log)) && Enabled(Exec(log), a)
      requires var s := Apply(Exec(log), a); outq == s.queue && broken == s.broken && stopRequested == s.stopRequested
      modifies this`log
      ensures Valid() && log == old(log) + [a] && S() == Apply(old(Exec(log)), a)
    {
      Extend(log, a);
      StepKeepsInv(Exec(log), a);
      log := log + [a];
    }

    /** Queue one accepted connection, or answer false: the caller still owns it then. A put
        with a timeout differs only in how long it waits before it sees the queue full. */
    method Offer(ghost t: nat, conn: nat) returns (ok: bool)
      requires Valid() && At(S(), t) == Outside
      modifies this
      ensures Valid() && At(S(), t) == Outside && old(log) + [OfferBegin(t, conn)] <= log
      ensures ok <==> log[|log| - 1] == OfferPut(t)
      ensures ok ==> S().accepted != [] && S().accepted[|S().accepted| - 1] == conn
      ensures old(broken) || old(stopRequested) ==> !ok
      ensures !old(broken) && !stopRequested && |outq| < 256 ==> ok
      ensures ok ==> |outq| <= 256 && outq[|outq| - 1] == Some(conn)
    {
      hide Legal, Exec, Inv;
      var wasBroken := broken;
      Record(OfferBegin(t, conn));
      if wasBroken {
        return false;
      }
      Interfere(Calling(t));
      var stopping := stopRequested;
      Record(OfferCheckStop(t));
      if stopping {
        return false;
      }
      Interfere(Calling(t));
      if |outq| < CAPACITY {
        outq := outq + [Some(conn)];
        Record(OfferPut(t));
        ok := true;
      } else {
        Record(OfferFull(t));
        ok := false;
      }
    }

    /** Ask for STOP behind whatever is queued, without ever blocking. */
    method RequestStop(ghost t: nat)
      requires Valid() && At(S(), t) == Outside
      modifies this
      ensures Valid() && At(S(), t) == Outside && stopRequested
      ensures old(log) + [StopFlag(t)] <= log && log[|log| - 1] == StopPut(t)
      ensures outq != []
    {
      hide Legal, Exec, Inv;
      stopRequested := true;
      Record(StopFlag(t));
      Interfere(Calling(t));
      if |outq| < CAPACITY {
        outq := outq + [None];
      }
      Record(StopPut(t));
    }

    /** One pass of the writer's loop: take an entry if there is one (it waits otherwise),
        send and close a connection, then STOP if one is asked for and nothing is left.
        `connOk` and `stopOk` are whether the two sends would succeed. */
    method WriterPass(connOk: bool, stopOk: bool) returns (again: bool)
      requires Valid() && S().writer == Getting
      modifies this
      ensures Valid() && old(log) <= log
      ensures again <==> S().writer == Getting
      ensures !again ==> S().writer == Dropping
      ensures StopWasSent(S()) <==> !again && !broken
      ensures StopWasSent(S()) ==> stopOk
      ensures broken ==> !again && (!connOk || !stopOk)
      ensures old(outq) != [] ==> exists i :: |old(log)| <= i < |log| && log[i] == Get
      ensures old(outq) != [] ==> (old(outq)[0] == None ==> S().sent == old(S()).sent && S().unsent == old(S()).unsent)
      ensures old(outq) != [] && old(outq)[0].Some? ==>
        if connOk then S().sent == old(S()).sent + [old(outq)[0].value] && S().unsent == old(S()).unsent
        else S().sent == old(S()).sent && S().unsent == old(S()).unsent + [old(outq)[0].value] && broken
    {
      hide Legal, Exec, Inv;
      StillSending(S());
      Interfere(Writing);
      StillSending(S());
      if outq == [] {
        return true;
      }
      var entry := outq[0];
      outq := outq[1..];
      Record(Get);
      ghost var at := |log| - 1;
      if entry.Some? {
        var delivered := SendAndClose(connOk);
        if !delivered {
          assert log[at] == Get;
          StopOrBroken(S());
          return false;
        }
      }
      again := StopIfDrained(stopOk);
      assert log[at] == Get;
      StopOrBroken(S());
    }

    /** Send the connection in hand and close our copy, whether or not the send succeeded. */
    method SendAndClose(connOk: bool) returns (delivered: bool)
      requires Valid() && S().writer.Holding? && !broken
      modifies this
      ensures Valid() && old(log) <= log && delivered == connOk
      ensures delivered ==> S().unsent == old(S()).unsent
      ensures delivered ==> S().writer == CheckStop && S().sent == old(S()).sent + [old(S()).writer.conn] && !broken
      ensures !delivered ==> S().writer == Dropping && S().sent == old(S()).sent && broken
      ensures !delivered ==> S().unsent == old(S()).unsent + [old(S()).writer.conn]
      ensures !delivered ==> S().wire == old(S()).wire
    {
      hide Legal, Exec, Inv;
      Interfere(Writing);
      if connOk {
        Record(SendOk);
        Interfere(Writing);
        Record(CloseSent);
        return true;
      }
      Record(SendFails);
      Interfere(Writing);
      Record(CloseFailed);
      Interfere(Writing);
      broken := true;
      Record(MarkBroken);
      delivered := false;
    }

    method StopIfDrained(stopOk: bool) returns (again: bool)
      requires Valid() && S().writer == CheckStop && !broken
      modifies this
      ensures Valid() && old(log) <= log && S().sent == old(S()).sent && S().unsent == old(S()).unsent
      ensures again <==> S().writer == Getting
      ensures !again ==> S().writer == Dropping && broken == !stopOk
      ensures again ==> !broken && S().wire == old(S()).wire
      ensures !again ==> S().wire == old(S()).wire + if stopOk then [StopFrame] else []
    {
      hide Legal, Exec, Inv;
      Interfere(Writing);
      var stopping := stopRequested;
      Record(TestStop);
      if !stopping {
        return true;
      }
      Interfere(Writing);
      var empty := outq == [];
      Record(TestEmpty);
      if !empty {
        return true;
      }
      Interfere(Writing);
      if stopOk {
        Record(StopSent);
      } else {
        Record(StopFails);
        Interfere(Writing);
        broken := true;
        Record(MarkBroken);
      }
      again := false;
    }

    /** One pass of `_drop_queued`: close the next queued connection, if any. */
    method DropPass() returns (again: bool)
      requires Valid() && S().writer == Dropping
      modifies this
      ensures Valid() && old(log) <= log && S().sent == old(S()).sent && S().wire == old(S()).wire
      ensures if again then S().writer == Dropping else S().writer == Exited && S().unsent == old(S()).unsent
      ensures old(outq) != [] && old(outq)[0].Some? ==> S().unsent == old(S()).unsent + [old(outq)[0].value]
    {
      hide Legal, Exec, Inv;
      Interfere(Writing);
      if outq == [] {
        Record(DropGet);
        return false;
      }
      var entry := outq[0];
      outq := outq[1..];
      Record(DropGet);
      if entry.Some? {
        Interfere(Writing);
        Record(DropClose);
      }
      again := true;
    }
  }

  lemma StopOrBroken(s: State)
    requires Inv(s)
    ensures s.writer == Dropping ==> StopWasSent(s) != s.broken
    ensures s.writer == Getting ==> !StopWasSent(s)
  {
    if s.writer == Getting {
      StillSending(s);
    }
  }

  /** A writer still in its loop has neither sent STOP nor seen the channel break. */
  lemma StillSending(s: State)
    requires Inv(s) && s.writer == Getting
    ensures !StopWasSent(s) && !s.broken
  {
    if s.wire != [] {
      assert s.wire[|s.wire| - 1] == ConnFrame(s.sent[|s.sent| - 1]);
    }
  }
}
