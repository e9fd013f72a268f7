/** The queue's own code, run by one thread while any others take steps in between. */
module CrossThread {
  import opened Handover

  /** The loop thread's FIFO of callbacks ready to run. */
  class ReadyQueue<T> {
    var queue: seq<T>

    constructor ()
      ensures queue == []
    {
      queue := [];
    }

    method Push(item: T)
      modifies this
      ensures queue == old(queue) + [item]
    {
      queue := queue + [item];
    }
  }

  class CrossThreadQueue<T> {
    var queue: seq<T>
    var timers: seq<(int, T)>
    var wakePending: bool
    /** Every atomic action so far, by whichever thread. */
    ghost var log: seq<Action<T>>

    ghost predicate Valid()
      reads this
    {
      && Legal(log)
      && var s := Exec(log);
         Inv(s) && queue == s.queue && timers == s.timers && wakePending == s.flag
    }

    ghost function S(): State<T>
      requires Valid()
      reads this
    {
      Exec(log)
    }

    constructor ()
      ensures Valid() && log == []
    {
      queue, timers, wakePending, log := [], [], false, [];
    }

    /** What any number of steps of the other threads may have done meanwhile. */
    twostate predicate Interfered(me: Actor)
      requires old(Valid()) && Valid()
      reads this
    {
      && old(log) <= log && OthersOnly(log, |old(log)|, me)
      && Stable(old(S()), S(), me)
    }

    /** Other threads may run here. */
    method Interfere(ghost me: Actor)
      requires Valid()
      modifies this
      ensures Valid() && Interfered(me)
    {
    }

    /** Record the atomic action the code has just taken. */
    ghost method Record(a: Action<T>)
      requires Legal(log) && Inv(Exec(log)) && Enabled(Exec(log), a)
      requires var s := Apply(Exec(log), a); queue == s.queue && timers == s.timers && wakePending == s.flag
      modifies this`log
      ensures Valid() && log == old(log) + [a] && S() == Apply(old(Exec(log)), a)
    {
      Extend(log, a);
      StepKeepsInv(Exec(log), a);
      log := log + [a];
    }

    /** Enqueue from any thread; true when the producer must now post a wakeup. */
    method Push(ghost p: nat, item: T) returns (wake: bool)
      requires Valid() && Pc(S(), p) == Idle
      modifies this
      ensures Valid() && old(log) + [Enqueue(p, item)] <= log && log[|log| - 1] == SwapTrue(p)
      ensures old(S()).pushed + [item] <= S().pushed
      ensures wakePending && Pc(S(), p) == (if wake then Owes else Idle)
    {
      hide Legal, Exec, Inv, Apply, Enabled, Stable;
      EnqueueStep(S(), p, item);
      queue := queue + [item];
      Record(Enqueue(p, item));
      ghost var s := S();
      Interfere(Producing(p));
      StableProducer(s, S(), p);
      SwapStep(S(), p);
      wake := !wakePending;
      wakePending := true;
      Record(SwapTrue(p));
    }

    /** The same for a timer due at `deadline`. */
    method PushTimer(ghost p: nat, deadline: int, item: T) returns (wake: bool)
      requires Valid() && Pc(S(), p) == Idle
      modifies this
      ensures Valid() && old(log) + [EnqueueTimer(p, deadline, item)] <= log && log[|log| - 1] == SwapTrue(p)
      ensures old(S()).pushedTimers + [(deadline, item)] <= S().pushedTimers
      ensures wakePending && Pc(S(), p) == (if wake then Owes else Idle)
    {
      hide Legal, Exec, Inv, Apply, Enabled, Stable;
      EnqueueTimerStep(S(), p, deadline, item);
      timers := timers + [(deadline, item)];
      Record(EnqueueTimer(p, deadline, item));
      ghost var s := S();
      Interfere(Producing(p));
      StableProducer(s, S(), p);
      SwapStep(S(), p);
      wake := !wakePending;
      wakePending := true;
      Record(SwapTrue(p));
    }

    /** Drain on the loop thread: callbacks into `ready`, timers to the scheduler in the
        order of `scheduled`. Everything pushed before a drain that saw the flag is drained. */
    method DrainInto(ready: ReadyQueue<T>) returns (n: nat, scheduled: seq<(int, T)>)
      requires Valid() && S().cons == Awake
      modifies this, ready
      ensures Valid() && S().cons == Done && old(log) + [LoadFlag] <= log
      ensures old(ready.queue) <= ready.queue
      ensures S().ran == old(S()).ran + ready.queue[|old(ready.queue)|..]
      ensures S().ranTimers == old(S()).ranTimers + scheduled
      ensures n == |ready.queue| - |old(ready.queue)| + |scheduled|
      ensures old(wakePending) ==> |old(S()).pushed| <= |S().ran| && |old(S()).pushedTimers| <= |S().ranTimers|
      ensures !old(wakePending) ==> n == 0 && S().clears == old(S()).clears
    {
      hide Legal, Exec, Inv, Stable;
      n, scheduled := 0, [];
      var seen := wakePending;
      Record(LoadFlag);
      if !seen {
        return;
      }
      var bound := ClearAndMeasure();
      n := DrainItems(ready, bound);
      scheduled := DrainTimers();
      n := n + |scheduled|;
    }

    /** Clear the flag, then read how many callbacks there are. */
    method ClearAndMeasure() returns (bound: nat)
      requires Valid() && S().cons == FlagSeen
      modifies this
      ensures Valid() && S().cons == PopItems(bound) && old(log) <= log
      ensures S().ran == old(S()).ran && S().ranTimers == old(S()).ranTimers && S().clears == old(S()).clears + 1
      ensures |old(S()).pushed| <= |S().ran| + bound && |old(S()).pushedTimers| <= |S().pushedTimers|
    {
      hide Legal, Exec, Inv, Stable;
      Step(FlagSeen);
      wakePending := false;
      Record(SwapFalse);
      Step(Cleared);
      bound := |queue|;
      Parts(S());
      Record(ReadLen);
    }

    /** Pop `bound` callbacks, the number the queue held when its length was read. */
    method DrainItems(ready: ReadyQueue<T>, bound: nat) returns (n: nat)
      requires Valid() && S().cons == PopItems(bound)
      modifies this, ready
      ensures Valid() && S().cons == AtTimers && old(log) <= log && n == bound
      ensures old(ready.queue) <= ready.queue && |ready.queue| == |old(ready.queue)| + n
      ensures S().ran == old(S()).ran + ready.queue[|old(ready.queue)|..]
      ensures S().ranTimers == old(S()).ranTimers && S().clears == old(S()).clears
      ensures |old(S()).pushedTimers| <= |S().pushedTimers|
    {
      hide Legal, Exec, Inv, Stable;
      n := 0;
      while n < bound
        invariant n <= bound && Valid() && S().cons == PopItems(bound - n) && old(log) <= log
        invariant old(ready.queue) <= ready.queue && |ready.queue| == |old(ready.queue)| + n
        invariant S().ran == old(S()).ran + ready.queue[|old(ready.queue)|..]
        invariant S().ranTimers == old(S()).ranTimers && S().clears == old(S()).clears
        invariant |old(S()).pushedTimers| <= |S().pushedTimers|
      {
        Step(PopItems(bound - n));
        PopFinds(S());
        ready.Push(queue[0]);
        queue := queue[1..];
        Record(PopItem);
        n := n + 1;
      }
      Record(ItemsDone);
    }

    /** The same for timers, if there are any. */
    method DrainTimers() returns (scheduled: seq<(int, T)>)
      requires Valid() && S().cons == AtTimers
      modifies this
      ensures Valid() && S().cons == Done && old(log) <= log
      ensures S().ranTimers == old(S()).ranTimers + scheduled
      ensures |old(S()).pushedTimers| <= |S().ranTimers|
      ensures S().ran == old(S()).ran && S().clears == old(S()).clears
    {
      hide Legal, Exec, Inv, Stable;
      scheduled := [];
      var empty := TestTimers();
      if empty {
        return;
      }
      Step(TimersSeen);
      var bound := |timers|;
      Parts(S());
      Record(ReadTimersLen);
      for k := 0 to bound
        invariant Valid() && S().cons == PopTimers(bound - k) && old(log) <= log && |scheduled| == k
        invariant S().ranTimers == old(S()).ranTimers + scheduled
        invariant S().ran == old(S()).ran && S().clears == old(S()).clears
      {
        Step(PopTimers(bound - k));
        PopFinds(S());
        scheduled := scheduled + [timers[0]];
        timers := timers[1..];
        Record(PopTimer);
      }
      Record(TimersDone);
    }

    method TestTimers() returns (empty: bool)
      requires Valid() && S().cons == AtTimers
      modifies this
      ensures Valid() && S().cons == (if empty then Done else TimersSeen) && old(log) <= log
      ensures S().ran == old(S()).ran && S().ranTimers == old(S()).ranTimers && S().clears == old(S()).clears
      ensures |old(S()).pushedTimers| <= |S().pushedTimers|
      ensures empty ==> |S().ranTimers| == |S().pushedTimers|
    {
      hide Legal, Exec, Inv, Stable;
      Step(AtTimers);
      empty := timers == [];
      Parts(S());
      Record(Action.TestTimers);
    }

    /** Others may run; the consumer then takes its next step from where it was. */
    method Step(ghost at: Consumer)
      requires Valid() && S().cons == at
      modifies this
      ensures Valid() && Interfered(Consuming)
      ensures S().cons == at && S().ran == old(S()).ran && S().ranTimers == old(S()).ranTimers
      ensures S().clears == old(S()).clears && old(log) <= log
      ensures |old(S()).pushed| <= |S().pushed| && |old(S()).pushedTimers| <= |S().pushedTimers|
    {
      Interfere(Consuming);
    }
  }

  lemma Parts<T>(s: State<T>)
    requires Inv(s)
    ensures |s.pushed| == |s.ran| + |s.queue| && |s.pushedTimers| == |s.ranTimers| + |s.timers|
  {
  }

  /** This thread being the only consumer, a pop within the length it read finds an item. */
  lemma PopFinds<T>(s: State<T>)
    requires Inv(s)
    ensures s.cons.PopItems? && s.cons.left > 0 ==> s.queue != []
    ensures s.cons.PopTimers? && s.cons.left > 0 ==> s.timers != []
  {
  }

  lemma EnqueueStep<T>(s: State<T>, p: nat, item: T)
    requires Pc(s, p) == Idle
    ensures Enabled(s, Enqueue(p, item))
    ensures var s' := Apply(s, Enqueue(p, item));
      && s'.queue == s.queue + [item] && s'.timers == s.timers && s'.flag == s.flag
      && s'.pushed == s.pushed + [item] && Pc(s', p).Enqueued?
  {
  }

  lemma EnqueueTimerStep<T>(s: State<T>, p: nat, deadline: int, item: T)
    requires Pc(s, p) == Idle
    ensures Enabled(s, EnqueueTimer(p, deadline, item))
    ensures var s' := Apply(s, EnqueueTimer(p, deadline, item));
      && s'.timers == s.timers + [(deadline, item)] && s'.queue == s.queue && s'.flag == s.flag
      && s'.pushedTimers == s.pushedTimers + [(deadline, item)] && Pc(s', p).Enqueued?
  {
  }

  lemma SwapStep<T>(s: State<T>, p: nat)
    requires Pc(s, p).Enqueued?
    ensures Enabled(s, SwapTrue(p))
    ensures var s' := Apply(s, SwapTrue(p));
      && s'.queue == s.queue && s'.timers == s.timers && s'.flag
      && s'.pushed == s.pushed && s'.pushedTimers == s.pushedTimers
      && Pc(s', p) == (if s.flag then Idle else Owes)
  {
  }

  lemma StableProducer<T>(s: State<T>, s': State<T>, p: nat)
    requires Stable(s, s', Producing(p))
    ensures Pc(s', p) == Pc(s, p) && s.pushed <= s'.pushed && s.pushedTimers <= s'.pushedTimers
  {
  }
}
