/** The receive-buffer size controller: how a connection's size class follows its reads. */
module ReceiveSize {
  import opened BufferRefs
  import Words

  /** Smallest class that fits `n` bytes. */
  function Fitting(n: nat): (c: Words.Option<SizeClass>)
    ensures c.Some? <==> n <= 65536
    ensures c.Some? ==> n <= c.value.Size() && forall d: SizeClass :: n <= d.Size() ==> c.value.Size() <= d.Size()
  {
    if n <= 4096 then Words.Some(S4K)
    else if n <= 16384 then Words.Some(S16K)
    else if n <= 65536 then Words.Some(S64K)
    else Words.None
  }

  /** The class after a read of `bytes` into a buffer of class `c`. */
  function AfterRead(c: SizeClass, bytes: nat, followsFull: bool): SizeClass {
    if bytes >= c.Size() then (if c == S4K then S16K else S64K)
    else if followsFull then c
    else if bytes <= 1024 then S4K
    else if c == S64K && bytes <= 4096 then S16K
    else c
  }

  /** A connection between messages: its class, and whether the last read filled its buffer. */
  datatype Conn = Conn(class_: SizeClass, full: bool)

  function Min(a: nat, b: nat): nat {
    if a < b then a else b
  }

  /** The connection after one read of a message with `left` bytes to come. */
  function Read(s: Conn, left: nat): Conn {
    var got := Min(left, s.class_.Size());
    Conn(AfterRead(s.class_, got, s.full), got >= s.class_.Size())
  }

  /** The connection after receiving the rest of a message, and the reads that took. */
  function Received(s: Conn, left: nat): (r: (Conn, nat))
    decreases left
  {
    if left == 0 then (s, 0)
    else
      var rest := Received(Read(s, left), left - Min(left, s.class_.Size()));
      (rest.0, rest.1 + 1)
  }

  /** Receive one message, reading min(remaining, class size) at a time. */
  method Receive(s: Conn, m: nat) returns (s': Conn, count: nat)
    ensures (s', count) == Received(s, m)
  {
    var left := m;
    s', count := s, 0;
    while left > 0
      invariant 0 <= left
      invariant Received(s, m) == (Received(s', left).0, Received(s', left).1 + count)
    {
      var got := Min(left, s'.class_.Size());
      left := left - got;
      count := count + 1;
      var filled := got >= s'.class_.Size();
      s' := Conn(AfterRead(s'.class_, got, s'.full), filled);
    }
  }

  lemma OneRead(s: Conn, left: nat)
    requires 0 < left <= s.class_.Size()
    ensures Received(s, left) == (Read(s, left), 1)
  {
    assert Received(Read(s, left), 0) == (Read(s, left), 0);
  }

  function CeilDiv(a: nat, b: nat): nat
    requires b > 0
  {
    (a + b - 1) / b
  }

  /** From the largest class a message longer than the buffer keeps the class, and takes
      the fewest reads possible. */
  lemma {:induction false} LargestStays(full: bool, m: nat)
    requires m >= 65536 || (full && m > 0)
    ensures Received(Conn(S64K, full), m).0.class_ == S64K
    ensures Received(Conn(S64K, full), m).1 == CeilDiv(m, 65536)
    decreases m
  {
    if m > 65536 {
      LargestStays(true, m - 65536);
    }
  }

  /** A message that one read of class `c` takes whole without changing the class. */
  predicate Fits(c: SizeClass, m: nat) {
    m < c.Size() && AfterRead(c, m, false) == c
  }

  /** The class holds messages of this size: it does not change and no read is wasted. */
  predicate Settled(c: SizeClass, m: nat) {
    (c == S64K && m >= 65536) || Fits(c, m)
  }

  lemma SettledStays(s: Conn, m: nat)
    requires m >= 1 && Settled(s.class_, m)
    ensures Received(s, m).0.class_ == s.class_
    ensures Received(s, m).1 == CeilDiv(m, 65536)
  {
    if m >= 65536 {
      LargestStays(s.full, m);
    } else {
      OneRead(s, m);
    }
  }

  /** Two messages are enough to settle, from any class and any history. */
  lemma TwoMessagesSettle(s: Conn, m: nat)
    requires m >= 1
    ensures Settled(Received(Received(s, m).0, m).0.class_, m)
  {
    FirstMessage(s, m);
    SecondMessage(Received(s, m).0, m);
  }

  /** Where one message can leave a connection: settled, or one message away from it. */
  predicate AfterOne(s: Conn, m: nat) {
    || Settled(s.class_, m)
    || (!s.full && s.class_ == S64K && m <= 4096)
    || (!s.full && s.class_ == S16K && (m <= 1024 || m >= 16384))
  }

  lemma FirstMessage(s: Conn, m: nat)
    requires m >= 1
    ensures AfterOne(Received(s, m).0, m)
  {
    if m >= 65536 && s.class_ == S64K {
      LargestStays(s.full, m);
    } else if m > s.class_.Size() {
      var s1, left := Read(s, m), m - s.class_.Size();
      if s1.class_ == S64K {
        LargestStays(true, left);
      } else if left > s1.class_.Size() {
        LargestStays(true, left - s1.class_.Size());
      } else {
        OneRead(s1, left);
      }
    }
  }

  lemma SecondMessage(s: Conn, m: nat)
    requires m >= 1 && AfterOne(s, m)
    ensures Settled(Received(s, m).0.class_, m)
  {
    if Settled(s.class_, m) {
      SettledStays(s, m);
    } else if m > 16384 {
      LargestStays(true, m - 16384);
    }
  }

  /** The connection after n messages of m bytes. */
  function After(s: Conn, m: nat, n: nat): Conn {
    if n == 0 then s else Received(After(s, m, n - 1), m).0
  }

  /** For any message size and any starting point, from the third message on the class never
      changes and every message takes as few reads as the largest buffer could. Small messages
      settle on small buffers (up to 1 KiB on the smallest), large ones on the largest. */
  lemma {:induction false} Converges(s: Conn, m: nat, n: nat)
    requires m >= 1 && n >= 2
    ensures After(s, m, n).class_ == After(s, m, 2).class_ && Settled(After(s, m, n).class_, m)
    ensures Received(After(s, m, n), m).1 == CeilDiv(m, 65536)
    ensures var c := After(s, m, n).class_;
      && (m <= 1024 ==> c == S4K) && (m <= 4096 ==> c != S64K)
      && (m >= 4096 ==> c != S4K) && (m >= 16384 ==> c == S64K)
  {
    if n == 2 {
      TwoMessagesSettle(s, m);
      assert After(s, m, 1) == Received(After(s, m, 0), m).0;
    } else {
      Converges(s, m, n - 1);
      SettledStays(After(s, m, n - 1), m);
    }
    SettledStays(After(s, m, n), m);
  }

  /** The class messages of m bytes settle on, from class c. */
  function SettledClass(c: SizeClass, m: nat): SizeClass {
    if m <= 1024 then S4K
    else if m < 4096 then (if c == S64K then S16K else c)
    else if m == 4096 then S16K
    else if m < 16384 then (if c == S4K then S16K else c)
    else S64K
  }

  /** Messages that the two smaller classes take in a read or two. */
  lemma ShortMessage(s: Conn, m: nat)
    requires 1024 < m < 16384
    ensures var r := Received(s, m).0;
      && (r.full <==> m == 4096 && s.class_ == S4K)
      && (s.class_ == S4K ==> r.class_ == if m < 4096 then S4K else S16K)
      && (s.class_ != S4K ==> r.class_ == if s.class_ == S64K && !s.full && m <= 4096 then S16K else s.class_)
  {
    if m <= s.class_.Size() {
      OneRead(s, m);
    } else {
      OneRead(Read(s, m), m - s.class_.Size());
    }
  }

  /** Exactly which: it depends on where the connection started only between the bounds where
      a class is left alone, and never on its last read. */
  lemma {:induction false} SettlesOn(s: Conn, m: nat, n: nat)
    requires m >= 1 && n >= 2
    ensures After(s, m, n).class_ == SettledClass(s.class_, m)
  {
    Converges(s, m, n);
    if 1024 < m < 16384 {
      assert After(s, m, 1) == Received(After(s, m, 0), m).0;
      ShortMessage(s, m);
      ShortMessage(After(s, m, 1), m);
    }
  }
}
