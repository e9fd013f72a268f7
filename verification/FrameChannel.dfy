/** The supervisor's frames to a spawned worker, over a byte stream that may hand its bytes
    out in pieces of any size and may end anywhere. */
module FrameChannel {
  import opened Words
  import opened Binary
  import opened Adoptions

  const SPACE: byte := 32
  const CONN: bytes := [67, 79, 78, 78]
  const STOP: bytes := [83, 84, 79, 80]

  /** What the supervisor says: a bare command, or a command and its body. */
  datatype Message = Bare(cmd: bytes) | With(cmd: bytes, body: bytes)

  /** What a worker makes of one frame. */
  datatype Delivered = Delivered(cmd: bytes, body: bytes)

  function Payload(m: Message): bytes {
    match m
    case Bare(cmd) => cmd
    case With(cmd, body) => cmd + [SPACE] + body
  }

  function Meaning(m: Message): Delivered {
    match m
    case Bare(cmd) => Delivered(cmd, [])
    case With(cmd, body) => Delivered(cmd, body)
  }

  function Meanings(ms: seq<Message>): (ds: seq<Delivered>)
    ensures |ds| == |ms| && forall i :: 0 <= i < |ms| ==> ds[i] == Meaning(ms[i])
  {
    seq(|ms|, i requires 0 <= i < |ms| => Meaning(ms[i]))
  }

  /** The length prefix has four bytes; a longer payload has no frame. */
  function Frame(payload: bytes): (f: Option<bytes>)
    ensures f.Some? <==> |payload| < Values(4)
    ensures f.Some? ==> |f.value| == 4 + |payload|
  {
    if |payload| < Values(4) then Some(ToBig(|payload|, 4) + payload) else None
  }

  /** The first space splits the command from the body. */
  function Split(payload: bytes): Delivered {
    if payload == [] then Delivered([], [])
    else if payload[0] == SPACE then Delivered([], payload[1..])
    else
      var d := Split(payload[1..]);
      Delivered([payload[0]] + d.cmd, d.body)
  }

  /** One frame off the front of a stream; None at its end. A stream ending inside a
      payload gives an empty command first. */
  function Recv(s: bytes): (r: (Option<Delivered>, bytes))
    ensures r.0.Some? ==> |r.1| < |s|
  {
    if |s| < 4 then (None, [])
    else
      var n := FromBig(s[..4]);
      if |s| - 4 < n then (Some(Delivered([], [])), []) else (Some(Split(s[4..4 + n])), s[4 + n..])
  }

  /** Everything a stream delivers before its end. */
  function Deliveries(s: bytes): seq<Delivered>
    decreases |s|
  {
    var (d, rest) := Recv(s);
    if d.None? then [] else [d.value] + Deliveries(rest)
  }

  // ---- the stream of a message list ----

  predicate Sendable(m: Message) {
    Frame(Payload(m)).Some? && SPACE !in m.cmd
  }

  predicate AllSendable(ms: seq<Message>) {
    forall i :: 0 <= i < |ms| ==> Sendable(ms[i])
  }

  function Wire(ms: seq<Message>): bytes
    requires AllSendable(ms)
  {
    if ms == [] then [] else Frame(Payload(ms[0])).value + Wire(ms[1..])
  }

  /** The bytes of a message's frame: the length, most significant byte first, the command, and
      behind a space the body. */
  lemma FrameBytes(m: Message)
    requires Sendable(m)
    ensures var p := m.cmd + match m { case Bare(_) => [] case With(_, body) => Ascii(" ") + body };
      && |p| < 0x1_0000_0000
      && Frame(Payload(m)).value ==
         [|p| / 0x100_0000, |p| / 0x1_0000 % 256, |p| / 256 % 256, |p| % 256] + p
  {
    Widths();
    var p := m.cmd + match m { case Bare(_) => [] case With(_, body) => Ascii(" ") + body };
    assert p == Payload(m);
    FourBytes(|p|);
    hide ToBig, Values;
  }

  /** Splitting recovers command and body just when the command has no space; the body
      may hold anything. */
  lemma {:induction false} SplitExact(cmd: bytes, body: bytes)
    ensures Split(cmd + [SPACE] + body) == Delivered(cmd, body) <==> SPACE !in cmd
    ensures Split(cmd) == Delivered(cmd, []) <==> SPACE !in cmd
  {
    var p := cmd + [SPACE] + body;
    if cmd == [] {
      assert p[1..] == body;
    } else {
      assert p[1..] == cmd[1..] + [SPACE] + body;
      assert cmd == [cmd[0]] + cmd[1..];
      SplitExact(cmd[1..], body);
      if cmd[0] != SPACE {
        var d, e := Split(p[1..]), Split(cmd[1..]);
        assert ([cmd[0]] + d.cmd)[1..] == d.cmd;
        assert ([cmd[0]] + e.cmd)[1..] == e.cmd;
      }
    }
  }

  /** A whole frame at the front of a stream is received as what was sent, and no byte
      behind it is touched. */
  lemma {:induction false} RecvFrame(m: Message, s: bytes)
    requires Sendable(m)
    ensures Recv(Frame(Payload(m)).value + s) == (Some(Meaning(m)), s)
  {
    var p := Payload(m);
    var f := Frame(p).value;
    BigRoundTrip(|p|, 4);
    assert (f + s)[..4] == ToBig(|p|, 4);
    assert (f + s)[4..4 + |p|] == p;
    assert (f + s)[4 + |p|..] == s;
    SplitExact(m.cmd, if m.With? then m.body else []);
  }

  /** A frame cut short: nothing of it arrives if the prefix is incomplete, and otherwise
      just an empty command. Either way the stream has ended. */
  lemma {:induction false} RecvCut(m: Message, k: nat)
    requires Sendable(m) && k < |Frame(Payload(m)).value|
    ensures Recv(Frame(Payload(m)).value[..k]) == (if k < 4 then None else Some(Delivered([], [])), [])
  {
    var p := Payload(m);
    var f := Frame(p).value;
    BigRoundTrip(|p|, 4);
    if k >= 4 {
      assert f[..k][..4] == ToBig(|p|, 4);
    }
  }

  lemma EndOfStream()
    ensures Recv([]) == (None, []) && Deliveries([]) == [] && Partial(0) == []
  {
  }

  lemma DeliverFrame(m: Message, s: bytes)
    requires Sendable(m)
    ensures Deliveries(Frame(Payload(m)).value + s) == [Meaning(m)] + Deliveries(s)
  {
    RecvFrame(m, s);
    hide Recv, Split, Frame, Payload;
    var (d, rest) := Recv(Frame(Payload(m)).value + s);
    assert d == Some(Meaning(m)) && rest == s;
  }

  /** Any sequence of messages arrives exactly, and what follows is read as if it stood alone. */
  lemma {:induction false} RoundTrip(ms: seq<Message>, s: bytes)
    requires AllSendable(ms)
    ensures Deliveries(Wire(ms) + s) == Meanings(ms) + Deliveries(s)
    decreases |ms|
  {
    hide Recv, Split, Frame, Payload, Deliveries;
    if ms == [] {
      assert Wire(ms) + s == s;
    } else {
      var rest := Wire(ms[1..]) + s;
      assert Wire(ms) + s == Frame(Payload(ms[0])).value + rest;
      DeliverFrame(ms[0], rest);
      RoundTrip(ms[1..], s);
      assert Meanings(ms) == [Meaning(ms[0])] + Meanings(ms[1..]);
    }
  }

  /** How many frames lie wholly within the first `k` bytes. */
  function WholeFrames(ms: seq<Message>, k: nat): (j: nat)
    requires AllSendable(ms)
    ensures j <= |ms|
  {
    if ms == [] || k < |Frame(Payload(ms[0])).value| then 0
    else 1 + WholeFrames(ms[1..], k - |Frame(Payload(ms[0])).value|)
  }

  lemma FirstOfWire(ms: seq<Message>, j: nat)
    requires AllSendable(ms) && j < |ms|
    ensures Wire(ms[..j + 1]) == Frame(Payload(ms[0])).value + Wire(ms[1..][..j])
    ensures Meanings(ms[..j + 1]) == [Meaning(ms[0])] + Meanings(ms[1..][..j])
  {
    assert ms[..j + 1][1..] == ms[1..][..j];
  }

  /** WholeFrames is what its name says. */
  lemma {:induction false} WholeFramesFit(ms: seq<Message>, k: nat)
    requires AllSendable(ms) && k <= |Wire(ms)|
    ensures var j := WholeFrames(ms, k);
      && |Wire(ms[..j])| <= k && (j < |ms| ==> k < |Wire(ms[..j + 1])|)
    decreases |ms|
  {
    hide Frame, Payload;
    if ms != [] {
      var f := |Frame(Payload(ms[0])).value|;
      if k >= f {
        WholeFramesFit(ms[1..], k - f);
        var j := WholeFrames(ms[1..], k - f);
        FirstOfWire(ms, j);
        if j + 1 < |ms| {
          FirstOfWire(ms, j + 1);
        }
      } else {
        FirstOfWire(ms, 0);
      }
    }
  }

  /** What `n` bytes of an unfinished frame deliver. */
  function Partial(n: int): seq<Delivered> {
    if n >= 4 then [Delivered([], [])] else []
  }

  lemma DeliverCut(m: Message, k: nat)
    requires Sendable(m) && k < |Frame(Payload(m)).value|
    ensures Deliveries(Frame(Payload(m)).value[..k]) == Partial(k)
  {
    RecvCut(m, k);
    hide Recv, Split, Frame, Payload;
    EndOfStream();
    var (d, rest) := Recv(Frame(Payload(m)).value[..k]);
    assert rest == [];
  }

  /** A stream cut anywhere delivers exactly the whole frames before the cut, then an empty
      command if the cut fell inside a payload, then its end. */
  lemma {:induction false} CutStream(ms: seq<Message>, k: nat)
    requires AllSendable(ms) && k <= |Wire(ms)|
    ensures var j := WholeFrames(ms, k);
      Deliveries(Wire(ms)[..k]) == Meanings(ms[..j]) + Partial(k - |Wire(ms[..j])|)
    decreases |ms|
  {
    hide Recv, Split, Frame, Payload, Deliveries, Partial, Meaning;
    if ms == [] {
      EndOfStream();
    } else {
      var f := Frame(Payload(ms[0])).value;
      if k < |f| {
        assert Wire(ms)[..k] == f[..k];
        DeliverCut(ms[0], k);
        assert ms[..0] == [];
      } else {
        var rest := Wire(ms[1..])[..k - |f|];
        assert Wire(ms)[..k] == f + rest;
        DeliverFrame(ms[0], rest);
        CutStream(ms[1..], k - |f|);
        FirstOfWire(ms, WholeFrames(ms[1..], k - |f|));
      }
    }
  }

  // ---- what the worker does with them ----

  /** The connections a worker is handed before it stops. */
  function HandedOver(ds: seq<Delivered>): seq<bytes> {
    if ds == [] || ds[0].cmd == STOP then []
    else (if ds[0].cmd == CONN then [ds[0].body] else []) + HandedOver(ds[1..])
  }

  lemma Rest(s: bytes, n: nat)
    ensures 4 + n <= |s| ==> s[4..][..n] == s[4..4 + n] && s[4..][n..] == s[4 + n..]
  {
  }

  lemma Spelled()
    ensures CONN == Ascii("CONN") && STOP == Ascii("STOP") && SPACE == ' ' as int
  {
  }

  /** STOP ends it, CONN hands over its body, and any other command is passed over. */
  lemma HandedFirst(ds: seq<Delivered>)
    requires ds != []
    ensures ds[0].cmd == Ascii("STOP") ==> HandedOver(ds) == []
    ensures ds[0].cmd == Ascii("CONN") ==>
      HandedOver(ds) != [] && HandedOver(ds)[0] == ds[0].body && HandedOver(ds)[1..] == HandedOver(ds[1..])
    ensures ds[0].cmd != Ascii("STOP") && ds[0].cmd != Ascii("CONN") ==> HandedOver(ds) == HandedOver(ds[1..])
  {
    Spelled();
    assert CONN[0] != STOP[0];
  }

  lemma {:induction false} HandedOverPrefix(ds: seq<Delivered>, es: seq<Delivered>, n: int)
    ensures HandedOver(ds + Partial(n)) == HandedOver(ds) <= HandedOver(ds + es)
    decreases |ds|
  {
    if ds == [] {
      assert ds + Partial(n) == Partial(n) && ds + es == es;
      assert HandedOver(Partial(n)) == [];
    } else {
      hide Partial;
      assert (ds + Partial(n))[1..] == ds[1..] + Partial(n) && (ds + es)[1..] == ds[1..] + es;
      HandedOverPrefix(ds[1..], es, n);
    }
  }

  lemma MeaningsSplit(ms: seq<Message>, j: nat)
    requires j <= |ms|
    ensures Meanings(ms) == Meanings(ms[..j]) + Meanings(ms[j..])
  {
  }

  /** However the channel breaks, a worker adopts only connections it was sent, whole and in
      order, and exactly those sent whole before the break. */
  lemma {:induction false} BrokenChannelHandsPrefix(ms: seq<Message>, k: nat)
    requires AllSendable(ms) && k <= |Wire(ms)|
    ensures HandedOver(Deliveries(Wire(ms)[..k])) == HandedOver(Meanings(ms[..WholeFrames(ms, k)]))
    ensures HandedOver(Deliveries(Wire(ms)[..k])) <= HandedOver(Meanings(ms))
  {
    hide Recv, Split, Frame, Payload, Sendable, Meaning, Deliveries, WholeFrames, Wire, HandedOver, Partial;
    var j := WholeFrames(ms, k);
    CutStream(ms, k);
    MeaningsSplit(ms, j);
    HandedOverPrefix(Meanings(ms[..j]), Meanings(ms[j..]), k - |Wire(ms[..j])|);
  }

  // ---- the two ends ----

  /** The worker's end. `pieces` is what the stream will hand out, in its own chunking. */
  class Channel {
    var pieces: seq<bytes>

    ghost predicate Valid()
      reads this
    {
      forall i :: 0 <= i < |pieces| ==> pieces[i] != []
    }

    ghost function Unread(): bytes
      reads this
    {
      Joined(pieces)
    }

    constructor (pieces: seq<bytes>)
      requires forall i :: 0 <= i < |pieces| ==> pieces[i] != []
      ensures Valid() && Unread() == Joined(pieces)
    {
      this.pieces := pieces;
    }

    /** The stream's own `read`: at most `n` bytes, none only at its end. */
    method Read(n: nat) returns (chunk: bytes)
      requires Valid() && n > 0
      modifies this
      ensures Valid() && old(Unread()) == chunk + Unread()
      ensures |chunk| <= n && (chunk == [] <==> old(Unread()) == [])
    {
      if pieces == [] {
        return [];
      }
      var first := pieces[0];
      if |first| <= n {
        chunk := first;
        pieces := pieces[1..];
      } else {
        chunk := first[..n];
        assert first == chunk + first[n..];
        assert pieces[1..] == pieces[0 := first[n..]][1..];
        pieces := pieces[0 := first[n..]];
        assert old(Unread()) == first + Joined(pieces[1..]);
        assert chunk + (first[n..] + Joined(pieces[1..])) == first + Joined(pieces[1..]);
      }
    }

    /** `n` bytes, or none and the rest discarded when fewer are left. */
    method ReadExact(n: nat) returns (buf: bytes)
      requires Valid()
      modifies this
      ensures Valid()
      ensures n <= old(|Unread()|) ==> buf == old(Unread())[..n] && Unread() == old(Unread())[n..]
      ensures n > old(|Unread()|) ==> buf == [] && Unread() == []
    {
      buf := [];
      while |buf| < n
        invariant Valid() && |buf| <= n
        invariant old(Unread()) == buf + Unread()
        decreases n - |buf|
      {
        var chunk := Read(n - |buf|);
        if chunk == [] {
          assert Unread() == [];
          return [];
        }
        buf := buf + chunk;
      }
    }

    /** One frame; None at the end of the stream. However the stream cut its bytes up, the
        result depends only on the bytes. */
    method RecvFrame() returns (d: Option<Delivered>)
      requires Valid()
      modifies this
      ensures Valid() && (d, Unread()) == Recv(old(Unread()))
    {
      hide Joined, FromBig;
      ghost var all := Unread();
      var head := ReadExact(4);
      if head == [] {
        return None;
      }
      var payload := ReadExact(FromBig(head));
      Rest(all, FromBig(head));
      d := Some(Split(payload));
    }

    /** Receive until STOP, the end, or a closed loop, and deal with each connection. */
    method Pump(env: nat -> Around) returns (w: Worker)
      requires Valid()
      modifies this
      ensures Valid() && w == MeetAll(Fresh(), HandedOver(Deliveries(old(Unread()))), env, 0)
    {
      hide Recv, Split, Joined, Meet;
      w := Fresh();
      var i := 0;
      while !w.stopped
        invariant Valid()
        invariant MeetAll(w, HandedOver(Deliveries(Unread())), env, i)
               == MeetAll(Fresh(), HandedOver(Deliveries(old(Unread()))), env, 0)
        decreases |Unread()|
      {
        ghost var before := Unread();
        var d := RecvFrame();
        assert d.Some? ==> Deliveries(before)[1..] == Deliveries(Unread());
        if d.None? || d.value.cmd == STOP {
          assert HandedOver(Deliveries(before)) == [];
          break;
        }
        Spelled();
        HandedFirst(Deliveries(before));
        if d.value.cmd == CONN {
          w := Meet(w, d.value.body, env(i));
          i := i + 1;
        }
      }
    }
  }

  function Joined(pieces: seq<bytes>): bytes {
    if pieces == [] then [] else pieces[0] + Joined(pieces[1..])
  }
}
