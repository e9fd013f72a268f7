/** The load generator's WebSocket client: sending frames, and reading one message whatever
    way the server cut it up. */
module WsClient {
  import opened Words
  import opened Binary
  import opened WsFrames

  /** The largest frame the client reads: 64 MiB. */
  const CAP := 0x400_0000

  datatype Failure = Eof | MaskedFrame | TooBig | Closed

  /** `raw` counts the bytes of what was read. */
  datatype Result = Message(payload: bytes, raw: nat) | Failed(why: Failure, raw: nat)

  // ---- one server frame ----

  datatype Taken = Got(first: byte, payload: bytes, size: nat, rest: bytes) | Bad(why: Failure, raw: nat, rest: bytes)

  /** The payload, with `size` bytes of header read before `s`. */
  function TakePayload(first: byte, n: nat, size: nat, s: bytes): (t: Taken)
    ensures t.Got? ==> |t.rest| <= |s| && |t.payload| <= CAP
  {
    if n > CAP then Bad(TooBig, size, s)
    else if |s| < n then Bad(Eof, size, [])
    else Got(first, s[..n], size + n, s[n..])
  }

  /** The extended length, if the lead byte has one, and then the payload. */
  function TakeLength(first: byte, lead: byte, s: bytes): (t: Taken)
    ensures t.Got? ==> |t.rest| <= |s| && |t.payload| <= CAP
  {
    var x := ExtensionSize(lead);
    if |s| < x then Bad(Eof, 2, []) else TakePayload(first, LengthOf(lead, s[..x]), 2 + x, s[x..])
  }

  /** A frame off the front of the stream. A failed read uses up what it found. */
  function Take(s: bytes): (t: Taken)
    ensures t.Got? ==> |t.rest| < |s| && |t.payload| <= CAP
  {
    if |s| < 2 then Bad(Eof, 0, [])
    else if s[1] >= 128 then Bad(MaskedFrame, 2, s[2..])
    else TakeLength(s[0], s[1], s[2..])
  }

  function Op(first: byte): byte {
    first % 16
  }

  /** What one message read does to a stream: its result, the pings it answers, the bytes left. */
  datatype Reading = Reading(result: Result, pings: seq<bytes>, rest: bytes)

  /** Read frames until a final data frame, with `out` and `raw` gathered so far. */
  function ReadFrom(s: bytes, out: bytes, raw: nat): (r: Reading)
    decreases |s|
  {
    match Take(s)
    case Bad(why, n, rest) => Reading(Failed(why, raw + n), [], rest)
    case Got(first, payload, size, rest) =>
      if Op(first) == CLOSE then Reading(Failed(Closed, raw + size), [], rest)
      else if Op(first) == PING then
        var r := ReadFrom(rest, out, raw + size);
        r.(pings := [payload] + r.pings)
      else if Op(first) == PONG then ReadFrom(rest, out, raw + size)
      else if first >= 128 then Reading(Message(out + payload, raw + size), [], rest)
      else ReadFrom(rest, out + payload, raw + size)
  }

  // ---- what servers send ----

  /** A frame with its first byte (the final bit, reserved bits and opcode) and length form. */
  datatype Frame = Frame(first: byte, form: Form, payload: bytes)

  predicate WellFormed(f: Frame) {
    Fits(f.form, |f.payload|) && |f.payload| <= CAP
  }

  function Bytes(f: Frame): (s: bytes)
    requires WellFormed(f)
    ensures |s| >= 2 + |f.payload|
  {
    [f.first, Lead(f.form, |f.payload|)] + Extension(f.form, |f.payload|) + f.payload
  }

  predicate Control(f: Frame) {
    Op(f.first) == PING || Op(f.first) == PONG
  }

  predicate Data(f: Frame) {
    !Control(f) && Op(f.first) != CLOSE
  }

  /** A control, or a fragment with more to come. */
  predicate Unfinished(f: Frame) {
    Control(f) || (Data(f) && f.first < 128)
  }

  predicate AllWellFormed(fs: seq<Frame>) {
    forall i :: 0 <= i < |fs| ==> WellFormed(fs[i])
  }

  /** A message in fragments, with controls anywhere before the last (sections 5.4 and 5.5
      of RFC 6455). */
  predicate WholeMessage(fs: seq<Frame>)
    ensures WholeMessage(fs) ==> AllWellFormed(fs)
  {
    && fs != [] && WellFormed(fs[0])
    && if |fs| == 1 then Data(fs[0]) && !Unfinished(fs[0]) else Unfinished(fs[0]) && WholeMessage(fs[1..])
  }

  function Wire(fs: seq<Frame>): bytes
    requires AllWellFormed(fs)
  {
    if fs == [] then [] else Bytes(fs[0]) + Wire(fs[1..])
  }

  /** The data payloads, one after another. */
  function DataOf(fs: seq<Frame>): bytes {
    if fs == [] then [] else (if Data(fs[0]) then fs[0].payload else []) + DataOf(fs[1..])
  }

  /** The payloads of the pings, in order. */
  function PingsOf(fs: seq<Frame>): seq<bytes> {
    if fs == [] then [] else (if Op(fs[0].first) == PING then [fs[0].payload] else []) + PingsOf(fs[1..])
  }

  // ---- the reader is exact ----

  /** A frame in any length form is taken off the front, and nothing behind it is touched. */
  lemma TakeFrame(f: Frame, s: bytes)
    requires WellFormed(f)
    ensures Take(Bytes(f) + s) == Got(f.first, f.payload, |Bytes(f)|, s)
  {
    var n := |f.payload|;
    LengthRoundTrip(f.form, n);
    var t, lead, x := Bytes(f) + s, Lead(f.form, n), Extension(f.form, n);
    TakeTail(f.first, lead, x, f.payload, s);
    TwoAndRest(f.first, lead, x, f.payload, s);
    hide Extension, ExtensionSize, LengthOf, Fits, TakeLength, Lead;
  }

  lemma TwoAndRest(a: byte, b: byte, x: bytes, p: bytes, s: bytes)
    ensures var t := [a, b] + x + p + s; t[0] == a && t[1] == b && t[2..] == x + (p + s)
  {
  }

  lemma TakeTail(first: byte, lead: byte, x: bytes, p: bytes, s: bytes)
    requires ExtensionSize(lead) == |x| && LengthOf(lead, x) == |p| <= CAP
    ensures TakeLength(first, lead, x + (p + s)) == Got(first, p, 2 + |x| + |p|, s)
  {
    FrontAndRest(x, p + s);
    FrontAndRest(p, s);
    hide LengthOf, ExtensionSize;
  }

  lemma FrontAndRest(a: bytes, b: bytes)
    ensures (a + b)[..|a|] == a && (a + b)[|a|..] == b
  {
  }

  /** Every lead byte and extension is the length of something in some form. */
  lemma SomeForm(lead: byte, x: bytes) returns (form: Form)
    requires lead < 128 && |x| == ExtensionSize(lead)
    ensures var n := LengthOf(lead, x); Fits(form, n) && Lead(form, n) == lead && Extension(form, n) == x
  {
    form := if lead < 126 then Seven else if lead == 126 then Sixteen else SixtyFour;
    ReadThenWrite(x);
    Widths();
  }

  /** What is taken was the bytes of some frame in some length form. */
  lemma TakenWasFrame(s: bytes) returns (f: Frame)
    ensures WellFormed(f)
    ensures Take(s).Got? ==> s == Bytes(f) + Take(s).rest
    ensures Take(s).Got? ==> Take(s) == Got(f.first, f.payload, |Bytes(f)|, Take(s).rest)
  {
    f := Frame(0, Seven, []);
    if Take(s).Got? {
      var u, x, p := s[2..], ExtensionSize(s[1]), Take(s).payload;
      var form := SomeForm(s[1], u[..x]);
      f := Frame(s[0], form, p);
      hide Lead, Extension, LengthOf, Fits, ExtensionSize;
      Reassemble(s, x, |p|);
    }
  }

  lemma Reassemble(s: bytes, x: nat, n: nat)
    requires 2 + x + n <= |s|
    ensures s == [s[0], s[1]] + s[2..][..x] + s[2..][x..][..n] + s[2..][x..][n..]
  {
  }

  /** A frame cut anywhere is an end of file. */
  lemma TakeCut(f: Frame, k: nat)
    requires WellFormed(f) && k < |Bytes(f)|
    ensures Take(Bytes(f)[..k]).Bad? && Take(Bytes(f)[..k]).why == Eof
  {
    var n := |f.payload|;
    LengthRoundTrip(f.form, n);
    var b, x := Bytes(f), Extension(f.form, n);
    hide Lead, Extension, ExtensionSize, LengthOf, Fits;
    if k >= 2 {
      assert b[..k][1] == Lead(f.form, n);
      assert b[..k][2..] == (x + f.payload)[..k - 2];
      PrefixOfBoth(x, f.payload, k - 2);
    }
  }

  lemma PrefixOfBoth(a: bytes, b: bytes, k: nat)
    requires k <= |a| + |b|
    ensures k >= |a| ==> (a + b)[..k][..|a|] == a && (a + b)[..k][|a|..] == b[..k - |a|]
  {
  }

  function Gathered(f: Frame): bytes {
    if Data(f) then f.payload else []
  }

  function Answers(f: Frame): seq<bytes> {
    if Op(f.first) == PING then [f.payload] else []
  }

  /** One frame further, by its kind. */
  lemma ReadNext(s: bytes, out: bytes, raw: nat)
    ensures var t := Take(s);
      ReadFrom(s, out, raw) ==
        if t.Bad? then Reading(Failed(t.why, raw + t.raw), [], t.rest)
        else if Op(t.first) == CLOSE then Reading(Failed(Closed, raw + t.size), [], t.rest)
        else
          var data := Op(t.first) != PING && Op(t.first) != PONG;
          if data && t.first >= 128 then Reading(Message(out + t.payload, raw + t.size), [], t.rest)
          else
            var r := ReadFrom(t.rest, if data then out + t.payload else out, raw + t.size);
            if Op(t.first) == PING then r.(pings := [t.payload] + r.pings) else r
  {
    hide Take;
  }

  /** What a frame's kind makes of it: 8 closes, 9 is answered and dropped, 10 is dropped, and
      anything else is data, the last of the message if its final bit is set. */
  lemma KindsOfFrames(s: bytes, out: bytes, raw: nat)
    requires Take(s).Got?
    ensures var t := Take(s);
      var kind := t.first % 16;
      var final := t.first / 128 == 1;
      var r := ReadFrom(s, out, raw);
      && (kind == 8 ==> r == Reading(Failed(Closed, raw + t.size), [], t.rest))
      && (kind == 9 ==>
            var more := ReadFrom(t.rest, out, raw + t.size); r == more.(pings := [t.payload] + more.pings))
      && (kind == 10 ==> r == ReadFrom(t.rest, out, raw + t.size))
      && (kind !in {8, 9, 10} && final ==> r == Reading(Message(out + t.payload, raw + t.size), [], t.rest))
      && (kind !in {8, 9, 10} && !final ==> r == ReadFrom(t.rest, out + t.payload, raw + t.size))
  {
    ReadNext(s, out, raw);
    hide Take, ReadFrom;
  }

  /** What is made of the first bytes: a masked frame is refused after two bytes, one of more
      than 67108864 bytes after its header, a stream that ends inside is an end of file, and
      otherwise the payload is taken. The length is the lead byte, or the next two or eight
      bytes, most significant first. */
  lemma TakeMeans(s: bytes) returns (n: nat)
    requires |s| >= 2
    ensures var h := if s[1] == 126 then 4 else if s[1] == 127 then 10 else 2;
      && (s[1] < 126 ==> n == s[1])
      && (s[1] == 126 && |s| >= 4 ==> n == 256 * (s[2] as int) + s[3])
      && (s[1] == 127 && |s| >= 10 ==>
            n < Values(8) && forall i :: 0 <= i < 8 ==> n / Values(7 - i) % 256 == s[2..10][i])
      && Take(s) ==
         if s[1] >= 128 then Bad(MaskedFrame, 2, s[2..])
         else if |s| < h then Bad(Eof, 2, [])
         else if n > 67108864 then Bad(TooBig, h, s[h..])
         else if |s| - h < n then Bad(Eof, h, [])
         else Got(s[0], s[h..h + n], h + n, s[h + n..])
  {
    var x := ExtensionSize(s[1]);
    var u := s[2..];
    n := if s[1] < 128 && |u| >= x then LengthOf(s[1], u[..x]) else s[1];
    if s[1] == 126 && |s| >= 4 {
      TwoOf(u[..2]);
    }
    if s[1] == 127 && |s| >= 10 {
      assert u[..8] == s[2..10];
      forall i | 0 <= i < 8 ensures n / Values(7 - i) % 256 == s[2..10][i] {
        FromBigAt(s[2..10], i);
      }
    }
    hide FromBig, Values;
    if |u| >= x {
      assert u[x..] == s[2 + x..];
      if |s| - 2 - x >= n {
        assert u[x..][..n] == s[2 + x..2 + x + n] && u[x..][n..] == s[2 + x + n..];
      }
    }
  }

  lemma TwoOf(s: bytes)
    requires |s| == 2
    ensures FromBig(s) == 256 * (s[0] as int) + s[1]
  {
    assert FromBig(s[..1]) == 256 * FromBig(s[..1][..0]) + s[0];
  }

  /** One frame read, by its kind. */
  lemma ReadOne(f: Frame, s: bytes, out: bytes, raw: nat)
    requires WellFormed(f)
    ensures Unfinished(f) ==>
      var r := ReadFrom(s, out + Gathered(f), raw + |Bytes(f)|);
      ReadFrom(Bytes(f) + s, out, raw) == r.(pings := Answers(f) + r.pings)
    ensures Data(f) && !Unfinished(f) ==>
      ReadFrom(Bytes(f) + s, out, raw) == Reading(Message(out + Gathered(f), raw + |Bytes(f)|), [], s)
  {
    TakeFrame(f, s);
    hide Take, Bytes;
    assert out + [] == out;
  }

  /** Any message in any fragments and length forms, with pings and pongs anywhere: the
      reader returns its data behind what it had, counts and consumes exactly its frames,
      and answers exactly its pings, whatever follows. */
  lemma {:induction false} ReadsMessage(fs: seq<Frame>, s: bytes, out: bytes, raw: nat)
    requires WholeMessage(fs)
    ensures ReadFrom(Wire(fs) + s, out, raw) == Reading(Message(out + DataOf(fs), raw + |Wire(fs)|), PingsOf(fs), s)
    decreases |fs|
  {
    hide Take, Bytes, ReadFrom, Unfinished, Data, Gathered, Answers;
    var f := fs[0];
    if |fs| == 1 {
      assert Wire(fs) == Bytes(f) && DataOf(fs) == Gathered(f) && PingsOf(fs) == [] by {
        LastOf(f);
        assert fs == [f];
      }
      ReadOne(f, s, out, raw);
    } else {
      FirstOf(fs);
      Regroup(fs, out, s);
      hide Wire, DataOf, PingsOf, WellFormed;
      ReadOne(f, Wire(fs[1..]) + s, out, raw);
      ReadsMessage(fs[1..], s, out + Gathered(f), raw + |Bytes(f)|);
    }
  }

  lemma Regroup(fs: seq<Frame>, out: bytes, s: bytes)
    requires fs != [] && AllWellFormed(fs)
    ensures Wire(fs) + s == Bytes(fs[0]) + (Wire(fs[1..]) + s)
    ensures out + Gathered(fs[0]) + DataOf(fs[1..]) == out + DataOf(fs)
  {
    FirstOf(fs);
    hide Wire, DataOf, Bytes, Gathered;
    Regrouped(Bytes(fs[0]), Wire(fs[1..]), s);
    Regrouped(out, Gathered(fs[0]), DataOf(fs[1..]));
  }

  lemma FirstOf(fs: seq<Frame>)
    requires fs != [] && AllWellFormed(fs)
    ensures Wire(fs) == Bytes(fs[0]) + Wire(fs[1..])
    ensures DataOf(fs) == Gathered(fs[0]) + DataOf(fs[1..])
    ensures PingsOf(fs) == Answers(fs[0]) + PingsOf(fs[1..])
  {
  }

  lemma LastOf(f: Frame)
    requires WellFormed(f)
    ensures Wire([f]) == Bytes(f) && DataOf([f]) == Gathered(f)
    ensures Data(f) ==> PingsOf([f]) == []
  {
    assert [f][1..] == [];
    assert Wire([]) == [] && DataOf([]) == [] && PingsOf([]) == [];
    assert Wire([f]) == Bytes(f) + [];
  }

  lemma OneMore(f: Frame, fs: seq<Frame>, s: bytes)
    requires WellFormed(f) && Unfinished(f) && WholeMessage(fs)
    ensures WholeMessage([f] + fs) && Wire([f] + fs) + s == Bytes(f) + (Wire(fs) + s)
  {
    var all := [f] + fs;
    assert all[0] == f && all[1..] == fs;
    FirstOf(all);
    Regrouped(Bytes(f), Wire(fs), s);
    hide Wire, Bytes;
  }

  /** The first frame of whatever a message was read from. */
  lemma FirstFrame(s: bytes, out: bytes, raw: nat) returns (f: Frame, rest: bytes)
    ensures WellFormed(f)
    ensures ReadFrom(s, out, raw).result.Message? ==> s == Bytes(f) + rest
    ensures var r, more := ReadFrom(s, out, raw), ReadFrom(rest, out + Gathered(f), raw + |Bytes(f)|);
      r.result.Message? ==>
        if Unfinished(f) then more.result.Message? && more.rest == r.rest else Data(f) && r.rest == rest
  {
    f := TakenWasFrame(s);
    rest := if Take(s).Got? then Take(s).rest else s;
    assert Take(s).Bad? || Op(f.first) == CLOSE ==> ReadFrom(s, out, raw).result.Failed?;
    if Take(s).Got? {
      ReadOne(f, rest, out, raw);
    }
  }

  lemma {:induction false} SentFrames(s: bytes, out: bytes, raw: nat) returns (fs: seq<Frame>)
    ensures ReadFrom(s, out, raw).result.Message? ==>
      WholeMessage(fs) && s == Wire(fs) + ReadFrom(s, out, raw).rest
    decreases |s|
  {
    var f, rest := FirstFrame(s, out, raw);
    fs := [f];
    var r := ReadFrom(s, out, raw);
    hide Bytes, ReadFrom, Gathered, Unfinished, Data;
    if r.result.Message? {
      LastOf(f);
      if Unfinished(f) {
        var more := SentFrames(rest, out + Gathered(f), raw + |Bytes(f)|);
        OneMore(f, more, r.rest);
        fs := [f] + more;
      }
    }
  }

  /** And only then: whatever bytes a message was read from were the frames of a message
      with that data, followed by what is left. */
  lemma MessageWasSent(s: bytes, out: bytes, raw: nat) returns (fs: seq<Frame>)
    ensures ReadFrom(s, out, raw).result.Message? ==> WholeMessage(fs)
    ensures var r := ReadFrom(s, out, raw);
      r.result.Message? ==>
        && s == Wire(fs) + r.rest
        && r == Reading(Message(out + DataOf(fs), raw + |Wire(fs)|), PingsOf(fs), r.rest)
  {
    fs := SentFrames(s, out, raw);
    hide ReadFrom, Wire, DataOf, PingsOf, WholeMessage;
    var r := ReadFrom(s, out, raw);
    if r.result.Message? {
      ReadsMessage(fs, r.rest, out, raw);
    }
  }

  /** A message cut short is an end of file, never a shorter message. */
  lemma {:induction false} CutMessage(fs: seq<Frame>, k: nat, out: bytes, raw: nat)
    requires WholeMessage(fs) && k < |Wire(fs)|
    ensures ReadFrom(Wire(fs)[..k], out, raw).result.Failed?
    ensures ReadFrom(Wire(fs)[..k], out, raw).result.why == Eof
    decreases |fs|
  {
    hide Take, Bytes;
    var f := fs[0];
    var b := Bytes(f);
    if k < |b| {
      assert Wire(fs)[..k] == b[..k];
      TakeCut(f, k);
    } else {
      LastOf(f);
      assert |fs| == 1 ==> fs == [f];
      hide ReadFrom, Unfinished, Data;
      if |fs| > 1 {
        var more := Wire(fs[1..])[..k - |b|];
        assert Wire(fs)[..k] == b + more;
        ReadOne(f, more, out, raw);
        CutMessage(fs[1..], k - |b|, out + Gathered(f), raw + |b|);
      }
    }
  }

  // ---- the client ----

  /** A reading with pings answered before it. */
  function After(pings: seq<bytes>, r: Reading): Reading {
    r.(pings := pings + r.pings)
  }

  /** A pong a server will read as the ping it sent. */
  ghost predicate PongFor(frame: bytes, p: bytes) {
    |p| <= MAX_INT && exists key: bytes :: |key| == 4 && frame == ClientFrame(PONG, p, key)
  }

  lemma PongCarriesPing(frame: bytes, p: bytes, rest: bytes)
    requires PongFor(frame, p)
    ensures Parse(frame + rest).Some?
    ensures var f := Parse(frame + rest).value;
      f.first == 128 + PONG && f.key.Some? && f.payload == p && f.rest == rest
  {
    var key: bytes :| |key| == 4 && frame == ClientFrame(PONG, p, key);
    ClientFrameParses(PONG, p, key, rest);
  }

  /** Four random bytes. */
  method RandomKey() returns (key: bytes)
    ensures |key| == 4
  {
    var a: byte := *;
    var b: byte := *;
    var c: byte := *;
    var d: byte := *;
    key := [a, b, c, d];
  }

  /** Mask everything behind the header, where it lies. */
  method MaskInPlace(out: array<byte>, h: nat, key: bytes)
    requires h <= out.Length && |key| == 4
    modifies out
    ensures out[..h] == old(out[..h]) && out[h..] == Masked(old(out[h..]), key)
  {
    var n := out.Length - h;
    for i := 0 to n
      invariant forall j :: 0 <= j < h ==> out[j] == old(out[j])
      invariant forall j :: 0 <= j < i ==> out[h + j] == Xor(old(out[h..])[j], key[j % 4])
      invariant forall j :: i <= j < n ==> out[h + j] == old(out[h..])[j]
    {
      out[h + i] := Xor(out[h + i], key[i % 4]);
    }
    assert forall j :: 0 <= j < n ==> out[h..][j] == out[h + j];
  }

  /** A masked final frame: header, key, and the payload masked where it lies. */
  method WsFrame(op: byte, p: bytes) returns (frame: bytes, key: bytes)
    requires |p| <= MAX_INT
    ensures |key| == 4 && frame == ClientFrame(op, p, key)
  {
    ClientFormFits(|p|);
    var hdr: bytes := [128 + op % 128];
    var n := |p|;
    if n < 126 {
      hdr := hdr + [128 + n];
    } else if n <= 0xffff {
      hdr := hdr + [128 + 126] + ToBig(n, 2);
    } else {
      hdr := hdr + [128 + 127] + ToBig(n, 8);
    }
    assert hdr == [128 + op % 128, 128 + Lead(ClientForm(n), n)] + Extension(ClientForm(n), n);
    hide Lead, Extension, ClientForm, ToBig;
    key := RandomKey();
    hdr := hdr + key;
    var h, full := |hdr|, hdr + p;
    var out := new byte[h + n](i requires 0 <= i < h + n => full[i]);
    assert out[..] == full;
    assert out[..h] == hdr && out[h..] == p;
    MaskInPlace(out, h, key);
    frame := out[..];
    assert frame == out[..h] + out[h..];
  }

  class Conn {
    /** What the server has still to be read, and the frames written to it. */
    var input: bytes
    var output: seq<bytes>

    constructor (input: bytes)
      ensures this.input == input && output == []
    {
      this.input, output := input, [];
    }

    /** `n` bytes, or all that is left and an error. */
    method ReadFull(n: nat) returns (b: Option<bytes>)
      modifies this`input
      ensures n <= old(|input|) ==> b == Some(old(input)[..n]) && input == old(input)[n..]
      ensures n > old(|input|) ==> b == None && input == []
    {
      if |input| < n {
        input := [];
        return None;
      }
      b := Some(input[..n]);
      input := input[n..];
    }

    /** Answer a ping. */
    method Answer(p: bytes)
      requires |p| <= MAX_INT
      modifies this`output
      ensures output != [] && PongFor(Last(output), p) && ButLast(output) == old(output)
    {
      var frame, key := WsFrame(PONG, p);
      assert PongFor(frame, p);
      output := output + [frame];
    }

    /** Does the output since `n` answer these pings, in order? */
    ghost predicate Answered(n: nat, ps: seq<bytes>)
      reads this
    {
      |output| == n + |ps| && forall i :: 0 <= i < |ps| ==> PongFor(output[n + i], ps[i])
    }

    /** The length behind a lead byte, and the bytes of header up to its end. */
    method ReadLength(lead: byte) returns (n: Option<nat>, size: nat)
      requires lead < 128
      modifies this`input
      ensures size == 2 + ExtensionSize(lead)
      ensures |old(input)| < ExtensionSize(lead) ==> n == None && input == []
      ensures |old(input)| >= ExtensionSize(lead) ==>
        n == Some(LengthOf(lead, old(input)[..ExtensionSize(lead)])) && input == old(input)[ExtensionSize(lead)..]
    {
      n, size := Some(lead), 2;
      assert input[0..] == input;
      if lead == 126 {
        var x := ReadFull(2);
        n, size := if x.Some? then Some(FromBig(x.value)) else None, 4;
      } else if lead == 127 {
        var x := ReadFull(8);
        n, size := if x.Some? then Some(FromBig(x.value)) else None, 10;
      }
    }

    /** One frame's header and payload. */
    method ReadFrame() returns (t: Taken)
      modifies this`input
      ensures t == Take(old(input)) && input == t.rest
    {
      hide LengthOf, ExtensionSize;
      var h := ReadFull(2);
      if h.None? {
        return Bad(Eof, 0, input);
      }
      if h.value[1] >= 128 {
        return Bad(MaskedFrame, 2, input);
      }
      var n, size := ReadLength(h.value[1]);
      if n.None? {
        return Bad(Eof, 2, input);
      }
      if n.value > CAP {
        return Bad(TooBig, size, input);
      }
      var p := ReadFull(n.value);
      if p.None? {
        return Bad(Eof, size, input);
      }
      t := Got(h.value[0], p.value, size + n.value, input);
    }

    /** One data message, put together from its fragments, answering pings on the way. */
    method WsRead() returns (r: Result, ghost pings: seq<bytes>)
      modifies this
      ensures Reading(r, pings, input) == ReadFrom(old(input), [], 0)
      ensures Answered(old(|output|), pings) && old(output) <= output
    {
      hide Take, TakeLength, TakePayload, PongFor, Op;
      var out, raw := [], 0;
      pings := [];
      assert After([], ReadFrom(input, out, raw)) == ReadFrom(input, out, raw);
      while true
        invariant ReadFrom(old(input), [], 0) == After(pings, ReadFrom(input, out, raw))
        invariant Answered(old(|output|), pings) && old(output) <= output
        decreases |input|
      {
        ReadNext(input, out, raw);
        hide ReadFrom;
        assert pings + [] == pings;
        var t := ReadFrame();
        match t
        case Bad(why, n, _) =>
          return Failed(why, raw + n), pings;
        case Got(first, payload, size, _) =>
          raw := raw + size;
          var op := Op(first);
          if op == CLOSE {
            return Failed(Closed, raw), pings;
          } else if op == PING {
            Answer(payload);
            Regrouped(pings, [payload], ReadFrom(input, out, raw).pings);
            pings := pings + [payload];
          } else if op == PONG {
          } else {
            out := out + payload;
            if first >= 128 {
              return Message(out, raw), pings;
            }
          }
      }
    }
  }
}
