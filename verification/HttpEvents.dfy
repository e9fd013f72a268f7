/** HTTP/1.1 request assembly: what each llhttp callback does to the accumulator, the grammar
    of the event stream, and the requests a stream of messages must yield. */
module HttpEvents {
  import opened Words

  datatype Header = Header(name: bytes, value: bytes)
  datatype Limits = Limits(maxHeaderBytes: nat, maxHeaders: nat, maxUrl: nat, maxBody: Option<nat>)
  datatype Reason = TargetTooLong | HeadersTooLarge | TooManyHeaders | NotOneHost | BodyTooLarge
  datatype ParseError = ParseError(status: nat, reason: Reason)

  /** What llhttp itself knows of a finished message. */
  datatype Tail = Tail(method_: nat, minor: nat, keepAlive: bool, upgrade: bool)
  datatype Request = Request(tail: Tail, url: bytes, headers: seq<Header>, body: bytes)

  datatype Event =
    | MessageBegin
    | Url(b: bytes)
    | Field(b: bytes)
    | Value(b: bytes)
    | HeadersComplete(minor: nat)
    | Body(b: bytes)
    | MessageComplete(tail: Tail)

  datatype Acc = Acc(
    url: bytes, headers: seq<Header>, field: bytes, value: bytes, inValue: bool, headerBytes: nat,
    body: bytes, completed: seq<Request>, error: Option<ParseError>,
    inHead: bool, owesContinue: bool, expectingBody: bool)

  function Fresh(): Acc {
    Acc([], [], [], [], false, 0, [], [], None, false, false, false)
  }

  // ---- header bytes ----

  const HOST: bytes := [104, 111, 115, 116]
  const EXPECT: bytes := [101, 120, 112, 101, 99, 116]
  const CONTENT_LENGTH: bytes := [99, 111, 110, 116, 101, 110, 116, 45, 108, 101, 110, 103, 116, 104]
  const CONTINUE: bytes := [49, 48, 48, 45, 99, 111, 110, 116, 105, 110, 117, 101]
  const COMMA: byte := 44

  function Lower(b: bytes): (r: bytes)
    ensures |r| == |b|
  {
    seq(|b|, i requires 0 <= i < |b| => if 65 <= b[i] <= 90 then b[i] + 32 else b[i])
  }

  function Lowered(hs: seq<Header>): (r: seq<Header>)
    ensures |r| == |hs| && forall i :: 0 <= i < |hs| ==> r[i] == Header(Lower(hs[i].name), hs[i].value)
  {
    seq(|hs|, i requires 0 <= i < |hs| => Header(Lower(hs[i].name), hs[i].value))
  }

  function HeaderBytes(hs: seq<Header>): nat {
    if hs == [] then 0 else HeaderBytes(hs[..|hs| - 1]) + |hs[|hs| - 1].name| + |hs[|hs| - 1].value|
  }

  /** Bytes of the first k headers. */
  function BytesBefore(hs: seq<Header>, k: nat): nat
    requires k <= |hs|
  {
    HeaderBytes(hs[..k])
  }

  function CountNamed(hs: seq<Header>, name: bytes): nat {
    if hs == [] then 0 else CountNamed(hs[1..], name) + if hs[0].name == name then 1 else 0
  }

  function FirstNamed(hs: seq<Header>, name: bytes): Option<bytes> {
    if hs == [] then None else if hs[0].name == name then Some(hs[0].value) else FirstNamed(hs[1..], name)
  }

  /** Section 5.4 of RFC 7230: exactly one Host. */
  predicate OneHost(hs: seq<Header>) {
    CountNamed(hs, HOST) == 1
  }

  predicate IsSpace(b: byte, verticalTab: bool) {
    b == 32 || b == 9 || b == 10 || b == 12 || b == 13 || (verticalTab && b == 11)
  }

  /** `trim` (which counts vertical tabs as space) and `trim_ascii` (which does not). */
  function Trim(b: bytes, verticalTab: bool): bytes {
    if b == [] then []
    else if IsSpace(b[0], verticalTab) then Trim(b[1..], verticalTab)
    else if IsSpace(b[|b| - 1], verticalTab) then Trim(b[..|b| - 1], verticalTab)
    else b
  }

  function Digits(b: bytes): Option<nat> {
    if b == [] then Some(0)
    else
      var high := Digits(b[..|b| - 1]);
      var d := b[|b| - 1];
      if high.Some? && 48 <= d <= 57 then Some(high.value * 10 + d - 48) else None
  }

  /** `str::parse::<u64>`: an optional plus sign, then at least one digit, below 2^64. */
  function ParseU64(b: bytes): Option<nat> {
    var digits := if b != [] && b[0] == 43 then b[1..] else b;
    var n := Digits(digits);
    if digits != [] && n.Some? && n.value < TWO32 * TWO32 then n else None
  }

  function DeclaredLength(hs: seq<Header>): Option<nat> {
    var v := FirstNamed(hs, CONTENT_LENGTH);
    if v.Some? then ParseU64(Trim(v.value, true)) else None
  }

  /** Does a comma-separated list hold the token `100-continue`, in any case? */
  function ListsContinue(v: bytes, token: bytes): bool
    decreases |v|
  {
    if v == [] then Lower(Trim(token, false)) == CONTINUE
    else if v[0] == COMMA then Lower(Trim(token, false)) == CONTINUE || ListsContinue(v[1..], [])
    else ListsContinue(v[1..], token + [v[0]])
  }

  predicate ExpectsContinue(hs: seq<Header>) {
    exists i :: 0 <= i < |hs| && hs[i].name == EXPECT && ListsContinue(hs[i].value, [])
  }

  // ---- the callbacks ----

  function Fail(a: Acc, status: nat, reason: Reason): Acc {
    a.(error := Some(ParseError(status, reason)))
  }

  /** A finished field/value pair becomes a header in the head and nothing in the trailers. */
  function CommitHeader(a: Acc): Acc {
    if !a.inValue then a
    else
      var taken := a.(inValue := false, field := [], value := []);
      if !a.inHead then taken else taken.(headers := a.headers + [Header(Lower(a.field), a.value)])
  }

  function OnUrl(lim: Limits, a: Acc, b: bytes): Acc {
    if |a.url| + |b| > lim.maxUrl then Fail(a, 414, TargetTooLong) else a.(url := a.url + b)
  }

  function OnHeaderField(lim: Limits, a: Acc, b: bytes): Acc {
    var c := CommitHeader(a);
    var d := c.(headerBytes := c.headerBytes + |b|);
    if d.headerBytes > lim.maxHeaderBytes then Fail(d, 431, HeadersTooLarge)
    else if |d.headers| >= lim.maxHeaders then Fail(d, 431, TooManyHeaders)
    else d.(field := d.field + b)
  }

  function OnHeaderValue(lim: Limits, a: Acc, b: bytes): Acc {
    var d := a.(inValue := true, headerBytes := a.headerBytes + |b|);
    if d.headerBytes > lim.maxHeaderBytes then Fail(d, 431, HeadersTooLarge) else d.(value := d.value + b)
  }

  function OnHeadersComplete(lim: Limits, a: Acc, minor: nat): Acc {
    CheckHead(lim, CommitHeader(a).(inHead := false), minor)
  }

  function CheckHead(lim: Limits, c: Acc, minor: nat): Acc {
    if minor >= 1 && !OneHost(c.headers) then Fail(c, 400, NotOneHost)
    else if lim.maxBody.Some? && DeclaredLength(c.headers).Some? &&
            DeclaredLength(c.headers).value > lim.maxBody.value then
      Fail(c, 413, BodyTooLarge)
    else if minor >= 1 && ExpectsContinue(c.headers) then c.(owesContinue := true, expectingBody := true)
    else c
  }

  function OnBody(lim: Limits, a: Acc, b: bytes): Acc {
    if lim.maxBody.Some? && |a.body| + |b| > lim.maxBody.value then Fail(a, 413, BodyTooLarge)
    else a.(body := a.body + b)
  }

  function OnMessageComplete(a: Acc, tail: Tail): Acc {
    a.(owesContinue := false, expectingBody := false,
       completed := a.completed + [Request(tail, a.url, a.headers, a.body)],
       url := [], headers := [], body := [], headerBytes := 0, field := [], value := [], inValue := false)
  }

  function Feed(lim: Limits, a: Acc, e: Event): Acc {
    match e
    case MessageBegin => a.(inHead := true)
    case Url(b) => OnUrl(lim, a, b)
    case Field(b) => OnHeaderField(lim, a, b)
    case Value(b) => OnHeaderValue(lim, a, b)
    case HeadersComplete(minor) => OnHeadersComplete(lim, a, minor)
    case Body(b) => OnBody(lim, a, b)
    case MessageComplete(tail) => OnMessageComplete(a, tail)
  }

  /** llhttp stops at the first callback that fails. */
  function Exec(lim: Limits, a: Acc, es: seq<Event>): Acc
    decreases |es|
  {
    if es == [] || a.error.Some? then a else Exec(lim, Feed(lim, a, es[0]), es[1..])
  }

  // ---- messages, and the event streams that carry them ----

  datatype Message = Message(url: bytes, headers: seq<Header>, body: bytes, trailers: seq<Header>, tail: Tail)

  /** One way to cut a message into spans. */
  datatype CutHeader = CutHeader(name: seq<bytes>, value: seq<bytes>)
  datatype Cut = Cut(url: seq<bytes>, headers: seq<CutHeader>, body: seq<bytes>, trailers: seq<CutHeader>, tail: Tail)

  function Join(spans: seq<bytes>): bytes {
    if spans == [] then [] else spans[0] + Join(spans[1..])
  }

  function JoinHeader(h: CutHeader): Header {
    Header(Join(h.name), Join(h.value))
  }

  function JoinHeaders(hs: seq<CutHeader>): (r: seq<Header>)
    ensures |r| == |hs|
  {
    if hs == [] then [] else [JoinHeader(hs[0])] + JoinHeaders(hs[1..])
  }

  function Whole(c: Cut): Message {
    Message(Join(c.url), JoinHeaders(c.headers), Join(c.body), JoinHeaders(c.trailers), c.tail)
  }

  /** At least one event for the url and for every name and value; any number for the body. */
  predicate WellCut(c: Cut) {
    && c.url != []
    && (forall i :: 0 <= i < |c.headers| ==> c.headers[i].name != [] && c.headers[i].value != [])
    && (forall i :: 0 <= i < |c.trailers| ==> c.trailers[i].name != [] && c.trailers[i].value != [])
  }

  function Urls(spans: seq<bytes>): seq<Event> {
    if spans == [] then [] else [Url(spans[0])] + Urls(spans[1..])
  }

  function Fields(spans: seq<bytes>): seq<Event> {
    if spans == [] then [] else [Field(spans[0])] + Fields(spans[1..])
  }

  function Values(spans: seq<bytes>): seq<Event> {
    if spans == [] then [] else [Value(spans[0])] + Values(spans[1..])
  }

  function Bodies(spans: seq<bytes>): seq<Event> {
    if spans == [] then [] else [Body(spans[0])] + Bodies(spans[1..])
  }

  function Pairs(hs: seq<CutHeader>): seq<Event> {
    if hs == [] then [] else Fields(hs[0].name) + Values(hs[0].value) + Pairs(hs[1..])
  }

  /** The callbacks of one message, in the order llhttp makes them. */
  function Events(c: Cut): seq<Event> {
    [MessageBegin] + Urls(c.url) + Pairs(c.headers) + [HeadersComplete(c.tail.minor)] +
    Bodies(c.body) + Pairs(c.trailers) + [MessageComplete(c.tail)]
  }

  function AllEvents(cs: seq<Cut>): seq<Event> {
    if cs == [] then [] else Events(cs[0]) + AllEvents(cs[1..])
  }

  // ---- what the messages must yield ----

  /** The status a message is refused with, if it is. */
  function Verdict(lim: Limits, m: Message): Option<nat> {
    if |m.url| > lim.maxUrl then Some(414)
    else if HeaderBytes(m.headers) > lim.maxHeaderBytes || |m.headers| > lim.maxHeaders then Some(431)
    else if m.tail.minor >= 1 && !OneHost(Lowered(m.headers)) then Some(400)
    else if lim.maxBody.Some? && DeclaredLength(Lowered(m.headers)).Some? &&
            DeclaredLength(Lowered(m.headers)).value > lim.maxBody.value then Some(413)
    else if lim.maxBody.Some? && |m.body| > lim.maxBody.value then Some(413)
    else if m.trailers != [] && (HeaderBytes(m.headers) + HeaderBytes(m.trailers) > lim.maxHeaderBytes ||
            |m.headers| >= lim.maxHeaders) then Some(431)
    else None
  }

  /** The request an accepted message becomes: its trailers leave no trace. */
  function Queued(m: Message): Request {
    Request(m.tail, m.url, Lowered(m.headers), m.body)
  }

  /** The requests queued before the first refused message, and its status. */
  function Outcome(lim: Limits, ms: seq<Message>): (seq<Request>, Option<nat>) {
    if ms == [] then ([], None)
    else if Verdict(lim, ms[0]).Some? then ([], Verdict(lim, ms[0]))
    else
      var rest := Outcome(lim, ms[1..]);
      ([Queued(ms[0])] + rest.0, rest.1)
  }

  function Wholes(cs: seq<Cut>): (ms: seq<Message>)
    ensures |ms| == |cs|
  {
    if cs == [] then [] else [Whole(cs[0])] + Wholes(cs[1..])
  }
}
