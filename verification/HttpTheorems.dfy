/** Proofs about HttpEvents: the requests queued depend on the messages alone. */
module HttpTheorems {
  import opened Words
  import opened HttpEvents

  lemma {:induction false} ExecConcat(lim: Limits, a: Acc, x: seq<Event>, y: seq<Event>)
    ensures Exec(lim, a, x + y) == Exec(lim, Exec(lim, a, x), y)
    decreases |x|
  {
    if x == [] {
      assert x + y == y;
    } else if a.error.None? {
      assert (x + y)[1..] == x[1..] + y;
      ExecConcat(lim, Feed(lim, a, x[0]), x[1..], y);
    }
  }

  lemma ExecFirst(lim: Limits, a: Acc, e: Event, es: seq<Event>)
    requires a.error.None?
    ensures Exec(lim, a, [e] + es) == Exec(lim, Feed(lim, a, e), es)
    ensures Exec(lim, a, [e]) == Feed(lim, a, e)
  {
    assert ([e] + es)[1..] == es;
    assert Exec(lim, Feed(lim, a, e), []) == Feed(lim, a, e);
  }

  lemma ExecStops(lim: Limits, a: Acc, es: seq<Event>)
    requires es == [] || a.error.Some?
    ensures Exec(lim, a, es) == a
  {
  }

  function Status(why: Reason): nat {
    match why
    case TargetTooLong => 414
    case HeadersTooLarge => 431
    case TooManyHeaders => 431
    case NotOneHost => 400
    case BodyTooLarge => 413
  }

  /** A refusal for this reason, with nothing more queued. */
  predicate Refused(a: Acc, why: Reason, completed: seq<Request>) {
    a.error == Some(ParseError(Status(why), why)) && a.completed == completed
  }

  lemma JoinFirst(x: bytes, spans: seq<bytes>)
    requires spans != []
    ensures (x + spans[0]) + Join(spans[1..]) == x + Join(spans)
  {
  }

  lemma {:induction false} ExecUrls(lim: Limits, a: Acc, spans: seq<bytes>)
    requires a.error.None? && (spans == [] ==> |a.url| <= lim.maxUrl)
    ensures var r := Exec(lim, a, Urls(spans));
      if |a.url| + |Join(spans)| > lim.maxUrl then Refused(r, TargetTooLong, a.completed)
      else r == a.(url := a.url + Join(spans))
    decreases |spans|
  {
    hide Exec;
    if spans == [] {
      ExecStops(lim, a, []);
      assert a.url + [] == a.url;
    } else {
      var b := OnUrl(lim, a, spans[0]);
      ExecFirst(lim, a, Url(spans[0]), Urls(spans[1..]));
      if b.error.None? {
        ExecUrls(lim, b, spans[1..]);
        JoinFirst(a.url, spans);
      } else {
        ExecStops(lim, b, Urls(spans[1..]));
      }
    }
  }

  lemma {:induction false} ExecBodies(lim: Limits, a: Acc, spans: seq<bytes>)
    requires a.error.None? && (lim.maxBody.Some? ==> |a.body| <= lim.maxBody.value)
    ensures var r := Exec(lim, a, Bodies(spans));
      if lim.maxBody.Some? && |a.body| + |Join(spans)| > lim.maxBody.value then Refused(r, BodyTooLarge, a.completed)
      else r == a.(body := a.body + Join(spans))
    decreases |spans|
  {
    hide Exec;
    if spans == [] {
      ExecStops(lim, a, []);
      assert a.body + [] == a.body;
    } else {
      var b := OnBody(lim, a, spans[0]);
      ExecFirst(lim, a, Body(spans[0]), Bodies(spans[1..]));
      if b.error.None? {
        ExecBodies(lim, b, spans[1..]);
        JoinFirst(a.body, spans);
      } else {
        ExecStops(lim, b, Bodies(spans[1..]));
      }
    }
  }

  /** Name spans with nothing to commit. */
  lemma {:induction false} ExecFields(lim: Limits, a: Acc, spans: seq<bytes>)
    requires a.error.None? && !a.inValue && a.headerBytes <= lim.maxHeaderBytes && |a.headers| < lim.maxHeaders
    ensures var r := Exec(lim, a, Fields(spans));
      if a.headerBytes + |Join(spans)| > lim.maxHeaderBytes then Refused(r, HeadersTooLarge, a.completed)
      else r == a.(field := a.field + Join(spans), headerBytes := a.headerBytes + |Join(spans)|)
    decreases |spans|
  {
    hide Exec;
    if spans == [] {
      ExecStops(lim, a, []);
      assert a.field + [] == a.field;
    } else {
      var b := OnHeaderField(lim, a, spans[0]);
      ExecFirst(lim, a, Field(spans[0]), Fields(spans[1..]));
      if b.error.None? {
        ExecFields(lim, b, spans[1..]);
        JoinFirst(a.field, spans);
      } else {
        ExecStops(lim, b, Fields(spans[1..]));
      }
    }
  }

  lemma {:induction false} ExecValues(lim: Limits, a: Acc, spans: seq<bytes>)
    requires a.error.None? && a.headerBytes <= lim.maxHeaderBytes && (spans == [] ==> a.inValue)
    ensures var r := Exec(lim, a, Values(spans));
      if a.headerBytes + |Join(spans)| > lim.maxHeaderBytes then Refused(r, HeadersTooLarge, a.completed)
      else r == a.(inValue := true, value := a.value + Join(spans), headerBytes := a.headerBytes + |Join(spans)|)
    decreases |spans|
  {
    hide Exec;
    if spans == [] {
      ExecStops(lim, a, []);
      assert a.value + [] == a.value;
    } else {
      var b := OnHeaderValue(lim, a, spans[0]);
      ExecFirst(lim, a, Value(spans[0]), Values(spans[1..]));
      if b.error.None? {
        ExecValues(lim, b, spans[1..]);
        JoinFirst(a.value, spans);
      } else {
        ExecStops(lim, b, Values(spans[1..]));
      }
    }
  }

  /** Nothing half-collected: what committing leaves. */
  predicate Settled(a: Acc) {
    a.error.None? && !a.inValue && a.field == [] && a.value == []
  }

  /** `a` becomes `c` once its pending header, if any, is committed. */
  predicate Pending(lim: Limits, a: Acc, c: Acc) {
    a.error.None? && CommitHeader(a) == c && Settled(c) && c.headerBytes <= lim.maxHeaderBytes
  }

  function WithHeader(c: Acc, h: Header): Acc {
    c.(headers := if c.inHead then c.headers + [Header(Lower(h.name), h.value)] else c.headers,
       headerBytes := c.headerBytes + |h.name| + |h.value|)
  }

  /** Why a name is refused that starts with this span and for which there is no room. */
  function NoRoom(lim: Limits, c: Acc, span: bytes): Reason {
    NoRoomAfter(lim, c.headerBytes, span)
  }

  function NoRoomAfter(lim: Limits, used: nat, span: bytes): Reason {
    if used + |span| > lim.maxHeaderBytes then HeadersTooLarge else TooManyHeaders
  }

  /** The first name span commits what came before it, and is refused if there is no room
      for another header. */
  lemma FirstField(lim: Limits, a: Acc, c: Acc, b: bytes)
    requires Pending(lim, a, c)
    ensures Feed(lim, a, Field(b)) == Feed(lim, c, Field(b))
    ensures |c.headers| >= lim.maxHeaders ==> Refused(Feed(lim, a, Field(b)), NoRoom(lim, c, b), c.completed)
  {
  }

  lemma FieldsFrom(lim: Limits, a: Acc, c: Acc, spans: seq<bytes>)
    requires Pending(lim, a, c) && spans != []
    ensures Exec(lim, a, Fields(spans)) == Exec(lim, c, Fields(spans))
    ensures |c.headers| >= lim.maxHeaders ==>
      Refused(Exec(lim, a, Fields(spans)), NoRoom(lim, c, spans[0]), c.completed)
  {
    hide Exec, Feed, CommitHeader;
    FirstField(lim, a, c, spans[0]);
    ExecFirst(lim, a, Field(spans[0]), Fields(spans[1..]));
    ExecFirst(lim, c, Field(spans[0]), Fields(spans[1..]));
    if |c.headers| >= lim.maxHeaders {
      ExecStops(lim, Feed(lim, a, Field(spans[0])), Fields(spans[1..]));
    }
  }

  /** One header, however cut: committed whole, or refused. */
  lemma ExecPair(lim: Limits, a: Acc, c: Acc, h: CutHeader)
    requires Pending(lim, a, c) && h.name != [] && h.value != []
    ensures var r := Exec(lim, a, Fields(h.name) + Values(h.value));
      var j := JoinHeader(h);
      if |c.headers| >= lim.maxHeaders then Refused(r, NoRoom(lim, c, h.name[0]), c.completed)
      else if c.headerBytes + |j.name| + |j.value| > lim.maxHeaderBytes then Refused(r, HeadersTooLarge, c.completed)
      else Pending(lim, r, WithHeader(c, j))
  {
    hide Exec;
    ExecConcat(lim, a, Fields(h.name), Values(h.value));
    FieldsFrom(lim, a, c, h.name);
    if |c.headers| < lim.maxHeaders {
      ExecFields(lim, c, h.name);
      var b := Exec(lim, c, Fields(h.name));
      if b.error.None? {
        assert c.field + Join(h.name) == Join(h.name);
        ExecValues(lim, b, h.value);
        assert b.value + Join(h.value) == Join(h.value);
      } else {
        ExecStops(lim, b, Values(h.value));
      }
    } else {
      ExecStops(lim, Exec(lim, a, Fields(h.name)), Values(h.value));
    }
  }

  function WithHeaders(c: Acc, hs: seq<Header>): Acc
    decreases |hs|
  {
    if hs == [] then c else WithHeaders(WithHeader(c, hs[0]), hs[1..])
  }

  lemma {:induction false} HeaderBytesFirst(hs: seq<Header>)
    requires hs != []
    ensures HeaderBytes(hs) == |hs[0].name| + |hs[0].value| + HeaderBytes(hs[1..])
    decreases |hs|
  {
    if |hs| > 1 {
      HeaderBytesFirst(hs[..|hs| - 1]);
      assert hs[1..][..|hs| - 2] == hs[..|hs| - 1][1..];
    }
  }

  lemma LoweredFirst(hs: seq<Header>)
    requires hs != []
    ensures Lowered(hs) == [Header(Lower(hs[0].name), hs[0].value)] + Lowered(hs[1..])
  {
  }

  /** Committing headers one by one: in the head they are appended, lowercased; in the
      trailers they only count. */
  lemma {:induction false} WithHeadersIs(c: Acc, hs: seq<Header>)
    ensures WithHeaders(c, hs) ==
      c.(headers := if c.inHead then c.headers + Lowered(hs) else c.headers,
         headerBytes := c.headerBytes + HeaderBytes(hs))
    decreases |hs|
  {
    if hs == [] {
      assert c.headers + Lowered(hs) == c.headers;
    } else {
      HeaderBytesFirst(hs);
      LoweredFirst(hs);
      WithHeadersIs(WithHeader(c, hs[0]), hs[1..]);
      hide Lowered, Lower, HeaderBytes;
      Regrouped(c.headers, [Header(Lower(hs[0].name), hs[0].value)], Lowered(hs[1..]));
    }
  }

  /** Headers too many or too large for where the accumulator stands. */
  predicate Overflows(lim: Limits, c: Acc, hs: seq<Header>) {
    || c.headerBytes + HeaderBytes(hs) > lim.maxHeaderBytes
    || (hs != [] && |c.headers| + (if c.inHead then |hs| else 1) > lim.maxHeaders)
  }

  predicate WellCutHeaders(hs: seq<CutHeader>) {
    forall i :: 0 <= i < |hs| ==> hs[i].name != [] && hs[i].value != []
  }

  /** Why: the first header without room, or else the bytes. */
  function OverflowReason(lim: Limits, c: Acc, hs: seq<CutHeader>): Reason
    requires WellCutHeaders(hs)
    decreases |hs|
  {
    if hs == [] then HeadersTooLarge
    else if |c.headers| >= lim.maxHeaders then NoRoom(lim, c, hs[0].name[0])
    else
      var j := JoinHeader(hs[0]);
      if c.headerBytes + |j.name| + |j.value| > lim.maxHeaderBytes then HeadersTooLarge
      else OverflowReason(lim, WithHeader(c, j), hs[1..])
  }

  /** One header more: refused here, or as the rest would be after it. */
  lemma OverflowFirst(lim: Limits, c: Acc, hs: seq<CutHeader>)
    requires WellCutHeaders(hs) && hs != [] && c.headerBytes <= lim.maxHeaderBytes
    ensures var j, js := JoinHeader(hs[0]), JoinHeaders(hs);
      && js[0] == j && js[1..] == JoinHeaders(hs[1..])
      && HeaderBytes(js) == |j.name| + |j.value| + HeaderBytes(js[1..])
      && var d := WithHeader(c, j);
         && d.headerBytes == c.headerBytes + |j.name| + |j.value|
         && |d.headers| == |c.headers| + (if c.inHead then 1 else 0) && d.inHead == c.inHead
         && if |c.headers| >= lim.maxHeaders then
              Overflows(lim, c, js) && OverflowReason(lim, c, hs) == NoRoom(lim, c, hs[0].name[0])
            else if d.headerBytes > lim.maxHeaderBytes then
              Overflows(lim, c, js) && OverflowReason(lim, c, hs) == HeadersTooLarge
            else
              && (Overflows(lim, c, js) <==> Overflows(lim, d, js[1..]))
              && OverflowReason(lim, c, hs) == OverflowReason(lim, d, hs[1..])
  {
    var js := JoinHeaders(hs);
    assert js[0] == JoinHeader(hs[0]) && js[1..] == JoinHeaders(hs[1..]);
    HeaderBytesFirst(js);
    EmptyHeaders();
    hide HeaderBytes, JoinHeader, Lower;
  }

  lemma EmptyHeaders()
    ensures HeaderBytes([]) == 0
  {
  }

  lemma {:induction false} ExecPairs(lim: Limits, a: Acc, c: Acc, hs: seq<CutHeader>)
    requires Pending(lim, a, c) && WellCutHeaders(hs)
    ensures var r := Exec(lim, a, Pairs(hs));
      if Overflows(lim, c, JoinHeaders(hs)) then Refused(r, OverflowReason(lim, c, hs), c.completed)
      else Pending(lim, r, WithHeaders(c, JoinHeaders(hs)))
    decreases |hs|
  {
    hide Exec, CommitHeader, OverflowReason, HeaderBytes, NoRoom;
    if hs == [] {
      EmptyHeaders();
      ExecStops(lim, a, []);
    } else {
      var first, rest := Fields(hs[0].name) + Values(hs[0].value), Pairs(hs[1..]);
      ExecConcat(lim, a, first, rest);
      ExecPair(lim, a, c, hs[0]);
      OverflowFirst(lim, c, hs);
      hide Overflows, JoinHeader, JoinHeaders;
      var b := Exec(lim, a, first);
      if b.error.None? {
        ExecPairs(lim, b, WithHeader(c, JoinHeader(hs[0])), hs[1..]);
      } else {
        ExecStops(lim, b, rest);
      }
    }
  }

  /** Why headers with room for k of them are refused, with so many bytes used before: decided
      at the first header too many, by whether the bytes still fit with its first span. */
  function FullReason(lim: Limits, used: nat, hs: seq<CutHeader>, k: nat): Reason
    requires WellCutHeaders(hs)
  {
    if k < |hs| && used + BytesBefore(JoinHeaders(hs), k) + |hs[k].name[0]| <= lim.maxHeaderBytes
    then TooManyHeaders else HeadersTooLarge
  }

  lemma BytesBeforeFirst(hs: seq<Header>, k: nat)
    requires k < |hs|
    ensures BytesBefore(hs, k) ==
      if k == 0 then 0 else |hs[0].name| + |hs[0].value| + BytesBefore(hs[1..], k - 1)
  {
    if k > 0 {
      assert hs[..k][1..] == hs[1..][..k - 1];
      HeaderBytesFirst(hs[..k]);
    } else {
      EmptyHeaders();
    }
  }

  lemma FullReasonFirst(lim: Limits, used: nat, hs: seq<CutHeader>, k: nat)
    requires WellCutHeaders(hs) && hs != []
    ensures k == 0 ==>
      FullReason(lim, used, hs, k) == NoRoomAfter(lim, used, hs[0].name[0])
    ensures var j := JoinHeader(hs[0]);
      k > 0 ==>
        && FullReason(lim, used, hs, k) == FullReason(lim, used + |j.name| + |j.value|, hs[1..], k - 1)
        && (used + |j.name| + |j.value| > lim.maxHeaderBytes ==> FullReason(lim, used, hs, k) == HeadersTooLarge)
  {
    var js := JoinHeaders(hs);
    assert js[0] == JoinHeader(hs[0]) && js[1..] == JoinHeaders(hs[1..]);
    if k < |hs| {
      BytesBeforeFirst(js, k);
    }
    hide BytesBefore, JoinHeader, JoinHeaders;
  }

  lemma {:induction false} HeadOverflow(lim: Limits, c: Acc, hs: seq<CutHeader>)
    requires WellCutHeaders(hs) && c.inHead && |c.headers| <= lim.maxHeaders && c.headerBytes <= lim.maxHeaderBytes
    requires Overflows(lim, c, JoinHeaders(hs))
    ensures OverflowReason(lim, c, hs) == FullReason(lim, c.headerBytes, hs, lim.maxHeaders - |c.headers|)
    decreases |hs|
  {
    if hs == [] {
      EmptyHeaders();
    } else {
      hide HeaderBytes, JoinHeaders, JoinHeader, Overflows, OverflowReason, WithHeader, FullReason, Lower, BytesBefore;
      var k, d := lim.maxHeaders - |c.headers|, WithHeader(c, JoinHeader(hs[0]));
      OverflowFirst(lim, c, hs);
      FullReasonFirst(lim, c.headerBytes, hs, k);
      if k > 0 && d.headerBytes <= lim.maxHeaderBytes {
        HeadOverflow(lim, d, hs[1..]);
      }
    }
  }

  /** In the trailers, at the first one, if the head left no room. */
  lemma {:induction false} TrailerOverflow(lim: Limits, c: Acc, hs: seq<CutHeader>)
    requires WellCutHeaders(hs) && !c.inHead && hs != [] && c.headerBytes <= lim.maxHeaderBytes
    requires Overflows(lim, c, JoinHeaders(hs))
    ensures OverflowReason(lim, c, hs) ==
      if |c.headers| >= lim.maxHeaders && c.headerBytes + |hs[0].name[0]| <= lim.maxHeaderBytes then TooManyHeaders
      else HeadersTooLarge
    decreases |hs|
  {
    OverflowFirst(lim, c, hs);
    EmptyHeaders();
    var j := JoinHeader(hs[0]);
    if |c.headers| < lim.maxHeaders && |hs| > 1 && c.headerBytes + |j.name| + |j.value| <= lim.maxHeaderBytes {
      TrailerOverflow(lim, WithHeader(c, j), hs[1..]);
    }
  }

  /** Why a cut message is refused, if it is: the reason behind its verdict. */
  function Why(lim: Limits, c: Cut): Reason
    requires WellCut(c)
  {
    var m, n := Whole(c), lim.maxHeaders;
    if |m.url| > lim.maxUrl then TargetTooLong
    else if HeaderBytes(m.headers) > lim.maxHeaderBytes || |m.headers| > n then
      FullReason(lim, 0, c.headers, n)
    else if m.tail.minor >= 1 && !OneHost(Lowered(m.headers)) then NotOneHost
    else if lim.maxBody.Some? && DeclaredLength(Lowered(m.headers)).Some? &&
            DeclaredLength(Lowered(m.headers)).value > lim.maxBody.value then BodyTooLarge
    else if lim.maxBody.Some? && |m.body| > lim.maxBody.value then BodyTooLarge
    else if c.trailers != [] && |m.headers| >= n &&
            HeaderBytes(m.headers) + |c.trailers[0].name[0]| <= lim.maxHeaderBytes
    then TooManyHeaders else HeadersTooLarge
  }

  lemma VerdictIsStatus(lim: Limits, c: Cut)
    requires WellCut(c) && Verdict(lim, Whole(c)).Some?
    ensures Verdict(lim, Whole(c)).value == Status(Why(lim, c))
  {
    hide DeclaredLength, OneHost, Lowered, HeaderBytes;
  }

  /** Between messages: nothing of any earlier one is left but the queued requests. */
  predicate Between(a: Acc) {
    a == Fresh().(completed := a.completed)
  }

  /** The verdict on a head alone. */
  function HeadVerdict(lim: Limits, m: Message): Option<nat> {
    Verdict(lim, m.(body := [], trailers := []))
  }

  /** The accumulator when all headers of the head have been seen. */
  function HeadSeen(a: Acc, m: Message): Acc {
    a.(inHead := true, url := m.url, headers := Lowered(m.headers), headerBytes := HeaderBytes(m.headers))
  }

  function Requestline(c: Cut): seq<Event> {
    [MessageBegin] + Urls(c.url)
  }

  lemma ExecRequestLine(lim: Limits, a: Acc, c: Cut)
    requires Between(a) && WellCut(c)
    ensures var u := Exec(lim, a, Requestline(c));
      if |Join(c.url)| > lim.maxUrl then Refused(u, TargetTooLong, a.completed)
      else u == a.(inHead := true, url := Join(c.url)) && Pending(lim, u, u)
  {
    hide Exec;
    ExecFirst(lim, a, MessageBegin, Urls(c.url));
    ExecUrls(lim, Feed(lim, a, MessageBegin), c.url);
    assert a.url + Join(c.url) == Join(c.url);
  }

  lemma HeadSeenIs(a: Acc, u: Acc, c: Cut)
    requires Between(a) && u == a.(inHead := true, url := Join(c.url))
    ensures WithHeaders(u, JoinHeaders(c.headers)) == HeadSeen(a, Whole(c))
  {
    var hs := JoinHeaders(c.headers);
    WithHeadersIs(u, hs);
    hide WithHeaders, HeaderBytes, Join, JoinHeaders, Lower;
    assert u.headers + Lowered(hs) == Lowered(hs);
  }

  /** What the headers come to when nothing precedes them. */
  lemma HeadOutcome(lim: Limits, a: Acc, u: Acc, c: Cut)
    requires Between(a) && WellCut(c) && u == a.(inHead := true, url := Join(c.url))
    ensures var hs := JoinHeaders(c.headers);
      && (Overflows(lim, u, hs) <==> HeaderBytes(hs) > lim.maxHeaderBytes || |hs| > lim.maxHeaders)
      && WithHeaders(u, hs) == HeadSeen(a, Whole(c))
      && (Overflows(lim, u, hs) ==> OverflowReason(lim, u, c.headers) == FullReason(lim, 0, c.headers, lim.maxHeaders))
  {
    EmptyHeaders();
    HeadSeenIs(a, u, c);
    hide WithHeaders, HeaderBytes, Join, JoinHeaders, OverflowReason, FullReason, HeadSeen;
    if Overflows(lim, u, JoinHeaders(c.headers)) {
      HeadOverflow(lim, u, c.headers);
    }
  }

  lemma ExecHeadersFrom(lim: Limits, a: Acc, u: Acc, c: Cut)
    requires Between(a) && WellCut(c) && |Join(c.url)| <= lim.maxUrl
    requires u == a.(inHead := true, url := Join(c.url)) && Pending(lim, u, u)
    ensures var p := Exec(lim, u, Pairs(c.headers));
      var m := Whole(c);
      if HeaderBytes(m.headers) > lim.maxHeaderBytes || |m.headers| > lim.maxHeaders
      then Refused(p, Why(lim, c), a.completed)
      else Pending(lim, p, HeadSeen(a, m))
  {
    HeadOutcome(lim, a, u, c);
    ExecPairs(lim, u, u, c.headers);
    hide Exec, OverflowReason, FullReason, Overflows, HeadSeen, WithHeaders, Join, JoinHeaders, HeaderBytes, Pending;
  }

  lemma ExecHeaders(lim: Limits, a: Acc, c: Cut)
    requires Between(a) && WellCut(c)
    ensures var p := Exec(lim, a, Requestline(c) + Pairs(c.headers));
      var m := Whole(c);
      if |m.url| > lim.maxUrl || HeaderBytes(m.headers) > lim.maxHeaderBytes || |m.headers| > lim.maxHeaders
      then Refused(p, Why(lim, c), a.completed)
      else Pending(lim, p, HeadSeen(a, m))
  {
    hide Exec, HeaderBytes, JoinHeaders, Pending;
    ExecConcat(lim, a, Requestline(c), Pairs(c.headers));
    ExecRequestLine(lim, a, c);
    var u := Exec(lim, a, Requestline(c));
    if |Join(c.url)| <= lim.maxUrl {
      ExecHeadersFrom(lim, a, u, c);
    } else {
      ExecStops(lim, u, Pairs(c.headers));
    }
  }

  /** The accumulator after an accepted head. */
  predicate AfterHead(a: Acc, h: Acc, m: Message) {
    && Settled(h) && !h.inHead && h.completed == a.completed
    && h.url == m.url && h.headers == Lowered(m.headers) && h.headerBytes == HeaderBytes(m.headers) && h.body == []
    && h.owesContinue == h.expectingBody == (m.tail.minor >= 1 && ExpectsContinue(Lowered(m.headers)))
  }

  lemma CompleteHead(lim: Limits, a: Acc, p: Acc, c: Cut)
    requires Between(a) && WellCut(c) && Pending(lim, p, HeadSeen(a, Whole(c))) && |Whole(c).url| <= lim.maxUrl
    requires HeaderBytes(Whole(c).headers) <= lim.maxHeaderBytes && |Whole(c).headers| <= lim.maxHeaders
    ensures var m := Whole(c);
      var h := OnHeadersComplete(lim, p, m.tail.minor);
      if HeadVerdict(lim, m).Some? then Refused(h, Why(lim, c), a.completed) else AfterHead(a, h, m)
  {
    hide DeclaredLength, ExpectsContinue, OneHost, Lowered;
    assert HeaderBytes([]) == 0;
  }

  function Head(c: Cut): seq<Event> {
    Requestline(c) + Pairs(c.headers) + [HeadersComplete(c.tail.minor)]
  }

  lemma ExecHead(lim: Limits, a: Acc, c: Cut)
    requires Between(a) && WellCut(c)
    ensures var h := Exec(lim, a, Head(c));
      if HeadVerdict(lim, Whole(c)).Some? then Refused(h, Why(lim, c), a.completed) else AfterHead(a, h, Whole(c))
  {
    hide Exec, CommitHeader, DeclaredLength, ExpectsContinue, OneHost, Lowered;
    ExecConcat(lim, a, Requestline(c) + Pairs(c.headers), [HeadersComplete(c.tail.minor)]);
    ExecHeaders(lim, a, c);
    var p := Exec(lim, a, Requestline(c) + Pairs(c.headers));
    if p.error.None? {
      ExecFirst(lim, p, HeadersComplete(c.tail.minor), []);
      CompleteHead(lim, a, p, c);
    } else {
      ExecStops(lim, p, [HeadersComplete(c.tail.minor)]);
    }
  }

  /** All of an accepted message is there, its last trailer perhaps pending. */
  predicate ReadyToQueue(lim: Limits, a: Acc, t: Acc, k: Acc, m: Message) {
    && Pending(lim, t, k) && !t.inHead && k.completed == a.completed
    && Queued(m) == Request(m.tail, k.url, k.headers, k.body)
  }

  predicate BodyFits(lim: Limits, m: Message) {
    lim.maxBody.Some? ==> |m.body| <= lim.maxBody.value
  }

  /** Once the head is accepted, the body and then the trailers decide. */
  lemma VerdictAfterHead(lim: Limits, b: Acc, c: Cut)
    requires WellCut(c) && HeadVerdict(lim, Whole(c)).None? && !b.inHead
    requires b.headers == Lowered(Whole(c).headers) && b.headerBytes == HeaderBytes(Whole(c).headers)
    ensures !BodyFits(lim, Whole(c)) ==> Verdict(lim, Whole(c)).Some? && Why(lim, c) == BodyTooLarge
    ensures b.headerBytes <= lim.maxHeaderBytes
    ensures BodyFits(lim, Whole(c)) ==>
      && (Verdict(lim, Whole(c)).Some? <==> Overflows(lim, b, Whole(c).trailers))
      && (Overflows(lim, b, Whole(c).trailers) ==> Why(lim, c) == OverflowReason(lim, b, c.trailers))
  {
    if Overflows(lim, b, Whole(c).trailers) && c.trailers != [] {
      TrailerOverflow(lim, b, c.trailers);
    }
    hide DeclaredLength, OneHost, OverflowReason, HeaderBytes;
    assert HeaderBytes(Whole(c).trailers) == 0 || c.trailers != [] by {
      EmptyHeaders();
    }
  }

  /** Body and trailers after an accepted head. */
  lemma ExecRest(lim: Limits, a: Acc, h: Acc, c: Cut)
    requires Between(a) && WellCut(c) && HeadVerdict(lim, Whole(c)).None? && AfterHead(a, h, Whole(c))
    ensures var t := Exec(lim, h, Bodies(c.body) + Pairs(c.trailers));
      var m := Whole(c);
      if Verdict(lim, m).Some? then Refused(t, Why(lim, c), a.completed)
      else exists k: Acc :: ReadyToQueue(lim, a, t, k, m)
  {
    hide Exec, CommitHeader, Verdict, HeadVerdict, Why, Overflows, OverflowReason;
    ExecConcat(lim, h, Bodies(c.body), Pairs(c.trailers));
    ExecBodies(lim, h, c.body);
    var b := Exec(lim, h, Bodies(c.body));
    assert h.body + Join(c.body) == Join(c.body);
    VerdictAfterHead(lim, h.(body := Join(c.body)), c);
    if b.error.None? {
      ExecTrailers(lim, a, b, c);
    } else {
      ExecStops(lim, b, Pairs(c.trailers));
    }
  }

  lemma ExecTrailers(lim: Limits, a: Acc, b: Acc, c: Cut)
    requires WellCut(c) && AfterHead(a, b.(body := []), Whole(c)) && b.body == Whole(c).body
    requires b.headerBytes <= lim.maxHeaderBytes
    ensures var t := Exec(lim, b, Pairs(c.trailers));
      if Overflows(lim, b, Whole(c).trailers) then Refused(t, OverflowReason(lim, b, c.trailers), a.completed)
      else exists k: Acc :: ReadyToQueue(lim, a, t, k, Whole(c))
  {
    hide Exec, CommitHeader, Overflows, OverflowReason;
    var ts := JoinHeaders(c.trailers);
    NothingPending(lim, b);
    ExecPairs(lim, b, b, c.trailers);
    WithHeadersIs(b, ts);
    var t := Exec(lim, b, Pairs(c.trailers));
    TrailersOnlyCount(lim, t, WithHeaders(b, ts));
    assert !Overflows(lim, b, ts) ==> ReadyToQueue(lim, a, t, WithHeaders(b, ts), Whole(c));
  }

  lemma NothingPending(lim: Limits, b: Acc)
    requires Settled(b) && b.headerBytes <= lim.maxHeaderBytes
    ensures Pending(lim, b, b)
  {
  }

  lemma TrailersOnlyCount(lim: Limits, t: Acc, k: Acc)
    ensures Pending(lim, t, k) ==> t.inHead == k.inHead
  {
  }

  /** Completing a message drops its last trailer and leaves nothing of the message behind. */
  lemma CompleteMessage(lim: Limits, a: Acc, t: Acc, k: Acc, m: Message)
    requires Between(a) && ReadyToQueue(lim, a, t, k, m)
    ensures OnMessageComplete(t, m.tail) == a.(completed := a.completed + [Queued(m)])
  {
  }

  /** One message, however cut, is queued exactly or refused with its verdict. */
  lemma ExecMessage(lim: Limits, a: Acc, c: Cut)
    requires Between(a) && WellCut(c)
    ensures var r := Exec(lim, a, Events(c));
      var m := Whole(c);
      if Verdict(lim, m).Some? then Refused(r, Why(lim, c), a.completed)
      else r == a.(completed := a.completed + [Queued(m)])
  {
    hide Exec, Feed, Verdict, Why, AfterHead, Pending, Pairs, Bodies, Between, WellCut;
    var m, rest := Whole(c), Bodies(c.body) + Pairs(c.trailers);
    assert Events(c) == Head(c) + rest + [MessageComplete(c.tail)];
    ExecConcat(lim, a, Head(c) + rest, [MessageComplete(c.tail)]);
    ExecConcat(lim, a, Head(c), rest);
    ExecHead(lim, a, c);
    HeadVerdictFirst(lim, m);
    var h := Exec(lim, a, Head(c));
    if HeadVerdict(lim, m).None? {
      ExecRest(lim, a, h, c);
      var t := Exec(lim, h, rest);
      if Verdict(lim, m).None? {
        var k: Acc :| ReadyToQueue(lim, a, t, k, m);
        CompleteMessage(lim, a, t, k, m);
        PendingNoError(lim, t, k);
        ExecFirst(lim, t, MessageComplete(c.tail), []);
        FeedComplete(lim, t, c.tail);
      } else {
        ExecStops(lim, t, [MessageComplete(c.tail)]);
      }
    } else {
      ExecStops(lim, h, rest);
      ExecStops(lim, h, [MessageComplete(c.tail)]);
    }
  }

  lemma PendingNoError(lim: Limits, t: Acc, k: Acc)
    requires Pending(lim, t, k)
    ensures t.error.None?
  {
  }

  lemma FeedComplete(lim: Limits, t: Acc, tail: Tail)
    ensures Feed(lim, t, MessageComplete(tail)) == OnMessageComplete(t, tail)
  {
  }

  lemma HeadVerdictFirst(lim: Limits, m: Message)
    ensures HeadVerdict(lim, m).Some? ==> Verdict(lim, m) == HeadVerdict(lim, m)
  {
    hide DeclaredLength, OneHost, Lowered;
  }

  predicate AllWellCut(cs: seq<Cut>) {
    forall i :: 0 <= i < |cs| ==> WellCut(cs[i])
  }

  /** The refusal of the first message refused. */
  function Refusal(lim: Limits, cs: seq<Cut>): Option<ParseError>
    requires AllWellCut(cs)
  {
    if cs == [] then None
    else if Verdict(lim, Whole(cs[0])).Some? then Some(ParseError(Status(Why(lim, cs[0])), Why(lim, cs[0])))
    else Refusal(lim, cs[1..])
  }

  /** Pipelined messages, however cut: exactly the accepted ones before the first refusal, in
      order, and nothing of one in another. */
  lemma {:induction false} ExecPipeline(lim: Limits, a: Acc, cs: seq<Cut>)
    requires Between(a) && AllWellCut(cs)
    ensures var r := Exec(lim, a, AllEvents(cs));
      var o := Outcome(lim, Wholes(cs));
      && r.completed == a.completed + o.0
      && r.error == Refusal(lim, cs)
      && (if o.1.Some? then r.error.Some? && r.error.value.status == o.1.value else Between(r))
    decreases |cs|
  {
    hide Exec, Events, Verdict, Why, WellCut, Whole, Queued;
    if cs == [] {
      ExecStops(lim, a, []);
    } else {
      ExecConcat(lim, a, Events(cs[0]), AllEvents(cs[1..]));
      ExecMessage(lim, a, cs[0]);
      if Verdict(lim, Whole(cs[0])).Some? {
        VerdictIsStatus(lim, cs[0]);
      }
      assert Wholes(cs)[0] == Whole(cs[0]) && Wholes(cs)[1..] == Wholes(cs[1..]);
      var b := Exec(lim, a, Events(cs[0]));
      if b.error.None? {
        ExecPipeline(lim, b, cs[1..]);
        Regrouped(a.completed, [Queued(Whole(cs[0]))], Outcome(lim, Wholes(cs[1..])).0);
      } else {
        ExecStops(lim, b, AllEvents(cs[1..]));
      }
    }
  }

  /** How spans are split decides nothing: same messages, same requests, same refusal. */
  lemma SplittingIndependence(lim: Limits, xs: seq<Cut>, ys: seq<Cut>)
    requires AllWellCut(xs) && AllWellCut(ys) && Wholes(xs) == Wholes(ys)
    ensures var x, y := Exec(lim, Fresh(), AllEvents(xs)), Exec(lim, Fresh(), AllEvents(ys));
      && x.completed == y.completed && x.error.Some? == y.error.Some?
      && (x.error.Some? ==> x.error.value.status == y.error.value.status)
  {
    ExecPipeline(lim, Fresh(), xs);
    ExecPipeline(lim, Fresh(), ys);
  }

  /** Every queued request is within the limits and, from HTTP/1.1 on, names one host. */
  predicate WithinLimits(lim: Limits, r: Request) {
    && |r.url| <= lim.maxUrl
    && HeaderBytes(r.headers) <= lim.maxHeaderBytes && |r.headers| <= lim.maxHeaders
    && (lim.maxBody.Some? ==> |r.body| <= lim.maxBody.value)
    && (r.tail.minor >= 1 ==> OneHost(r.headers))
  }

  lemma {:induction false} LoweredBytes(hs: seq<Header>)
    ensures HeaderBytes(Lowered(hs)) == HeaderBytes(hs)
    decreases |hs|
  {
    if hs != [] {
      LoweredBytes(hs[..|hs| - 1]);
      assert Lowered(hs)[..|hs| - 1] == Lowered(hs[..|hs| - 1]);
    }
  }

  lemma {:induction false} AcceptedWithinLimits(lim: Limits, ms: seq<Message>, r: Request)
    requires r in Outcome(lim, ms).0
    ensures WithinLimits(lim, r)
    decreases |ms|
  {
    if r == Queued(ms[0]) {
      LoweredBytes(ms[0].headers);
    } else {
      AcceptedWithinLimits(lim, ms[1..], r);
    }
  }

  /** How many messages the first `k` events carry whole. */
  function WholeMessages(cs: seq<Cut>, k: nat): (j: nat)
    ensures j <= |cs|
  {
    if cs == [] || k < |Events(cs[0])| then 0 else 1 + WholeMessages(cs[1..], k - |Events(cs[0])|)
  }

  lemma FirstEvents(cs: seq<Cut>, j: nat)
    requires j < |cs|
    ensures AllEvents(cs[..j + 1]) == Events(cs[0]) + AllEvents(cs[1..][..j])
  {
    assert cs[..j + 1][1..] == cs[1..][..j];
  }

  /** WholeMessages is what its name says. */
  lemma {:induction false} WholeMessagesFit(cs: seq<Cut>, k: nat)
    requires k <= |AllEvents(cs)|
    ensures var j := WholeMessages(cs, k);
      && |AllEvents(cs[..j])| <= k && (j < |cs| ==> k < |AllEvents(cs[..j + 1])|)
    decreases |cs|
  {
    hide Events;
    if cs != [] {
      var n := |Events(cs[0])|;
      if k >= n {
        WholeMessagesFit(cs[1..], k - n);
        var j := WholeMessages(cs[1..], k - n);
        FirstEvents(cs, j);
        if j + 1 < |cs| {
          FirstEvents(cs, j + 1);
        }
      } else {
        FirstEvents(cs, 0);
      }
    }
  }

  lemma FeedQueues(lim: Limits, a: Acc, e: Event)
    ensures Feed(lim, a, e).completed == a.completed +
      if e.MessageComplete? then [Request(e.tail, a.url, a.headers, a.body)] else []
  {
    hide DeclaredLength, ExpectsContinue, OneHost;
    assert a.completed + [] == a.completed;
  }

  /** Nothing is queued before a message is complete. */
  lemma {:induction false} QueuedOnlyWhenComplete(lim: Limits, a: Acc, es: seq<Event>)
    requires forall i :: 0 <= i < |es| ==> !es[i].MessageComplete?
    ensures Exec(lim, a, es).completed == a.completed
    decreases |es|
  {
    hide Feed;
    if es != [] && a.error.None? {
      FeedQueues(lim, a, es[0]);
      QueuedOnlyWhenComplete(lim, Feed(lim, a, es[0]), es[1..]);
    }
  }

  lemma {:induction false} SpansComplete(spans: seq<bytes>, hs: seq<CutHeader>)
    ensures forall e :: e in Urls(spans) || e in Bodies(spans) || e in Pairs(hs) ==> !e.MessageComplete?
    decreases |spans| + |hs|
  {
    if spans != [] {
      SpansComplete(spans[1..], hs);
    } else if hs != [] {
      SpansComplete(spans, hs[1..]);
      NamesComplete(hs[0].name);
      NamesComplete(hs[0].value);
    }
  }

  lemma {:induction false} NamesComplete(spans: seq<bytes>)
    ensures forall e :: e in Fields(spans) || e in Values(spans) ==> !e.MessageComplete?
    decreases |spans|
  {
    if spans != [] {
      NamesComplete(spans[1..]);
    }
  }

  /** A message's last event, and only that, completes it. */
  lemma LastCompletes(c: Cut, k: nat)
    requires k < |Events(c)|
    ensures forall i :: 0 <= i < k ==> !Events(c)[..k][i].MessageComplete?
  {
    SpansComplete(c.url, c.headers);
    SpansComplete(c.body, c.trailers);
    var front := Head(c) + Bodies(c.body) + Pairs(c.trailers);
    assert Events(c) == front + [MessageComplete(c.tail)];
    forall i | 0 <= i < k ensures !Events(c)[..k][i].MessageComplete? {
      assert Events(c)[..k][i] == front[i] && front[i] in front;
    }
  }

  /** Stopped anywhere: the queue holds exactly the accepted ones of the messages seen whole. */
  lemma {:induction false} QueuedAt(lim: Limits, a: Acc, cs: seq<Cut>, k: nat)
    requires Between(a) && AllWellCut(cs) && k <= |AllEvents(cs)|
    ensures Exec(lim, a, AllEvents(cs)[..k]).completed
         == a.completed + Outcome(lim, Wholes(cs[..WholeMessages(cs, k)])).0
    decreases |cs|
  {
    hide Exec, Events, Verdict, Why, WellCut, Whole, Queued, Feed;
    if cs == [] {
      ExecStops(lim, a, []);
    } else {
      var n := |Events(cs[0])|;
      if k < n {
        assert AllEvents(cs)[..k] == Events(cs[0])[..k];
        LastCompletes(cs[0], k);
        QueuedOnlyWhenComplete(lim, a, Events(cs[0])[..k]);
        assert a.completed + [] == a.completed;
      } else {
        var rest := AllEvents(cs[1..])[..k - n];
        assert AllEvents(cs)[..k] == Events(cs[0]) + rest;
        ExecConcat(lim, a, Events(cs[0]), rest);
        ExecMessage(lim, a, cs[0]);
        var j := WholeMessages(cs[1..], k - n);
        var seen := cs[..j + 1];
        assert seen[0] == cs[0] && seen[1..] == cs[1..][..j];
        assert Wholes(seen)[0] == Whole(cs[0]) && Wholes(seen)[1..] == Wholes(cs[1..][..j]);
        var b := Exec(lim, a, Events(cs[0]));
        if b.error.None? {
          QueuedAt(lim, b, cs[1..], k - n);
          Regrouped(a.completed, [Queued(Whole(cs[0]))], Outcome(lim, Wholes(cs[1..][..j])).0);
        } else {
          ExecStops(lim, b, rest);
          assert a.completed + [] == a.completed;
        }
      }
    }
  }

  /** At every event of every stream, in any cut: what is queued is within the limits. */
  lemma QueuedWithinLimits(lim: Limits, cs: seq<Cut>, k: nat, r: Request)
    requires AllWellCut(cs) && k <= |AllEvents(cs)|
    requires r in Exec(lim, Fresh(), AllEvents(cs)[..k]).completed
    ensures WithinLimits(lim, r)
  {
    QueuedAt(lim, Fresh(), cs, k);
    AcceptedWithinLimits(lim, Wholes(cs[..WholeMessages(cs, k)]), r);
  }

  // ---- at every event, on any stream at all ----

  /** Bytes the message under way retains, refused or not, and the two continue flags. */
  predicate Bounded(lim: Limits, a: Acc) {
    && (a.owesContinue ==> a.expectingBody)
    && HeaderBytes(a.headers) + |a.field| + |a.value| <= lim.maxHeaderBytes
    && (a.error.None? ==>
          HeaderBytes(a.headers) + |a.field| + |a.value| <= a.headerBytes <= lim.maxHeaderBytes)
    && |a.url| <= lim.maxUrl
    && (lim.maxBody.Some? ==> |a.body| <= lim.maxBody.value)
  }

  lemma CommitKeepsBounded(lim: Limits, a: Acc)
    requires Bounded(lim, a)
    ensures Bounded(lim, CommitHeader(a))
    ensures var c := CommitHeader(a);
      c.error == a.error && c.headerBytes == a.headerBytes && c.url == a.url && c.body == a.body
  {
    var c := CommitHeader(a);
    if a.inValue && a.inHead {
      assert c.headers[..|c.headers| - 1] == a.headers;
    }
  }

  lemma FieldKeepsBounded(lim: Limits, a: Acc, b: bytes)
    requires Bounded(lim, a) && a.error.None?
    ensures Bounded(lim, OnHeaderField(lim, a, b))
  {
    hide CommitHeader, HeaderBytes;
    CommitKeepsBounded(lim, a);
  }

  lemma HeadKeepsBounded(lim: Limits, a: Acc, minor: nat)
    requires Bounded(lim, a) && a.error.None?
    ensures Bounded(lim, OnHeadersComplete(lim, a, minor))
  {
    hide CommitHeader, HeaderBytes, DeclaredLength, ExpectsContinue, OneHost;
    CommitKeepsBounded(lim, a);
  }

  lemma FeedKeepsBounded(lim: Limits, a: Acc, e: Event)
    requires Bounded(lim, a) && a.error.None?
    ensures Bounded(lim, Feed(lim, a, e))
  {
    assert HeaderBytes([]) == 0;
    hide OnHeaderField, OnHeadersComplete, HeaderBytes;
    match e {
      case Field(b) => FieldKeepsBounded(lim, a, b);
      case HeadersComplete(minor) => HeadKeepsBounded(lim, a, minor);
      case _ =>
    }
  }

  lemma {:induction false} AlwaysBounded(lim: Limits, a: Acc, es: seq<Event>)
    requires Bounded(lim, a)
    ensures Bounded(lim, Exec(lim, a, es))
    decreases |es|
  {
    if es != [] && a.error.None? {
      FeedKeepsBounded(lim, a, es[0]);
      AlwaysBounded(lim, Feed(lim, a, es[0]), es[1..]);
    }
  }

  /** The bytes of everything queued. */
  predicate QueueBounded(lim: Limits, a: Acc) {
    forall r :: r in a.completed ==>
      && |r.url| <= lim.maxUrl && HeaderBytes(r.headers) <= lim.maxHeaderBytes
      && (lim.maxBody.Some? ==> |r.body| <= lim.maxBody.value)
  }

  /** Even on streams llhttp would never make, nothing queued exceeds the byte limits. */
  lemma {:induction false} QueueAlwaysBounded(lim: Limits, a: Acc, es: seq<Event>)
    requires Bounded(lim, a) && QueueBounded(lim, a)
    ensures QueueBounded(lim, Exec(lim, a, es))
    decreases |es|
  {
    hide Feed, HeaderBytes;
    if es != [] && a.error.None? {
      FeedKeepsBounded(lim, a, es[0]);
      FeedQueues(lim, a, es[0]);
      QueueAlwaysBounded(lim, Feed(lim, a, es[0]), es[1..]);
    }
  }

  // ---- taking the owed interim response ----

  datatype Input = Callback(e: Event) | Take

  /** The accumulator before each input. */
  ghost predicate Trace(lim: Limits, inputs: seq<Input>, states: seq<Acc>) {
    && |states| == |inputs| + 1 && states[0] == Fresh()
    && forall k {:trigger inputs[k]} :: 0 <= k < |inputs| ==>
      states[k + 1] == match inputs[k]
                    case Callback(e) => if states[k].error.Some? then states[k] else Feed(lim, states[k], e)
                    case Take => states[k].(owesContinue := false)
  }

  predicate TakenAt(inputs: seq<Input>, states: seq<Acc>, k: nat)
    requires |states| == |inputs| + 1
  {
    k < |inputs| && inputs[k].Take? && states[k].owesContinue
  }

  lemma {:induction false} OwedNeedsHead(lim: Limits, inputs: seq<Input>, states: seq<Acc>, i: nat, k: nat)
    requires Trace(lim, inputs, states) && i < k < |states| && inputs[i].Take? && states[k].owesContinue
    ensures exists j :: i < j < k && inputs[j].Callback? && inputs[j].e.HeadersComplete?
    decreases k
  {
    assert k - 1 == i || inputs[k - 1] == inputs[k - 1];
    if states[k - 1].owesContinue && k - 1 > i {
      OwedNeedsHead(lim, inputs, states, i, k - 1);
    } else {
      assert i < k - 1 < k && inputs[k - 1].Callback? && inputs[k - 1].e.HeadersComplete?;
    }
  }

  /** Between two interim responses taken, another head was completed: at most one each. */
  lemma TakenOncePerHead(lim: Limits, inputs: seq<Input>, states: seq<Acc>, i: nat, k: nat)
    requires Trace(lim, inputs, states) && i < k && TakenAt(inputs, states, i) && TakenAt(inputs, states, k)
    ensures exists j :: i < j < k && inputs[j].Callback? && inputs[j].e.HeadersComplete?
  {
    OwedNeedsHead(lim, inputs, states, i, k);
  }

  function Callbacks(inputs: seq<Input>): seq<Event> {
    if inputs == [] then []
    else Callbacks(inputs[..|inputs| - 1]) + if inputs[|inputs| - 1].Callback? then [inputs[|inputs| - 1].e] else []
  }

  /** Equal but for the flag that `take_owes_continue` clears. */
  predicate Alike(x: Acc, y: Acc) {
    x == y.(owesContinue := x.owesContinue)
  }

  lemma CommitAlike(x: Acc, y: Acc)
    requires Alike(x, y)
    ensures Alike(CommitHeader(x), CommitHeader(y))
  {
  }

  lemma FieldAlike(lim: Limits, x: Acc, y: Acc, b: bytes)
    requires Alike(x, y)
    ensures Alike(OnHeaderField(lim, x, b), OnHeaderField(lim, y, b))
  {
    hide CommitHeader;
    CommitAlike(x, y);
  }

  lemma CheckAlike(lim: Limits, x: Acc, y: Acc, minor: nat)
    requires Alike(x, y)
    ensures Alike(CheckHead(lim, x, minor), CheckHead(lim, y, minor))
  {
    hide DeclaredLength, ExpectsContinue, OneHost;
  }

  lemma HeadAlike(lim: Limits, x: Acc, y: Acc, minor: nat)
    requires Alike(x, y)
    ensures Alike(OnHeadersComplete(lim, x, minor), OnHeadersComplete(lim, y, minor))
  {
    hide CommitHeader, CheckHead;
    CommitAlike(x, y);
    CheckAlike(lim, CommitHeader(x).(inHead := false), CommitHeader(y).(inHead := false), minor);
  }

  lemma UrlAlike(lim: Limits, x: Acc, y: Acc, b: bytes)
    requires Alike(x, y)
    ensures Alike(OnUrl(lim, x, b), OnUrl(lim, y, b))
  {
  }

  lemma ValueAlike(lim: Limits, x: Acc, y: Acc, b: bytes)
    requires Alike(x, y)
    ensures Alike(OnHeaderValue(lim, x, b), OnHeaderValue(lim, y, b))
  {
  }

  lemma BodyAlike(lim: Limits, x: Acc, y: Acc, b: bytes)
    requires Alike(x, y)
    ensures Alike(OnBody(lim, x, b), OnBody(lim, y, b))
  {
  }

  lemma FeedAlike(lim: Limits, x: Acc, y: Acc, e: Event)
    requires Alike(x, y)
    ensures Alike(Feed(lim, x, e), Feed(lim, y, e))
  {
    hide OnUrl, OnHeaderField, OnHeaderValue, OnHeadersComplete, OnBody;
    match e {
      case Url(b) => UrlAlike(lim, x, y, b);
      case Field(b) => FieldAlike(lim, x, y, b);
      case Value(b) => ValueAlike(lim, x, y, b);
      case HeadersComplete(minor) => HeadAlike(lim, x, y, minor);
      case Body(b) => BodyAlike(lim, x, y, b);
      case MessageBegin =>
      case MessageComplete(_) =>
    }
  }

  /** When the flag is taken decides nothing else: requests and refusals are as without. */
  lemma {:induction false} TakingChangesNothingElse(lim: Limits, inputs: seq<Input>, states: seq<Acc>)
    requires Trace(lim, inputs, states)
    ensures Alike(states[|inputs|], Exec(lim, Fresh(), Callbacks(inputs)))
    decreases |inputs|
  {
    hide Feed;
    if inputs != [] {
      var n := |inputs| - 1;
      var shorter := inputs[..n];
      assert Trace(lim, shorter, states[..n + 1]) by {
        forall k | 0 <= k < n ensures shorter[k] == inputs[k] {
        }
      }
      TakingChangesNothingElse(lim, shorter, states[..n + 1]);
      if inputs[n].Callback? {
        ExecConcat(lim, Fresh(), Callbacks(shorter), [inputs[n].e]);
        var x := Exec(lim, Fresh(), Callbacks(shorter));
        if x.error.None? {
          ExecFirst(lim, x, inputs[n].e, []);
          FeedAlike(lim, states[n], x, inputs[n].e);
        } else {
          ExecStops(lim, x, [inputs[n].e]);
        }
      } else {
        assert Callbacks(inputs) == Callbacks(shorter);
      }
    }
  }
}
