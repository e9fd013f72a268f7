/** The accumulator as the callbacks update it, field by field. */
module HttpParser {
  import opened Words
  import opened HttpEvents

  class Accumulator {
    const limits: Limits
    var url: bytes
    var headers: seq<Header>
    var field: bytes
    var value: bytes
    var inValue: bool
    var headerBytes: nat
    var body: bytes
    var completed: seq<Request>
    var error: Option<ParseError>
    var inHead: bool
    var owesContinue: bool
    var expectingBody: bool

    function State(): Acc
      reads this
    {
      Acc(url, headers, field, value, inValue, headerBytes, body, completed, error, inHead, owesContinue, expectingBody)
    }

    constructor (limits: Limits)
      ensures this.limits == limits && State() == Fresh()
    {
      this.limits := limits;
      url, headers, field, value, inValue, headerBytes := [], [], [], [], false, 0;
      body, completed, error := [], [], None;
      inHead, owesContinue, expectingBody := false, false, false;
    }

    method CommitHeader()
      modifies this`inValue, this`field, this`value, this`headers
      ensures State() == HttpEvents.CommitHeader(old(State()))
    {
      if !inValue {
        return;
      }
      inValue := false;
      var taken, takenValue := field, value;
      field, value := [], [];
      if !inHead {
        return;
      }
      headers := headers + [Header(Lower(taken), takenValue)];
    }

    method MessageBegin() returns (ok: bool)
      modifies this`inHead
      ensures ok && State() == old(State()).(inHead := true)
    {
      inHead := true;
      ok := true;
    }

    method Url(b: bytes) returns (ok: bool)
      modifies this`url, this`error
      ensures State() == OnUrl(limits, old(State()), b)
      ensures ok <==> old(|url|) + |b| <= limits.maxUrl
      ensures !ok ==> error.Some? && error.value.status == 414
    {
      if |url| + |b| > limits.maxUrl {
        error := Some(ParseError(414, TargetTooLong));
        return false;
      }
      url := url + b;
      ok := true;
    }

    method HeaderField(b: bytes) returns (ok: bool)
      modifies this`inValue, this`field, this`value, this`headers, this`headerBytes, this`error
      ensures State() == OnHeaderField(limits, old(State()), b)
      ensures ok ==> error == old(error)
      ensures !ok ==> error.Some? && error.value.status == 431
    {
      hide HttpEvents.CommitHeader;
      CommitHeader();
      headerBytes := headerBytes + |b|;
      if headerBytes > limits.maxHeaderBytes {
        error := Some(ParseError(431, HeadersTooLarge));
        return false;
      }
      if |headers| >= limits.maxHeaders {
        error := Some(ParseError(431, TooManyHeaders));
        return false;
      }
      field := field + b;
      ok := true;
    }

    method HeaderValue(b: bytes) returns (ok: bool)
      modifies this`inValue, this`value, this`headerBytes, this`error
      ensures State() == OnHeaderValue(limits, old(State()), b)
      ensures ok ==> error == old(error)
      ensures !ok ==> error.Some? && error.value.status == 431
    {
      inValue := true;
      headerBytes := headerBytes + |b|;
      if headerBytes > limits.maxHeaderBytes {
        error := Some(ParseError(431, HeadersTooLarge));
        return false;
      }
      value := value + b;
      ok := true;
    }

    method HeadersComplete(minor: nat) returns (ok: bool)
      modifies this`inValue, this`field, this`value, this`headers
      modifies this`inHead, this`error, this`owesContinue, this`expectingBody
      ensures State() == OnHeadersComplete(limits, old(State()), minor)
      ensures ok ==> error == old(error)
      ensures !ok ==> error.Some? && error.value.status in {400, 413}
    {
      hide HttpEvents.CommitHeader, DeclaredLength, ExpectsContinue, CountNamed;
      CommitHeader();
      inHead := false;
      if minor >= 1 {
        if !OneHost(headers) {
          error := Some(ParseError(400, NotOneHost));
          return false;
        }
      }
      if limits.maxBody.Some? {
        var declared := DeclaredLength(headers);
        if declared.Some? && declared.value > limits.maxBody.value {
          error := Some(ParseError(413, BodyTooLarge));
          return false;
        }
      }
      if minor >= 1 && ExpectsContinue(headers) {
        owesContinue := true;
        expectingBody := true;
      }
      ok := true;
    }

    method Body(b: bytes) returns (ok: bool)
      modifies this`body, this`error
      ensures State() == OnBody(limits, old(State()), b)
      ensures ok ==> error == old(error)
      ensures !ok ==> error.Some? && error.value.status == 413
    {
      if limits.maxBody.Some? && |body| + |b| > limits.maxBody.value {
        error := Some(ParseError(413, BodyTooLarge));
        return false;
      }
      body := body + b;
      ok := true;
    }

    method MessageComplete(tail: Tail) returns (ok: bool)
      modifies this
      ensures ok && State() == OnMessageComplete(old(State()), tail)
    {
      owesContinue := false;
      expectingBody := false;
      completed := completed + [Request(tail, url, headers, body)];
      url, headers, body := [], [], [];
      headerBytes := 0;
      field, value, inValue := [], [], false;
      ok := true;
    }

    /** llhttp making the callbacks of one buffer, stopping at the first that fails; the
        error of that callback is what `feed` answers, then and ever after. */
    method Feed(es: seq<Event>) returns (r: Option<ParseError>)
      modifies this
      ensures State() == Exec(limits, old(State()), es)
      ensures r == error && (old(error).Some? ==> State() == old(State()))
    {
      hide OnUrl, OnHeaderField, OnHeaderValue, OnHeadersComplete, OnBody, OnMessageComplete, Exec;
      var i := 0;
      var ok := error == None;
      ExecFrom(limits, State(), es, 0);
      while ok && i < |es|
        invariant 0 <= i <= |es|
        invariant ok <==> error == None
        invariant Exec(limits, old(State()), es) == Exec(limits, State(), es[i..])
      {
        ExecFrom(limits, State(), es, i);
        ok := Callback(es[i]);
        i := i + 1;
      }
      ExecFrom(limits, State(), es, i);
      r := error;
    }

    method Callback(e: Event) returns (ok: bool)
      requires error == None
      modifies this
      ensures State() == HttpEvents.Feed(limits, old(State()), e)
      ensures ok <==> error == None
    {
      hide OnHeaderField, OnHeaderValue, OnHeadersComplete, OnBody;
      match e {
        case MessageBegin => ok := MessageBegin();
        case Url(b) => ok := Url(b);
        case Field(b) => ok := HeaderField(b);
        case Value(b) => ok := HeaderValue(b);
        case HeadersComplete(minor) => ok := HeadersComplete(minor);
        case Body(b) => ok := Body(b);
        case MessageComplete(tail) => ok := MessageComplete(tail);
      }
    }

    /** True once per head that asked for `100 Continue`. */
    method TakeOwesContinue() returns (owed: bool)
      modifies this`owesContinue
      ensures owed == old(owesContinue) && State() == old(State()).(owesContinue := false)
    {
      owed, owesContinue := owesContinue, false;
    }

    /** The oldest finished request not yet taken. */
    method NextRequest() returns (r: Option<Request>)
      modifies this`completed
      ensures r.None? <==> old(completed) == []
      ensures old(completed) == (if r.Some? then [r.value] else []) + completed
    {
      if completed == [] {
        return None;
      }
      r := Some(completed[0]);
      completed := completed[1..];
    }
  }

  lemma ExecFrom(lim: Limits, a: Acc, es: seq<Event>, i: nat)
    requires i <= |es|
    ensures i == 0 ==> es[i..] == es
    ensures i == |es| || a.error.Some? ==> Exec(lim, a, es[i..]) == a
    ensures i < |es| && a.error.None? ==>
      Exec(lim, a, es[i..]) == Exec(lim, HttpEvents.Feed(lim, a, es[i]), es[i + 1..])
  {
    if i < |es| {
      assert es[i..][1..] == es[i + 1..];
    }
  }
}
