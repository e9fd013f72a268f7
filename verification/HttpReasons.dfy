/** The reason given with a refusal. Its status depends on the message alone; this is exactly
    when its reason does. */
module HttpReasons {
  import opened Words
  import opened HttpEvents
  import opened HttpTheorems

  /** Bytes used before a header there is no room for: they fit with its shortest first span,
      and not with its whole name. */
  predicate Straddles(lim: Limits, used: nat, name: bytes, least: nat) {
    used + least <= lim.maxHeaderBytes < used + |name|
  }

  /** With first spans of `least` bytes or more, does the reason depend on the cut? Only the
      first header past the limit can make it so, or the first trailer when the head is full. */
  predicate Ambiguous(lim: Limits, m: Message, least: nat) {
    var n := lim.maxHeaders;
    && |m.url| <= lim.maxUrl
    && if |m.headers| > n then Straddles(lim, BytesBefore(m.headers, n), m.headers[n].name, least)
       else
         && |m.headers| == n && m.trailers != [] && Verdict(lim, m.(trailers := [])).None?
         && Straddles(lim, HeaderBytes(m.headers), m.trailers[0].name, least)
  }

  /** Is the first message refused such a message? */
  predicate AmbiguousRefusal(lim: Limits, ms: seq<Message>, least: nat) {
    && ms != []
    && if Verdict(lim, ms[0]).Some? then Ambiguous(lim, ms[0], least) else AmbiguousRefusal(lim, ms[1..], least)
  }

  // ---- cuts ----

  /** No name is cut into spans shorter than this. */
  predicate SpansOf(hs: seq<CutHeader>, least: nat) {
    forall i, j :: 0 <= i < |hs| && 0 <= j < |hs[i].name| ==> |hs[i].name[j]| >= least
  }

  predicate NameSpans(c: Cut, least: nat) {
    SpansOf(c.headers, least) && SpansOf(c.trailers, least)
  }

  /** One way to cut these messages, without short name spans. */
  predicate CutsOf(cs: seq<Cut>, ms: seq<Message>, least: nat) {
    AllWellCut(cs) && Wholes(cs) == ms && forall i :: 0 <= i < |cs| ==> NameSpans(cs[i], least)
  }

  predicate AllNamed(hs: seq<Header>) {
    forall i :: 0 <= i < |hs| ==> hs[i].name != []
  }

  /** Every header and trailer has a name, as section 3.2 of RFC 7230 has it. */
  predicate Named(m: Message) {
    AllNamed(m.headers) && AllNamed(m.trailers)
  }

  function CutName(name: bytes, k: nat): seq<bytes> {
    if k >= |name| then [name] else [name[..k], name[k..]]
  }

  function CutHeaders(hs: seq<Header>, k: nat): (cs: seq<CutHeader>)
    ensures |cs| == |hs| && forall i :: 0 <= i < |hs| ==> cs[i] == CutHeader(CutName(hs[i].name, k), [hs[i].value])
  {
    seq(|hs|, i requires 0 <= i < |hs| => CutHeader(CutName(hs[i].name, k), [hs[i].value]))
  }

  /** Every name cut after its first k bytes, everything else in one span. */
  function CutAfter(m: Message, k: nat): Cut {
    Cut([m.url], CutHeaders(m.headers, k), [m.body], CutHeaders(m.trailers, k), m.tail)
  }

  function CutAllAfter(ms: seq<Message>, k: nat): (cs: seq<Cut>)
    ensures |cs| == |ms|
  {
    if ms == [] then [] else [CutAfter(ms[0], k)] + CutAllAfter(ms[1..], k)
  }

  lemma JoinOne(b: bytes)
    ensures Join([b]) == b
  {
    assert Join([]) == [];
  }

  lemma JoinCutName(name: bytes, k: nat)
    ensures Join(CutName(name, k)) == name
  {
    JoinOne(name);
    if k < |name| {
      var spans := CutName(name, k);
      assert spans[1..] == [name[k..]];
      JoinOne(name[k..]);
    }
  }

  lemma {:induction false} JoinCutHeaders(hs: seq<Header>, k: nat)
    ensures JoinHeaders(CutHeaders(hs, k)) == hs
    decreases |hs|
  {
    if hs != [] {
      var cs := CutHeaders(hs, k);
      assert cs[1..] == CutHeaders(hs[1..], k);
      JoinCutHeaders(hs[1..], k);
      JoinCutName(hs[0].name, k);
      JoinOne(hs[0].value);
    }
  }

  lemma CutAfterIsCut(m: Message, k: nat, least: nat)
    requires least <= 1 && least <= k && (least == 1 ==> Named(m))
    ensures WellCut(CutAfter(m, k)) && Whole(CutAfter(m, k)) == m && NameSpans(CutAfter(m, k), least)
  {
    JoinCutHeaders(m.headers, k);
    JoinCutHeaders(m.trailers, k);
    JoinOne(m.url);
    JoinOne(m.body);
  }

  lemma {:induction false} CutAllAfterIsCut(ms: seq<Message>, k: nat, least: nat)
    requires least <= 1 && least <= k && (least == 1 ==> forall i :: 0 <= i < |ms| ==> Named(ms[i]))
    ensures CutsOf(CutAllAfter(ms, k), ms, least)
    decreases |ms|
  {
    if ms != [] {
      hide WellCut, NameSpans, CutAfter, Whole;
      var cs := CutAllAfter(ms, k);
      assert cs[0] == CutAfter(ms[0], k) && cs[1..] == CutAllAfter(ms[1..], k);
      CutAfterIsCut(ms[0], k, least);
      CutAllAfterIsCut(ms[1..], k, least);
      assert ms == [ms[0]] + ms[1..];
    }
  }

  // ---- when two cuts agree ----

  lemma {:induction false} JoinedNames(hs: seq<CutHeader>, i: nat)
    requires i < |hs| && hs[i].name != []
    ensures JoinHeaders(hs)[i].name == Join(hs[i].name) && |hs[i].name[0]| <= |Join(hs[i].name)|
    decreases |hs|
  {
    if i > 0 {
      JoinedNames(hs[1..], i - 1);
    }
  }

  /** A prefix's bytes are no more than the whole's. */
  lemma {:induction false} HeaderBytesPrefix(hs: seq<Header>, k: nat)
    requires k <= |hs|
    ensures HeaderBytes(hs[..k]) <= HeaderBytes(hs)
    decreases |hs|
  {
    var n := |hs| - 1;
    if k <= n {
      HeaderBytesPrefix(hs[..n], k);
      assert hs[..n][..k] == hs[..k];
    } else {
      assert hs[..k] == hs;
    }
  }

  /** The span that decides the reason of a refused message, if there is one. */
  function Deciding(lim: Limits, c: Cut): Option<(nat, bytes)>
    requires WellCut(c)
  {
    var m, n := Whole(c), lim.maxHeaders;
    if |m.headers| > n then Some((BytesBefore(m.headers, n), c.headers[n].name[0]))
    else if |m.headers| == n && c.trailers != [] then Some((HeaderBytes(m.headers), c.trailers[0].name[0]))
    else None
  }

  lemma AgreeOne(lim: Limits, x: Cut, y: Cut, least: nat)
    requires WellCut(x) && WellCut(y) && Whole(x) == Whole(y) && NameSpans(x, least) && NameSpans(y, least)
    requires Verdict(lim, Whole(x)).Some? && !Ambiguous(lim, Whole(x), least)
    ensures Why(lim, x) == Why(lim, y)
  {
    hide DeclaredLength, OneHost, Lowered, HeaderBytes, Join;
    var m, n := Whole(x), lim.maxHeaders;
    if n < |m.headers| {
      JoinedNames(x.headers, n);
      JoinedNames(y.headers, n);
    } else if m.trailers != [] {
      JoinedNames(x.trailers, 0);
      JoinedNames(y.trailers, 0);
    }
  }

  lemma {:induction false} Agree(lim: Limits, xs: seq<Cut>, ys: seq<Cut>, ms: seq<Message>, least: nat)
    requires CutsOf(xs, ms, least) && CutsOf(ys, ms, least) && !AmbiguousRefusal(lim, ms, least)
    ensures Refusal(lim, xs) == Refusal(lim, ys)
    decreases |ms|
  {
    hide Verdict, Why, WellCut, Whole, NameSpans, Ambiguous;
    if ms != [] {
      assert Whole(xs[0]) == ms[0] == Whole(ys[0]) && Wholes(xs[1..]) == ms[1..] == Wholes(ys[1..]);
      if Verdict(lim, ms[0]).Some? {
        AgreeOne(lim, xs[0], ys[0], least);
      } else {
        Agree(lim, xs[1..], ys[1..], ms[1..], least);
      }
    }
  }

  // ---- when two cuts differ ----

  /** The reason of an ambiguous message is decided by its first span without room. */
  lemma WhyDecides(lim: Limits, c: Cut, least: nat)
    requires WellCut(c) && Ambiguous(lim, Whole(c), least)
    ensures Verdict(lim, Whole(c)) == Some(431)
    ensures var d := Deciding(lim, c);
      && d.Some?
      && Why(lim, c) == if d.value.0 + |d.value.1| <= lim.maxHeaderBytes then TooManyHeaders else HeadersTooLarge
  {
    var m := Whole(c);
    if |m.headers| <= lim.maxHeaders {
      HeaderBytesFirst(m.trailers);
    }
    hide DeclaredLength, OneHost, Lowered, HeaderBytes, Join;
  }

  lemma DecidingAfter(lim: Limits, m: Message, k: nat, least: nat)
    requires Ambiguous(lim, m, least) && WellCut(CutAfter(m, k)) && Whole(CutAfter(m, k)) == m
    ensures var d := Deciding(lim, CutAfter(m, k));
      && d.Some? && d.value.0 + least <= lim.maxHeaderBytes
      && (k <= least ==> |d.value.1| <= least)
      && (k > lim.maxHeaderBytes ==> d.value.0 + |d.value.1| > lim.maxHeaderBytes)
  {
    hide DeclaredLength, OneHost, Lowered, HeaderBytes, Join, JoinHeaders, Verdict;
  }

  lemma DifferOne(lim: Limits, m: Message, least: nat)
    requires least <= 1 && Ambiguous(lim, m, least) && (least == 1 ==> Named(m))
    ensures Verdict(lim, m) == Some(431)
    ensures var x, y := CutAfter(m, lim.maxHeaderBytes + 1), CutAfter(m, least);
      && WellCut(x) && WellCut(y)
      && Why(lim, x) == HeadersTooLarge && Why(lim, y) == TooManyHeaders
  {
    var b := lim.maxHeaderBytes + 1;
    CutAfterIsCut(m, b, least);
    CutAfterIsCut(m, least, least);
    WhyDecides(lim, CutAfter(m, b), least);
    WhyDecides(lim, CutAfter(m, least), least);
    DecidingAfter(lim, m, b, least);
    DecidingAfter(lim, m, least, least);
  }

  lemma {:induction false} Differ(lim: Limits, ms: seq<Message>, least: nat)
    requires least <= 1 && (least == 1 ==> forall i :: 0 <= i < |ms| ==> Named(ms[i]))
    requires AmbiguousRefusal(lim, ms, least)
    ensures var xs, ys := CutAllAfter(ms, lim.maxHeaderBytes + 1), CutAllAfter(ms, least);
      AllWellCut(xs) && AllWellCut(ys) && Refusal(lim, xs) != Refusal(lim, ys)
    decreases |ms|
  {
    var b := lim.maxHeaderBytes + 1;
    CutAllAfterIsCut(ms, b, least);
    CutAllAfterIsCut(ms, least, least);
    CutAfterIsCut(ms[0], b, least);
    CutAfterIsCut(ms[0], least, least);
    if Verdict(lim, ms[0]).Some? {
      DifferOne(lim, ms[0], least);
    } else {
      Differ(lim, ms[1..], least);
    }
    hide Verdict, Why, WellCut, Whole, NameSpans, Ambiguous, CutAfter;
    assert CutAllAfter(ms, b)[1..] == CutAllAfter(ms[1..], b);
    assert CutAllAfter(ms, least)[1..] == CutAllAfter(ms[1..], least);
  }

  /** Two cuts of the same messages are refused for different reasons. */
  ghost predicate ReasonsDiffer(lim: Limits, ms: seq<Message>, least: nat) {
    exists xs, ys :: CutsOf(xs, ms, least) && CutsOf(ys, ms, least) &&
      Exec(lim, Fresh(), AllEvents(xs)).error != Exec(lim, Fresh(), AllEvents(ys)).error
  }

  /** The reason depends on the cut if and only if the first message refused is ambiguous:
      the bytes before the first header or trailer without room fit the limit, and do not
      with its name. The same holds with one byte more for cuts without empty name spans. */
  lemma ReasonDependsOnCut(lim: Limits, ms: seq<Message>, least: nat)
    requires least <= 1 && (least == 1 ==> forall i :: 0 <= i < |ms| ==> Named(ms[i]))
    ensures ReasonsDiffer(lim, ms, least) <==> AmbiguousRefusal(lim, ms, least)
  {
    hide Exec, AmbiguousRefusal, CutsOf;
    if ReasonsDiffer(lim, ms, least) && !AmbiguousRefusal(lim, ms, least) {
      var xs, ys :| CutsOf(xs, ms, least) && CutsOf(ys, ms, least) &&
        Exec(lim, Fresh(), AllEvents(xs)).error != Exec(lim, Fresh(), AllEvents(ys)).error;
      ErrorIsRefusal(lim, xs, ms, least);
      ErrorIsRefusal(lim, ys, ms, least);
      Agree(lim, xs, ys, ms, least);
      assert false;
    }
    if AmbiguousRefusal(lim, ms, least) {
      var xs, ys := CutAllAfter(ms, lim.maxHeaderBytes + 1), CutAllAfter(ms, least);
      CutAllAfterIsCut(ms, lim.maxHeaderBytes + 1, least);
      CutAllAfterIsCut(ms, least, least);
      ErrorIsRefusal(lim, xs, ms, least);
      ErrorIsRefusal(lim, ys, ms, least);
      Differ(lim, ms, least);
    }
  }

  lemma ErrorIsRefusal(lim: Limits, cs: seq<Cut>, ms: seq<Message>, least: nat)
    requires CutsOf(cs, ms, least)
    ensures AllWellCut(cs) && Exec(lim, Fresh(), AllEvents(cs)).error == Refusal(lim, cs)
  {
    ExecPipeline(lim, Fresh(), cs);
  }

  // ---- which configurations are affected ----

  lemma {:induction false} NamesTakeBytes(hs: seq<Header>)
    requires AllNamed(hs)
    ensures HeaderBytes(hs) >= |hs|
    decreases |hs|
  {
    if hs != [] {
      NamesTakeBytes(hs[..|hs| - 1]);
    }
  }

  function Letters(n: nat): (b: bytes)
    ensures |b| == n
  {
    seq(n, _ => 97)
  }

  function ShortHeaders(n: nat): (hs: seq<Header>)
    ensures |hs| == n && AllNamed(hs)
  {
    seq(n, _ => Header([97], []))
  }

  lemma {:induction false} ShortHeaderBytes(n: nat)
    ensures HeaderBytes(ShortHeaders(n)) == n
  {
    if n > 0 {
      assert ShortHeaders(n)[..n - 1] == ShortHeaders(n - 1);
      ShortHeaderBytes(n - 1);
    }
  }

  /** Some message with a target and named headers is ambiguous just when targets are allowed
      and that many one-byte names, and the shortest span more, fit the byte limit, as they do
      by default. */
  lemma AffectedIff(lim: Limits, least: nat, tail: Tail)
    requires least <= 1
    ensures (exists m: Message :: m.url != [] && Named(m) && Ambiguous(lim, m, least)) <==>
      lim.maxUrl > 0 && lim.maxHeaders + least <= lim.maxHeaderBytes
  {
    forall m: Message | m.url != [] && Named(m) && Ambiguous(lim, m, least)
      ensures lim.maxUrl > 0 && lim.maxHeaders + least <= lim.maxHeaderBytes
    {
      NamesTakeBytes(if |m.headers| > lim.maxHeaders then m.headers[..lim.maxHeaders] else m.headers);
    }
    if lim.maxUrl > 0 && lim.maxHeaders + least <= lim.maxHeaderBytes {
      var n := lim.maxHeaders;
      var last := Header(Letters(lim.maxHeaderBytes - n + 1), []);
      var m := Message([47], ShortHeaders(n) + [last], [], [], tail);
      assert m.headers[..n] == ShortHeaders(n);
      ShortHeaderBytes(n);
      assert m.url != [] && Named(m) && Ambiguous(lim, m, least);
    }
  }
}
