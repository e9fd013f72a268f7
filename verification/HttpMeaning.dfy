/** What the header tests come to in plain bytes, and which messages are accepted. */
module HttpMeaning {
  import opened Words
  import opened HttpEvents
  import opened HttpTheorems

  lemma Spelled()
    ensures HOST == Ascii("host") && EXPECT == Ascii("expect")
    ensures CONTENT_LENGTH == Ascii("content-length") && CONTINUE == Ascii("100-continue") && COMMA == ',' as int
  {
  }

  // ---- upper and lower case ----

  /** The same word but for ASCII case. */
  predicate SameWord(a: bytes, b: bytes) {
    |a| == |b| && forall i :: 0 <= i < |a| ==>
      a[i] == b[i] || (65 <= a[i] <= 90 && b[i] == a[i] + 32) || (65 <= b[i] <= 90 && a[i] == b[i] + 32)
  }

  predicate NoUpperCase(b: bytes) {
    forall i :: 0 <= i < |b| ==> !(65 <= b[i] <= 90)
  }

  /** Lowercasing adds 32 to the bytes from 65 to 90 and leaves the others. */
  lemma LowerMeans(b: bytes)
    ensures NoUpperCase(Lower(b)) && |Lower(b)| == |b| && Lower(Lower(b)) == Lower(b)
    ensures forall i :: 0 <= i < |b| ==> Lower(b)[i] == if 65 <= b[i] <= 90 then b[i] as int + 32 else b[i]
  {
  }

  /** It identifies just the strings that differ in ASCII case alone. */
  lemma LowerIff(a: bytes, b: bytes)
    ensures Lower(a) == Lower(b) <==> SameWord(a, b)
  {
    if Lower(a) == Lower(b) {
      forall i | 0 <= i < |a|
        ensures a[i] == b[i] || (65 <= a[i] <= 90 && b[i] == a[i] + 32) || (65 <= b[i] <= 90 && a[i] == b[i] + 32)
      {
        assert Lower(a)[i] == Lower(b)[i];
      }
    }
  }

  /** A word without upper case is what lowercasing makes of its own casings. */
  lemma LowerIsWord(name: bytes, word: bytes)
    requires NoUpperCase(word)
    ensures Lower(name) == word <==> SameWord(name, word)
  {
    assert Lower(word) == word;
    LowerIff(name, word);
  }

  // ---- which headers there are ----

  /** Header i of a head, as it was sent, has this name in some casing. */
  predicate HasName(hs: seq<Header>, i: nat, word: bytes)
    requires i < |hs|
  {
    SameWord(hs[i].name, word)
  }

  lemma LoweredName(hs: seq<Header>, i: nat, word: bytes)
    requires i < |hs| && NoUpperCase(word)
    ensures Lowered(hs)[i].name == word <==> HasName(hs, i, word)
    ensures Lowered(hs)[i].value == hs[i].value && NoUpperCase(Lowered(hs)[i].name)
  {
    LowerIsWord(hs[i].name, word);
    LowerMeans(hs[i].name);
  }

  lemma {:induction false} CountPositive(hs: seq<Header>, name: bytes)
    ensures CountNamed(hs, name) > 0 <==> exists i :: 0 <= i < |hs| && hs[i].name == name
    decreases |hs|
  {
    if hs != [] {
      CountPositive(hs[1..], name);
      if i :| 0 <= i < |hs| && hs[i].name == name {
        assert i > 0 ==> hs[1..][i - 1].name == name;
      }
      if i :| 0 <= i < |hs[1..]| && hs[1..][i].name == name {
        assert hs[i + 1].name == name;
      }
    }
  }

  /** One of that name, and no other. */
  predicate OnlyAt(hs: seq<Header>, name: bytes, i: nat) {
    i < |hs| && hs[i].name == name && forall j :: 0 <= j < |hs| && hs[j].name == name ==> j == i
  }

  lemma {:induction false} CountIsOne(hs: seq<Header>, name: bytes)
    ensures CountNamed(hs, name) == 1 <==> exists i: nat :: OnlyAt(hs, name, i)
    decreases |hs|
  {
    if hs != [] {
      var rest := hs[1..];
      CountIsOne(rest, name);
      CountPositive(rest, name);
      if hs[0].name == name {
        if CountNamed(rest, name) == 0 {
          assert forall j :: 0 < j < |hs| ==> hs[j] == rest[j - 1];
          assert OnlyAt(hs, name, 0);
        } else {
          var i :| 0 <= i < |rest| && rest[i].name == name;
          assert hs[i + 1].name == name;
        }
      } else {
        if i: nat :| OnlyAt(rest, name, i) {
          assert forall j :: 0 < j < |hs| ==> hs[j] == rest[j - 1];
          assert OnlyAt(hs, name, i + 1);
        }
        if i: nat :| OnlyAt(hs, name, i) {
          assert forall j :: 0 <= j < |rest| ==> rest[j] == hs[j + 1];
          assert OnlyAt(rest, name, i - 1);
        }
      }
    }
  }

  /** Exactly one header is called host, in whatever case. */
  ghost predicate HasOneHost(hs: seq<Header>) {
    exists i :: 0 <= i < |hs| && HasName(hs, i, HOST) && forall j :: 0 <= j < |hs| && HasName(hs, j, HOST) ==> j == i
  }

  lemma OneHostMeans(hs: seq<Header>)
    ensures OneHost(Lowered(hs)) <==> HasOneHost(hs)
  {
    var low := Lowered(hs);
    CountIsOne(low, HOST);
    forall j | 0 <= j < |hs| ensures low[j].name == HOST <==> HasName(hs, j, HOST) {
      LoweredName(hs, j, HOST);
    }
    hide Lowered, HasName;
    if i: nat :| OnlyAt(low, HOST, i) {
      assert HasName(hs, i, HOST);
    }
    if i :| 0 <= i < |hs| && HasName(hs, i, HOST) && forall j :: 0 <= j < |hs| && HasName(hs, j, HOST) ==> j == i {
      assert OnlyAt(low, HOST, i);
    }
  }

  /** The first of that name. */
  predicate FirstAt(hs: seq<Header>, name: bytes, i: nat) {
    i < |hs| && hs[i].name == name && forall j :: 0 <= j < i ==> hs[j].name != name
  }

  lemma {:induction false} FirstNamedMeans(hs: seq<Header>, name: bytes, v: bytes)
    ensures FirstNamed(hs, name) == Some(v) <==> exists i: nat :: FirstAt(hs, name, i) && hs[i].value == v
    decreases |hs|
  {
    if hs != [] {
      var rest := hs[1..];
      FirstNamedMeans(rest, name, v);
      if hs[0].name == name {
        assert FirstAt(hs, name, 0);
      } else {
        if i: nat :| FirstAt(rest, name, i) && rest[i].value == v {
          assert forall j :: 0 < j < |hs| ==> hs[j] == rest[j - 1];
          assert FirstAt(hs, name, i + 1);
        }
        if i: nat :| FirstAt(hs, name, i) && hs[i].value == v {
          assert forall j :: 0 <= j < |rest| ==> rest[j] == hs[j + 1];
          assert FirstAt(rest, name, i - 1);
        }
      }
    }
  }

  // ---- numbers ----

  predicate Blank(b: bytes, verticalTab: bool) {
    forall i :: 0 <= i < |b| ==> b[i] in {9, 10, 12, 13, 32} || (verticalTab && b[i] == 11)
  }

  /** What is left is the string without blanks at its ends. */
  ghost predicate IsTrimmed(t: bytes, b: bytes, verticalTab: bool) {
    && (t != [] ==> !Blank(t[..1], verticalTab) && !Blank(t[|t| - 1..], verticalTab))
    && exists p, q :: Blank(p, verticalTab) && Blank(q, verticalTab) && b == p + t + q
  }

  lemma PeelFront(t: bytes, b: bytes, verticalTab: bool)
    requires b != [] && Blank(b[..1], verticalTab) && IsTrimmed(t, b[1..], verticalTab)
    ensures IsTrimmed(t, b, verticalTab)
  {
    var p, q :| Blank(p, verticalTab) && Blank(q, verticalTab) && b[1..] == p + t + q;
    assert forall i :: 0 < i < |b[..1] + p| ==> (b[..1] + p)[i] == p[i - 1];
    assert b[..1][0] == b[0];
    assert Blank(b[..1] + p, verticalTab);
    assert b == b[..1] + b[1..] == (b[..1] + p) + t + q;
  }

  lemma PeelBack(t: bytes, b: bytes, verticalTab: bool)
    requires b != [] && Blank(b[|b| - 1..], verticalTab) && IsTrimmed(t, b[..|b| - 1], verticalTab)
    ensures IsTrimmed(t, b, verticalTab)
  {
    var front, last := b[..|b| - 1], b[|b| - 1..];
    var p, q :| Blank(p, verticalTab) && Blank(q, verticalTab) && front == p + t + q;
    assert last[0] == b[|b| - 1];
    assert Blank(q + last, verticalTab);
    assert b == front + last == p + t + (q + last);
  }

  lemma NothingToTrim(b: bytes, verticalTab: bool)
    requires b != [] ==> !Blank(b[..1], verticalTab) && !Blank(b[|b| - 1..], verticalTab)
    ensures IsTrimmed(b, b, verticalTab)
  {
    assert Blank([], verticalTab) && b == [] + b + [];
  }

  lemma BlankEnds(b: bytes, verticalTab: bool)
    requires b != []
    ensures Blank(b[..1], verticalTab) <==> IsSpace(b[0], verticalTab)
    ensures Blank(b[|b| - 1..], verticalTab) <==> IsSpace(b[|b| - 1], verticalTab)
  {
    assert b[..1][0] == b[0] && b[|b| - 1..][0] == b[|b| - 1];
  }

  lemma {:induction false} TrimMeans(b: bytes, verticalTab: bool)
    ensures IsTrimmed(Trim(b, verticalTab), b, verticalTab)
    decreases |b|
  {
    if b != [] {
      BlankEnds(b, verticalTab);
    }
    hide IsSpace, Blank, IsTrimmed;
    if b == [] {
      NothingToTrim(b, verticalTab);
    } else if IsSpace(b[0], verticalTab) {
      TrimMeans(b[1..], verticalTab);
      PeelFront(Trim(b, verticalTab), b, verticalTab);
    } else if IsSpace(b[|b| - 1], verticalTab) {
      TrimMeans(b[..|b| - 1], verticalTab);
      PeelBack(Trim(b, verticalTab), b, verticalTab);
    } else {
      NothingToTrim(b, verticalTab);
    }
  }

  function Pow10(n: nat): nat {
    if n == 0 then 1 else 10 * Pow10(n - 1)
  }

  predicate AllDigits(b: bytes) {
    forall i :: 0 <= i < |b| ==> 48 <= b[i] <= 57
  }

  /** Decimal digits, the most significant first. */
  function Decimal(b: bytes): nat
    requires AllDigits(b)
  {
    if b == [] then 0 else (b[0] - 48) * Pow10(|b| - 1) + Decimal(b[1..])
  }

  lemma {:induction false} DecimalLast(b: bytes)
    requires AllDigits(b) && b != []
    ensures Decimal(b) == 10 * Decimal(b[..|b| - 1]) + b[|b| - 1] as int - 48
    decreases |b|
  {
    var n := |b| - 1;
    if n == 0 {
      assert b[1..] == [] && b[..0] == [];
    } else {
      DecimalLast(b[1..]);
      assert b[1..][..n - 1] == b[..n][1..];
      var d: nat := b[0] - 48;
      assert Decimal(b[..n]) == d * Pow10(n - 1) + Decimal(b[..n][1..]);
      TenTimes(d, Pow10(n - 1));
    }
  }

  lemma TenTimes(d: nat, a: nat)
    ensures d * (10 * a) == 10 * (d * a)
  {
  }

  lemma {:induction false} DigitsMean(b: bytes)
    ensures Digits(b).Some? <==> AllDigits(b)
    ensures AllDigits(b) ==> Digits(b).value == Decimal(b)
    decreases |b|
  {
    if b != [] {
      DigitsMean(b[..|b| - 1]);
      if AllDigits(b) {
        DecimalLast(b);
      }
    }
  }

  /** `d` is the number's digits, behind at most one plus sign. */
  predicate Numeral(b: bytes, d: bytes) {
    (b == d || b == [43] + d) && d != [] && AllDigits(d)
  }

  lemma ParseMeans(b: bytes, n: nat)
    ensures ParseU64(b) == Some(n) <==>
      exists d :: Numeral(b, d) && Decimal(d) == n && n < 0x1_0000_0000_0000_0000
  {
    var digits := if b != [] && b[0] == 43 then b[1..] else b;
    DigitsMean(digits);
    if ParseU64(b) == Some(n) {
      assert Numeral(b, digits);
    }
    if d :| Numeral(b, d) && Decimal(d) == n && n < 0x1_0000_0000_0000_0000 {
      assert d == digits by {
        assert b == [43] + d ==> b[1..] == d;
      }
    }
  }

  /** The head declares n bytes of body: the value of its first content-length header, blanks
      trimmed, is a numeral for n below 2^64. */
  ghost predicate Declares(hs: seq<Header>, n: nat) {
    exists i, t, d :: 0 <= i < |hs|
      && HasName(hs, i, CONTENT_LENGTH) && (forall j :: 0 <= j < i ==> !HasName(hs, j, CONTENT_LENGTH))
      && IsTrimmed(t, hs[i].value, true) && Numeral(t, d) && Decimal(d) == n && n < 0x1_0000_0000_0000_0000
  }

  /** Blanks can be trimmed in one way only. */
  lemma TrimmedOnce(t: bytes, u: bytes, b: bytes, verticalTab: bool)
    requires IsTrimmed(t, b, verticalTab) && IsTrimmed(u, b, verticalTab)
    ensures t == u
  {
    var p, q :| Blank(p, verticalTab) && Blank(q, verticalTab) && b == p + t + q;
    var r, s :| Blank(r, verticalTab) && Blank(s, verticalTab) && b == r + u + s;
    TrimmedWithin(t, p, q, u, r, s, verticalTab);
    TrimmedWithin(u, r, s, t, p, q, verticalTab);
    if t != [] {
      assert b[|p|..|p| + |t|] == t && b[|r|..|r| + |u|] == u;
    }
  }

  lemma TrimmedWithin(t: bytes, p: bytes, q: bytes, u: bytes, r: bytes, s: bytes, verticalTab: bool)
    requires p + t + q == r + u + s && Blank(r, verticalTab) && Blank(s, verticalTab)
    requires t != [] ==> !Blank(t[..1], verticalTab) && !Blank(t[|t| - 1..], verticalTab)
    ensures t != [] ==> |r| <= |p| && |p| + |t| <= |r| + |u|
  {
    var b := p + t + q;
    if t != [] {
      assert b[|p|] == t[0] == t[..1][0] && b[|p| + |t| - 1] == t[|t| - 1] == t[|t| - 1..][0];
      assert forall i :: 0 <= i < |r| ==> b[i] == r[i];
      assert forall i :: |r| + |u| <= i < |b| ==> b[i] == s[i - |r| - |u|];
    }
  }

  lemma DeclaredMeans(hs: seq<Header>, n: nat)
    ensures DeclaredLength(Lowered(hs)) == Some(n) <==> Declares(hs, n)
  {
    var low := Lowered(hs);
    forall j | 0 <= j < |hs| ensures low[j].name == CONTENT_LENGTH <==> HasName(hs, j, CONTENT_LENGTH) {
      LoweredName(hs, j, CONTENT_LENGTH);
    }
    assert forall j :: 0 <= j < |hs| ==> low[j].value == hs[j].value;
    hide Lowered, HasName, Trim, ParseU64, IsTrimmed, Numeral, Decimal;
    if DeclaredLength(low) == Some(n) {
      var v := FirstNamed(low, CONTENT_LENGTH).value;
      FirstNamedMeans(low, CONTENT_LENGTH, v);
      var i: nat :| FirstAt(low, CONTENT_LENGTH, i) && low[i].value == v;
      TrimMeans(v, true);
      ParseMeans(Trim(v, true), n);
      var d :| Numeral(Trim(v, true), d) && Decimal(d) == n && n < 0x1_0000_0000_0000_0000;
      assert HasName(hs, i, CONTENT_LENGTH) && IsTrimmed(Trim(v, true), hs[i].value, true);
    }
    if Declares(hs, n) {
      var i, t, d :| 0 <= i < |hs|
        && HasName(hs, i, CONTENT_LENGTH) && (forall j :: 0 <= j < i ==> !HasName(hs, j, CONTENT_LENGTH))
        && IsTrimmed(t, hs[i].value, true) && Numeral(t, d) && Decimal(d) == n && n < 0x1_0000_0000_0000_0000;
      var v := hs[i].value;
      assert FirstAt(low, CONTENT_LENGTH, i);
      FirstNamedMeans(low, CONTENT_LENGTH, v);
      TrimMeans(v, true);
      TrimmedOnce(t, Trim(v, true), v, true);
      ParseMeans(t, n);
    }
  }

  // ---- the expectation ----

  /** v[i..j] stands between commas, or the ends. */
  predicate ListItem(v: bytes, i: nat, j: nat) {
    && i <= j <= |v|
    && (i == 0 || v[i - 1] == 44) && (j == |v| || v[j] == 44)
    && forall k :: i <= k < j ==> v[k] != 44
  }

  /** Some item of the comma-separated list is 100-continue, in any case and with blanks around. */
  ghost predicate AsksContinue(v: bytes) {
    exists i: nat, j: nat, t :: ListItem(v, i, j) && IsTrimmed(t, v[i..j], false) && SameWord(t, CONTINUE)
  }

  predicate IsContinue(item: bytes) {
    Lower(Trim(item, false)) == CONTINUE
  }

  lemma {:induction false} ListsFrom(v: bytes, i: nat, k: nat)
    requires i <= k <= |v| && (i == 0 || v[i - 1] == 44) && forall j :: i <= j < k ==> v[j] != 44
    ensures ListsContinue(v[k..], v[i..k]) <==>
      exists a: nat, b: nat :: i <= a && ListItem(v, a, b) && IsContinue(v[a..b])
    decreases |v| - k
  {
    hide Lower, Trim;
    if k == |v| {
      assert v[k..] == [];
      assert ListItem(v, i, k);
      forall a: nat, b: nat | i <= a && ListItem(v, a, b) ensures a == i && b == k {
      }
    } else if v[k] == 44 {
      assert v[k..][1..] == v[k + 1..] && v[k + 1..k + 1] == [];
      ListsFrom(v, k + 1, k + 1);
      assert ListItem(v, i, k);
      forall a: nat, b: nat | i <= a && ListItem(v, a, b) ensures (a == i && b == k) || a > k {
      }
    } else {
      assert v[k..][1..] == v[k + 1..] && v[i..k] + [v[k]] == v[i..k + 1];
      ListsFrom(v, i, k + 1);
    }
  }

  lemma ListsContinueMeans(v: bytes)
    ensures ListsContinue(v, []) <==> AsksContinue(v)
  {
    assert v[0..] == v && v[0..0] == [];
    ListsFrom(v, 0, 0);
    hide ListsContinue, ListItem, Lower, Trim, IsTrimmed, SameWord;
    if ListsContinue(v, []) {
      var a: nat, b: nat :| ListItem(v, a, b) && IsContinue(v[a..b]);
      ItemMeans(v, a, b);
      var t := Trim(v[a..b], false);
      assert IsTrimmed(t, v[a..b], false) && SameWord(t, CONTINUE);
    }
    if AsksContinue(v) {
      var i: nat, j: nat, t :| ListItem(v, i, j) && IsTrimmed(t, v[i..j], false) && SameWord(t, CONTINUE);
      ItemMeans(v, i, j);
      TrimmedOnce(t, Trim(v[i..j], false), v[i..j], false);
      assert IsContinue(v[i..j]);
    }
  }

  lemma ItemMeans(v: bytes, i: nat, j: nat)
    requires ListItem(v, i, j)
    ensures i <= j <= |v| && IsTrimmed(Trim(v[i..j], false), v[i..j], false)
    ensures IsContinue(v[i..j]) <==> SameWord(Trim(v[i..j], false), CONTINUE)
  {
    TrimMeans(v[i..j], false);
    LowerIsWord(Trim(v[i..j], false), CONTINUE);
  }

  /** Some expect header, in whatever case, asks for it. */
  ghost predicate AnyAsks(hs: seq<Header>) {
    exists i :: 0 <= i < |hs| && HasName(hs, i, EXPECT) && AsksContinue(hs[i].value)
  }

  lemma ExpectsMeans(hs: seq<Header>)
    ensures ExpectsContinue(Lowered(hs)) <==> AnyAsks(hs)
  {
    var low := Lowered(hs);
    forall i | 0 <= i < |hs|
      ensures low[i].name == EXPECT <==> HasName(hs, i, EXPECT)
      ensures ListsContinue(low[i].value, []) <==> AsksContinue(hs[i].value)
    {
      LoweredName(hs, i, EXPECT);
      ListsContinueMeans(hs[i].value);
    }
    hide Lowered, HasName, AsksContinue, ListsContinue;
  }

  // ---- the verdict ----

  ghost predicate DeclaresTooMuch(lim: Limits, hs: seq<Header>) {
    exists n: nat :: lim.maxBody.Some? && n > lim.maxBody.value && Declares(hs, n)
  }

  /** The verdict in plain terms: 414 for a long target; then 431 for headers too large or too
      many; then, from HTTP/1.1 on, 400 for none or several called host in whatever case; then
      413 for a body declared or found too large; then 431 for trailers with no room. */
  lemma VerdictMeans(lim: Limits, m: Message)
    ensures var hs := m.headers;
      var late := m.trailers != [] &&
        (HeaderBytes(hs) + HeaderBytes(m.trailers) > lim.maxHeaderBytes || |hs| >= lim.maxHeaders);
      Verdict(lim, m) ==
        if |m.url| > lim.maxUrl then Some(414)
        else if HeaderBytes(hs) > lim.maxHeaderBytes || |hs| > lim.maxHeaders then Some(431)
        else if m.tail.minor > 0 && !HasOneHost(hs) then Some(400)
        else if DeclaresTooMuch(lim, hs) || (lim.maxBody.Some? && |m.body| > lim.maxBody.value) then Some(413)
        else if late then Some(431)
        else None
  {
    OneHostMeans(m.headers);
    var d := DeclaredLength(Lowered(m.headers));
    if d.Some? {
      DeclaredMeans(m.headers, d.value);
    }
    forall n: nat ensures Declares(m.headers, n) <==> d == Some(n) {
      DeclaredMeans(m.headers, n);
    }
    hide DeclaredLength, OneHost, HasOneHost, Declares, Lowered, HeaderBytes;
  }

  /** A head within the limits with one host, however it is written, is never refused with 400. */
  lemma AnyCasingOfHost(lim: Limits, m: Message, i: nat)
    requires i < |m.headers| && |m.headers[i].name| == 4
    requires forall k :: 0 <= k < 4 ==> m.headers[i].name[k] in {Ascii("host")[k], Ascii("HOST")[k]}
    requires forall j :: 0 <= j < |m.headers| && j != i ==> !SameWord(m.headers[j].name, Ascii("host"))
    ensures Verdict(lim, m) != Some(400)
  {
    Spelled();
    VerdictMeans(lim, m);
    assert HasName(m.headers, i, HOST);
    hide DeclaresTooMuch;
  }

  /** What is queued of an accepted message: the target, the names in lower case, the values,
      the body and the tail as they were sent, and nothing of the trailers. */
  lemma QueuedMeans(m: Message)
    ensures var r := Queued(m);
      && r.url == m.url && r.body == m.body && r.tail == m.tail && |r.headers| == |m.headers|
      && forall i :: 0 <= i < |m.headers| ==>
           && r.headers[i].value == m.headers[i].value
           && NoUpperCase(r.headers[i].name) && SameWord(r.headers[i].name, m.headers[i].name)
  {
    forall i | 0 <= i < |m.headers|
      ensures NoUpperCase(Lower(m.headers[i].name)) && SameWord(Lower(m.headers[i].name), m.headers[i].name)
    {
      LowerMeans(m.headers[i].name);
    }
  }

  lemma {:induction false} QueuedFrom(lim: Limits, ms: seq<Message>, r: Request) returns (j: nat)
    requires r in Outcome(lim, ms).0
    ensures j < |ms| && r == Queued(ms[j]) && Verdict(lim, ms[j]).None?
    decreases |ms|
  {
    if r == Queued(ms[0]) {
      j := 0;
    } else {
      var i := QueuedFrom(lim, ms[1..], r);
      j := i + 1;
    }
  }

  /** At every event of every stream, what is queued is some message as it was sent, names in
      lower case, and from HTTP/1.1 on with one host. */
  lemma QueueHoldsMessages(lim: Limits, cs: seq<Cut>, k: nat, r: Request) returns (j: nat)
    requires AllWellCut(cs) && k <= |AllEvents(cs)|
    requires r in Exec(lim, Fresh(), AllEvents(cs)[..k]).completed
    ensures j < |cs| && r == Queued(Whole(cs[j])) && (r.tail.minor > 0 ==> HasOneHost(Whole(cs[j]).headers))
    ensures forall i :: 0 <= i < |r.headers| ==> NoUpperCase(r.headers[i].name)
  {
    QueuedAt(lim, Fresh(), cs, k);
    var seen := cs[..WholeMessages(cs, k)];
    hide Exec, Verdict, Events;
    j := QueuedFrom(lim, Wholes(seen), r);
    WholesAt(seen, j);
    VerdictMeans(lim, Whole(seen[j]));
    QueuedMeans(Whole(seen[j]));
  }

  lemma {:induction false} WholesAt(cs: seq<Cut>, j: nat)
    requires j < |cs|
    ensures Wholes(cs)[j] == Whole(cs[j])
    decreases |cs|
  {
    if j > 0 {
      WholesAt(cs[1..], j - 1);
    }
  }

  /** After an accepted head the interim response is owed just when it is HTTP/1.1 or later and
      some expect header asks for it. */
  lemma OwesMeans(lim: Limits, a: Acc, c: Cut)
    requires Between(a) && WellCut(c) && HeadVerdict(lim, Whole(c)).None?
    ensures var h := Exec(lim, a, Head(c));
      h.owesContinue == h.expectingBody == (c.tail.minor > 0 && AnyAsks(Whole(c).headers))
  {
    ExecHead(lim, a, c);
    ExpectsMeans(Whole(c).headers);
  }
}
