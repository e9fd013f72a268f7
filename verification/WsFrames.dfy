/** WebSocket frames (sections 5.2 and 5.3 of RFC 6455): the length forms, masking, and a
    parser for any frame, against which the client's frames are measured. */
module WsFrames {
  import opened Words
  import opened Binary

  const TEXT: byte := 1
  const BINARY: byte := 2
  const CLOSE: byte := 8
  const PING: byte := 9
  const PONG: byte := 10

  /** A Go slice is never longer. */
  const MAX_INT := 0x7fff_ffff_ffff_ffff

  // ---- masking ----

  /** Exclusive or of the low `k` bits. */
  function XorBits(a: nat, b: nat, k: nat): (r: nat)
    ensures r < Pow2(k)
  {
    if k == 0 then 0 else 2 * XorBits(a / 2, b / 2, k - 1) + if a % 2 == b % 2 then 0 else 1
  }

  lemma {:induction false} XorBitsTwice(a: nat, b: nat, k: nat)
    requires a < Pow2(k)
    ensures XorBits(XorBits(a, b, k), b, k) == a
  {
    if k > 0 {
      var r := XorBits(a, b, k);
      assert r / 2 == XorBits(a / 2, b / 2, k - 1);
      XorBitsTwice(a / 2, b / 2, k - 1);
    }
  }

  /** Bit i of a number. */
  function Bit(n: nat, i: nat): nat {
    n / Pow2(i) % 2
  }

  lemma HalfBit(n: nat, i: nat)
    ensures Bit(n, i + 1) == Bit(n / 2, i) && Bit(n, 0) == n % 2
  {
    var d := Pow2(i);
    assert Pow2(i + 1) == 2 * d && Pow2(0) == 1;
    var q, r := n / 2 / d, n / 2 % d * 2 + n % 2;
    assert n / 2 == q * d + n / 2 % d && n == n / 2 * 2 + n % 2;
    assert n == q * (2 * d) + r by {
      assert (q * d) * 2 == q * (2 * d);
    }
    Divides(n, 2 * d, q, r);
  }

  /** A bit is set just where the two numbers' bits differ. */
  lemma {:induction false} XorBitsAt(a: nat, b: nat, k: nat, i: nat)
    requires i < k
    ensures Bit(XorBits(a, b, k), i) == if Bit(a, i) != Bit(b, i) then 1 else 0
  {
    var r := XorBits(a, b, k);
    assert r / 2 == XorBits(a / 2, b / 2, k - 1);
    if i == 0 {
      HalfBit(r, 0);
      HalfBit(a, 0);
      HalfBit(b, 0);
    } else {
      HalfBit(r, i - 1);
      HalfBit(a, i - 1);
      HalfBit(b, i - 1);
      XorBitsAt(a / 2, b / 2, k - 1, i - 1);
    }
  }

  lemma Eight()
    ensures Pow2(8) == 256
  {
    assert Pow2(4) == 16;
    assert Pow2(6) == 64;
  }

  function Xor(a: byte, b: byte): byte {
    Eight();
    XorBits(a, b, 8)
  }

  /** Exclusive or, bit by bit. */
  lemma XorAt(a: byte, b: byte, i: nat)
    requires i < 8
    ensures Bit(Xor(a, b), i) == if Bit(a, i) != Bit(b, i) then 1 else 0
  {
    XorBitsAt(a, b, 8, i);
  }

  lemma XorTwice(a: byte, b: byte)
    ensures Xor(Xor(a, b), b) == a
  {
    Eight();
    XorBitsTwice(a, b, 8);
  }

  /** Each byte under the key byte of its position modulo four. */
  function Masked(p: bytes, key: bytes): (r: bytes)
    requires |key| == 4
    ensures |r| == |p| && forall i :: 0 <= i < |p| ==> r[i] == Xor(p[i], key[i % 4])
  {
    seq(|p|, i requires 0 <= i < |p| => Xor(p[i], key[i % 4]))
  }

  lemma MaskedTwice(p: bytes, key: bytes)
    requires |key| == 4
    ensures Masked(Masked(p, key), key) == p
  {
    forall i | 0 <= i < |p| ensures Masked(Masked(p, key), key)[i] == p[i] {
      XorTwice(p[i], key[i % 4]);
    }
  }

  // ---- lengths ----

  datatype Form = Seven | Sixteen | SixtyFour

  predicate Fits(form: Form, n: nat) {
    match form
    case Seven => n < 126
    case Sixteen => n < Values(2)
    case SixtyFour => n < Values(8)
  }

  function Lead(form: Form, n: nat): (r: byte)
    requires Fits(form, n)
    ensures r < 128
  {
    match form
    case Seven => n
    case Sixteen => 126
    case SixtyFour => 127
  }

  function Extension(form: Form, n: nat): bytes {
    match form
    case Seven => []
    case Sixteen => ToBig(n, 2)
    case SixtyFour => ToBig(n, 8)
  }

  /** Bytes of extended length behind a lead byte. */
  function ExtensionSize(lead: byte): nat {
    if lead == 126 then 2 else if lead == 127 then 8 else 0
  }

  function LengthOf(lead: byte, extension: bytes): nat {
    if lead >= 126 then FromBig(extension) else lead
  }

  lemma LengthRoundTrip(form: Form, n: nat)
    requires Fits(form, n)
    ensures ExtensionSize(Lead(form, n)) == |Extension(form, n)|
    ensures LengthOf(Lead(form, n), Extension(form, n)) == n
  {
    BigRoundTrip(n, 2);
    BigRoundTrip(n, 8);
  }

  // ---- any frame ----

  /** A frame as section 5.2 of RFC 6455 reads it: its first byte, key and unmasked payload. */
  datatype Parsed = Parsed(first: byte, key: Option<bytes>, payload: bytes, rest: bytes)

  function Parse(s: bytes): Option<Parsed> {
    if |s| < 2 then None
    else
      var lead := s[1] % 128;
      var e := 2 + ExtensionSize(lead);
      if |s| < e then None
      else
        var n := LengthOf(lead, s[2..e]);
        var k := if s[1] >= 128 then 4 else 0;
        if |s| - e - k < n then None
        else
          var body := s[e + k..e + k + n];
          if k == 0 then Some(Parsed(s[0], None, body, s[e + n..]))
          else Some(Parsed(s[0], Some(s[e..e + 4]), Masked(body, s[e..e + 4]), s[e + 4 + n..]))
  }

  // ---- the client's frames ----

  function ClientForm(n: nat): Form {
    if n < 126 then Seven else if n <= 0xffff then Sixteen else SixtyFour
  }

  lemma ClientFormFits(n: nat)
    requires n <= MAX_INT
    ensures Fits(ClientForm(n), n)
  {
    Widths();
  }

  /** A final frame under a key. */
  function ClientFrame(op: byte, p: bytes, key: bytes): (f: bytes)
    requires |p| <= MAX_INT && |key| == 4
  {
    ClientFormFits(|p|);
    [128 + op % 128, 128 + Lead(ClientForm(|p|), |p|)] + Extension(ClientForm(|p|), |p|) + key + Masked(p, key)
  }

  /** Bytes of header before the key, for a payload of n bytes. */
  function HeaderSize(n: nat): nat {
    if n < 126 then 2 else if n < 0x1_0000 then 4 else 10
  }

  lemma EightBytes(n: nat, i: nat)
    requires i < 8
    ensures ToBig(n, 8)[i] == n / Values(7 - i) % 256
  {
    ToBigAt(n, 8, i);
  }

  lemma ClientFrameLayout(op: byte, p: bytes, key: bytes)
    requires |p| <= MAX_INT && |key| == 4
    ensures var f, n, h := ClientFrame(op, p, key), |p|, HeaderSize(|p|);
      && |f| == h + 4 + n && f[0] == 128 + op % 128
      && f[1] == 128 + (if n < 126 then n else if n < 0x1_0000 then 126 else 127)
      && (h == 4 ==> f[2] == n / 256 && f[3] == n % 256)
      && (h == 10 ==> f[2..10] == ToBig(n, 8))
      && f[h..h + 4] == key && f[h + 4..] == Masked(p, key)
  {
    ClientFormFits(|p|);
    if HeaderSize(|p|) == 4 {
      TwoBytes(|p|);
    }
    hide ToBig, Masked;
  }

  /** A client frame's bytes: the final bit and opcode; the mask bit and the shortest length,
      most significant byte first; the key; and each payload byte with the bits flipped that
      its key byte has set. */
  lemma ClientFrameBytes(op: byte, p: bytes, key: bytes)
    requires |p| <= MAX_INT && |key| == 4
    ensures var f, n := ClientFrame(op, p, key), |p|;
      var h := if n < 126 then 2 else if n < 0x1_0000 then 4 else 10;
      && |f| == h + 4 + n && f[0] == 128 + op % 128
      && f[1] == 128 + (if n < 126 then n else if n < 0x1_0000 then 126 else 127)
      && (h == 4 ==> f[2] == n / 256 && f[3] == n % 256)
      && (h == 10 ==> forall i :: 0 <= i < 8 ==> f[2..10][i] == n / Values(7 - i) % 256)
      && f[h..h + 4] == key
      && (forall i, j :: 0 <= i < n && 0 <= j < 8 ==>
            Bit(f[h + 4..][i], j) == if Bit(p[i], j) != Bit(key[i % 4], j) then 1 else 0)
  {
    ClientFrameLayout(op, p, key);
    hide ClientFrame, Bit, ToBig, Values;
    var n := |p|;
    forall i | 0 <= i < 8 ensures ToBig(n, 8)[i] == n / Values(7 - i) % 256 {
      EightBytes(n, i);
    }
    forall i, j | 0 <= i < n && 0 <= j < 8
      ensures Bit(Masked(p, key)[i], j) == if Bit(p[i], j) != Bit(key[i % 4], j) then 1 else 0
    {
      XorAt(p[i], key[i % 4], j);
    }
  }

  /** A client frame parses, in front of anything, to its opcode, key and payload. */
  lemma ClientFrameParses(op: byte, p: bytes, key: bytes, rest: bytes)
    requires |p| <= MAX_INT && |key| == 4
    ensures Parse(ClientFrame(op, p, key) + rest) == Some(Parsed(128 + op % 128, Some(key), p, rest))
  {
    ClientFormFits(|p|);
    var form := ClientForm(|p|);
    LengthRoundTrip(form, |p|);
    MaskedTwice(p, key);
    var x := Extension(form, |p|);
    var front: bytes := [128 + op % 128, 128 + Lead(form, |p|)];
    assert front[1] % 128 == Lead(form, |p|);
    hide Lead, Extension, ExtensionSize, LengthOf, ClientForm, Fits, Masked;
    FivePieces(front, x, key, Masked(p, key), rest);
    assert ClientFrame(op, p, key) + rest == front + x + key + Masked(p, key) + rest;
  }

  lemma FivePieces(a: bytes, b: bytes, c: bytes, d: bytes, e: bytes)
    ensures var s, i, j := a + b + c + d + e, |a| + |b|, |a| + |b| + |c|;
      s[|a|..i] == b && s[i..j] == c && s[j..j + |d|] == d && s[j + |d|..] == e
  {
  }

  /** No masked frame carrying the same payload is shorter. */
  lemma ClientFrameShortest(op: byte, p: bytes, key: bytes, s: bytes)
    requires |p| <= MAX_INT && |key| == 4
    requires Parse(s).Some? && Parse(s).value.key.Some? && Parse(s).value.payload == p && Parse(s).value.rest == []
    ensures |ClientFrame(op, p, key)| <= |s|
  {
    var lead := s[1] % 128;
    var e := 2 + ExtensionSize(lead);
    Widths();
    ReadThenWrite(s[2..e]);
    assert |s| == e + 4 + |p|;
  }
}
