/** Socket addresses and the kernel's byte layouts for them. `little` says which way round
    the machine keeps its own numbers; `inet6` is the platform's AF_INET6, 10 or 23. */
module SockAddrs {
  import opened Words
  import opened Binary

  const AF_UNIX := 1
  const AF_INET := 2
  const SIZE := 128

  type Port = x: int | 0 <= x < 0x1_0000
  type Octets4 = s: bytes | |s| == 4 witness [0, 0, 0, 0]
  type Octets16 = s: bytes | |s| == 16 witness [0, 0, 0, 0, 0, 0, 0, 0, 0, 0, 0, 0, 0, 0, 0, 0]

  datatype SocketAddr =
    | V4(ip: Octets4, port: Port)
    | V6(ip6: Octets16, port: Port, flowinfo: u32, scope: u32)

  /** A path, or a name with a leading NUL, as well as Internet addresses. */
  datatype Addr = Inet(addr: SocketAddr) | Unix(path: bytes)

  predicate Platform(inet6: int) {
    inet6 == 10 || inet6 == 23
  }

  // ---- the machine's own byte order ----

  function Native(n: nat, width: nat, little: bool): (s: bytes)
    ensures |s| == width
  {
    if little then Reversed(ToBig(n, width)) else ToBig(n, width)
  }

  function FromNative(s: bytes, little: bool): nat {
    FromBig(if little then Reversed(s) else s)
  }

  lemma NativeRoundTrip(n: nat, width: nat, little: bool)
    requires n < Values(width)
    ensures FromNative(Native(n, width, little), little) == n
  {
    BigRoundTrip(n, width);
    assert Reversed(Reversed(ToBig(n, width))) == ToBig(n, width);
  }

  /** Which family a buffer names: its first two bytes. */
  function Family(buf: bytes, little: bool): nat
    requires |buf| >= 2
  {
    FromNative(buf[..2], little)
  }

  // ---- building ----

  function Length(addr: SocketAddr): nat {
    if addr.V4? then 16 else 28
  }

  function FamilyOf(addr: SocketAddr, inet6: int): int {
    if addr.V4? then AF_INET else inet6
  }

  /** Copy a part into the buffer in place, and touch nothing else. */
  method CopyInto(buf: array<byte>, at: nat, part: bytes)
    requires at + |part| <= buf.Length
    modifies buf
    ensures buf[at..at + |part|] == part
    ensures forall i :: 0 <= i < buf.Length && !(at <= i < at + |part|) ==> buf[i] == old(buf[i])
  {
    forall i | 0 <= i < |part| {
      buf[at + i] := part[i];
    }
  }

  /** Four bytes, most significant first. */
  function Wide(n: u32): bytes {
    [n / 0x100_0000, n / 0x1_0000 % 256, n / 256 % 256, n % 256]
  }

  /** A family number as the machine keeps it. */
  lemma NativeTwo(n: byte, little: bool)
    ensures Native(n, 2, little) == if little then [n, 0] else [0, n]
  {
    TwoBytes(n);
    var s := ToBig(n, 2);
    assert Reversed(s) == [n, 0];
  }

  /** What a buffer must hold to carry an address: every field in its place and order, and
      NULs to the end. */
  ghost predicate Carries(buf: bytes, addr: SocketAddr, inet6: int, little: bool)
    requires Platform(inet6)
  {
    && |buf| == SIZE
    && buf[..2] == Native(FamilyOf(addr, inet6), 2, little)
    && buf[2..4] == ToBig(addr.port, 2)
    && match addr
       case V4(ip, _) => buf[4..8] == ip && Zero(buf, 8)
       case V6(ip, _, flow, scope) =>
         buf[4..8] == ToBig(flow, 4) && buf[8..24] == ip && buf[24..28] == Native(scope, 4, little) && Zero(buf, 28)
  }

  ghost predicate Zero(buf: bytes, from: nat) {
    forall i :: from <= i < |buf| ==> buf[i] == 0
  }

  /** The same byte by byte. */
  lemma CarriedBytes(buf: bytes, addr: SocketAddr, inet6: int, little: bool)
    requires Platform(inet6) && Carries(buf, addr, inet6, little)
    ensures |buf| == 128
    ensures buf[if little then 0 else 1] == FamilyOf(addr, inet6) && buf[if little then 1 else 0] == 0
    ensures buf[2] == addr.port / 256 && buf[3] == addr.port % 256
    ensures addr.V6? ==>
      && buf[4..8] == Wide(addr.flowinfo)
      && buf[24..28] == if little then Reversed(Wide(addr.scope)) else Wide(addr.scope)
  {
    NativeTwo(FamilyOf(addr, inet6), little);
    TwoBytes(addr.port);
    if addr.V6? {
      FourBytes(addr.flowinfo);
      FourBytes(addr.scope);
    }
    assert buf[0] == buf[..2][0] && buf[1] == buf[..2][1];
    assert buf[2] == buf[2..4][0] && buf[3] == buf[2..4][1];
    hide ToBig;
  }

  /** Fill a zeroed buffer with an address. */
  method BuildSockaddr(addr: SocketAddr, inet6: int, little: bool) returns (buf: array<byte>, len: nat, family: int)
    requires Platform(inet6)
    ensures fresh(buf) && Carries(buf[..], addr, inet6, little)
    ensures len == (if addr.V4? then 16 else 28) && family == (if addr.V4? then 2 else inet6)
    ensures buf.Length == 128
    ensures buf[if little then 0 else 1] == family && buf[if little then 1 else 0] == 0
    ensures buf[2] == addr.port / 256 && buf[3] == addr.port % 256
    ensures addr.V4? ==> buf[4..8] == addr.ip && forall i :: 8 <= i < 128 ==> buf[i] == 0
    ensures addr.V6? ==>
      && buf[4..8] == Wide(addr.flowinfo) && buf[8..24] == addr.ip6
      && buf[24..28] == (if little then Reversed(Wide(addr.scope)) else Wide(addr.scope))
      && forall i :: 28 <= i < 128 ==> buf[i] == 0
  {
    hide ToBig, Native, Wide;
    buf := new byte[SIZE](_ => 0);
    match addr {
      case V4(ip, port) =>
        family := AF_INET;
        CopyInto(buf, 0, Native(AF_INET, 2, little));
        CopyInto(buf, 2, ToBig(port, 2));
        CopyInto(buf, 4, ip);
        len := 16;
      case V6(ip, port, flow, scope) =>
        family := inet6;
        CopyInto(buf, 0, Native(inet6, 2, little));
        CopyInto(buf, 2, ToBig(port, 2));
        CopyInto(buf, 4, ToBig(flow, 4));
        CopyInto(buf, 8, ip);
        CopyInto(buf, 24, Native(scope, 4, little));
        len := 28;
    }
    CarriedBytes(buf[..], addr, inet6, little);
  }

  // ---- parsing ----

  function ParseSockaddr(buf: bytes, inet6: int, little: bool): Option<SocketAddr> {
    if |buf| < 8 then None
    else
      Widths();
      var family := Family(buf, little);
      var port := FromBig(buf[2..4]);
      if family == AF_INET then Some(V4(buf[4..8], port))
      else if family == inet6 && |buf| >= 28 then
        Some(V6(buf[8..24], port, FromBig(buf[4..8]), FromNative(buf[24..28], little)))
      else None
  }

  /** The bytes before the first NUL. */
  function UpToNul(path: bytes): bytes {
    if path == [] || path[0] == 0 then [] else [path[0]] + UpToNul(path[1..])
  }

  /** The bytes without the NULs at the end. */
  function WithoutTrailingNuls(path: bytes): bytes {
    if path == [] then []
    else if path[|path| - 1] != 0 then path
    else WithoutTrailingNuls(path[..|path| - 1])
  }

  function ParseUnix(buf: bytes, little: bool): Option<bytes> {
    if |buf| < 2 || Family(buf, little) != AF_UNIX then None
    else
      var path := buf[2..];
      if path != [] && path[0] == 0 then Some(WithoutTrailingNuls(path)) else Some(UpToNul(path))
  }

  /** Internet families first, then AF_UNIX. */
  function ParseAny(buf: bytes, inet6: int, little: bool): Option<Addr> {
    var a := ParseSockaddr(buf, inet6, little);
    if a.Some? then Some(Inet(a.value))
    else
      var p := ParseUnix(buf, little);
      if p.Some? then Some(Unix(p.value)) else None
  }

  // ---- Internet addresses ----

  /** Every address comes back, whatever follows its own length in the buffer. */
  lemma InternetRoundTrip(addr: SocketAddr, buf: bytes, tail: bytes, inet6: int, little: bool)
    requires Platform(inet6) && Carries(buf, addr, inet6, little)
    ensures ParseAny(buf[..Length(addr)] + tail, inet6, little) == Some(Inet(addr))
  {
    var b := buf[..Length(addr)] + tail;
    Widths();
    NativeRoundTrip(FamilyOf(addr, inet6), 2, little);
    BigRoundTrip(addr.port, 2);
    assert b[..2] == buf[..2] && b[2..4] == buf[2..4] && b[4..8] == buf[4..8];
    if addr.V6? {
      BigRoundTrip(addr.flowinfo, 4);
      NativeRoundTrip(addr.scope, 4, little);
      assert b[8..24] == buf[8..24] && b[24..28] == buf[24..28];
    }
  }

  lemma NativeInverse(s: bytes, little: bool)
    ensures Native(FromNative(s, little), |s|, little) == s
  {
    ReadThenWrite(s);
    ReadThenWrite(Reversed(s));
    assert Reversed(Reversed(s)) == s;
  }

  /** Bytes of the buffer that an address accounts for; an IPv4 address leaves its padding. */
  function Meaningful(addr: SocketAddr): nat {
    if addr.V4? then 8 else 28
  }

  /** A prefix is settled by its fields. */
  lemma FieldsOf(b: bytes)
    ensures |b| >= 8 ==> b[..8] == b[..2] + b[2..4] + b[4..8]
    ensures |b| >= 28 ==> b[..28] == b[..8] + b[8..24] + b[24..28]
  {
  }

  /** The first eight bytes, but for what stands in the last four. */
  lemma ParsedPrefix(b: bytes, buf: bytes, inet6: int, little: bool)
    requires Platform(inet6)
    ensures var a := ParseSockaddr(b, inet6, little);
      a.Some? && Carries(buf, a.value, inet6, little) ==>
        |b| >= Meaningful(a.value) && b[..2] == buf[..2] && b[2..4] == buf[2..4]
  {
    if |b| >= 8 {
      NativeInverse(b[..2], little);
      ReadThenWrite(b[2..4]);
    }
    hide FromBig, FromNative, ToBig, Native;
  }

  lemma ParsedTail(b: bytes, buf: bytes, inet6: int, little: bool)
    requires Platform(inet6)
    ensures var a := ParseSockaddr(b, inet6, little);
      a.Some? && Carries(buf, a.value, inet6, little) ==>
        && |b| >= Meaningful(a.value) && b[4..8] == buf[4..8]
        && (a.value.V6? ==> b[8..24] == buf[8..24] && b[24..28] == buf[24..28])
  {
    if |b| >= 28 {
      ReadThenWrite(b[4..8]);
      NativeInverse(b[24..28], little);
    }
    hide FromBig, FromNative, Family, ToBig, Native;
  }

  /** What parses as an Internet address holds that address's bytes. */
  lemma ParsedWasBuilt(b: bytes, buf: bytes, inet6: int, little: bool)
    requires Platform(inet6)
    ensures var a := ParseSockaddr(b, inet6, little);
      a.Some? && Carries(buf, a.value, inet6, little) ==>
        |b| >= Meaningful(a.value) && b[..Meaningful(a.value)] == buf[..Meaningful(a.value)]
  {
    ParsedPrefix(b, buf, inet6, little);
    ParsedTail(b, buf, inet6, little);
    FieldsOf(b);
    FieldsOf(buf);
    hide ParseSockaddr, FromBig, FromNative, Family, ToBig, Native;
  }

  /** Just which buffers parse: by their length and the family in their first two bytes. */
  lemma ParsesIff(b: bytes, inet6: int, little: bool)
    requires Platform(inet6) && |b| >= 2
    ensures var family := if little then b[0] + 256 * (b[1] as int) else 256 * (b[0] as int) + b[1];
      var a := ParseSockaddr(b, inet6, little);
      && (a.Some? <==> (family == 2 && |b| >= 8) || (family == inet6 && |b| >= 28))
      && (a.Some? ==> (a.value.V4? <==> family == 2))
      && (ParseUnix(b, little).Some? <==> family == 1)
  {
    var two := b[..2];
    assert two == [b[0], b[1]] && Reversed(two) == [b[1], b[0]];
    assert forall x: byte, y: byte :: FromBig([x, y]) == 256 * (x as int) + y by {
      forall x: byte, y: byte ensures FromBig([x, y]) == 256 * (x as int) + y {
        assert [x, y][..1] == [x] && [x][..0] == [];
      }
    }
  }

  // ---- AF_UNIX addresses ----

  function Nuls(n: nat): (s: bytes)
    ensures |s| == n && forall i :: 0 <= i < n ==> s[i] == 0
  {
    seq(n, i => 0)
  }

  /** The kernel's form of a path, with any amount of padding. */
  function UnixBuffer(path: bytes, padding: nat, little: bool): bytes {
    Native(AF_UNIX, 2, little) + path + Nuls(padding)
  }

  /** Unnamed, a path without NULs, or an abstract name not ending in one. */
  predicate Plain(path: bytes) {
    || path == []
    || (path[0] != 0 && 0 !in path)
    || (path[0] == 0 && path[|path| - 1] != 0)
  }

  lemma {:induction false} NulEndsPath(path: bytes, padding: nat)
    ensures UpToNul(path + Nuls(padding)) == path <==> 0 !in path
    ensures 0 !in UpToNul(path) && UpToNul(path) <= path
    ensures |UpToNul(path)| < |path| ==> path[|UpToNul(path)|] == 0
  {
    var p := path + Nuls(padding);
    if path == [] {
      assert UpToNul(p) == [];
    } else {
      NulEndsPath(path[1..], padding);
      assert p[1..] == path[1..] + Nuls(padding);
      assert path == [path[0]] + path[1..];
      if path[0] != 0 {
        assert UpToNul(p)[1..] == UpToNul(p[1..]);
      }
    }
  }

  lemma {:induction false} PaddingIsTrimmed(path: bytes, padding: nat)
    ensures WithoutTrailingNuls(path + Nuls(padding)) == WithoutTrailingNuls(path)
  {
    if padding == 0 {
      assert path + Nuls(0) == path;
    } else {
      assert (path + Nuls(padding))[..|path| + padding - 1] == path + Nuls(padding - 1);
      PaddingIsTrimmed(path, padding - 1);
    }
  }

  lemma {:induction false} TrimmedEnds(path: bytes)
    ensures var t := WithoutTrailingNuls(path);
      && t <= path && (t == [] || t[|t| - 1] != 0)
      && (forall i :: |t| <= i < |path| ==> path[i] == 0)
      && (t == path <==> path == [] || path[|path| - 1] != 0)
  {
    if path != [] && path[|path| - 1] == 0 {
      TrimmedEnds(path[..|path| - 1]);
    }
  }

  /** A path comes back, with any padding, just when it is plain: a NUL inside a path ends
      it, and NULs at the end of an abstract name are lost. */
  lemma UnixRoundTrip(path: bytes, padding: nat, inet6: int, little: bool)
    requires Platform(inet6)
    ensures UnixBuffer(path, padding, little) == (if little then [1, 0] else [0, 1]) + path + Nuls(padding)
    ensures ParseAny(UnixBuffer(path, padding, little), inet6, little) == Some(Unix(path)) <==>
      path == [] || (path[0] != 0 && 0 !in path) || (path[0] == 0 && path[|path| - 1] != 0)
  {
    NativeTwo(1, little);
    var b := UnixBuffer(path, padding, little);
    UnixNeverInternet(b, inet6, little);
    Widths();
    NativeRoundTrip(AF_UNIX, 2, little);
    assert b[..2] == Native(AF_UNIX, 2, little);
    assert b[2..] == path + Nuls(padding);
    hide ParseSockaddr, ParseAny, Native, FromNative, UnixBuffer;
    NulEndsPath(path, padding);
    PaddingIsTrimmed(path, padding);
    TrimmedEnds(path);
  }

  /** No buffer is both: what AF_UNIX claims never parses as an Internet address. */
  lemma UnixNeverInternet(b: bytes, inet6: int, little: bool)
    requires Platform(inet6)
    ensures ParseUnix(b, little).Some? ==> ParseSockaddr(b, inet6, little) == None
    ensures ParseUnix(b, little).Some? ==> ParseAny(b, inet6, little) == Some(Unix(ParseUnix(b, little).value))
  {
  }

  /** Every parsed path is plain, and what the buffer holds behind it is a NUL first, or
      only NULs when the name is abstract. */
  lemma UnixParseIsPlain(b: bytes, little: bool)
    ensures var p := ParseUnix(b, little);
      p.Some? ==>
        && Plain(p.value) && p.value <= b[2..]
        && (|p.value| < |b| - 2 ==> b[2 + |p.value|] == 0)
        && (|b| > 2 && b[2] == 0 ==> forall i :: 2 + |p.value| <= i < |b| ==> b[i] == 0)
  {
    if |b| >= 2 {
      NulEndsPath(b[2..], 0);
      TrimmedEnds(b[2..]);
    }
  }
}
