/** Numbers as bytes, most significant first. */
module Binary {
  import opened Words

  /** How many values `width` bytes hold. */
  function Values(width: nat): (n: nat)
    ensures n > 0
  {
    if width == 0 then 1 else 256 * Values(width - 1)
  }

  /** The low `width` bytes of `n`, as `to_bytes(width, "big")` writes them. */
  function ToBig(n: nat, width: nat): (s: bytes)
    ensures |s| == width
  {
    if width == 0 then [] else ToBig(n / 256, width - 1) + [n % 256]
  }

  function FromBig(s: bytes): (n: nat)
    ensures n < Values(|s|)
  {
    if s == [] then 0 else 256 * FromBig(s[..|s| - 1]) + s[|s| - 1]
  }

  /** Writing then reading truncates to the width, and no more. */
  lemma {:induction false} BigRoundTrip(n: nat, width: nat)
    ensures n < Values(width) <==> FromBig(ToBig(n, width)) == n
  {
    if width > 0 {
      BigRoundTrip(n / 256, width - 1);
      assert ToBig(n, width)[..width - 1] == ToBig(n / 256, width - 1);
    }
  }

  /** Every byte string is the writing of the number it reads as. */
  lemma {:induction false} ReadThenWrite(s: bytes)
    ensures ToBig(FromBig(s), |s|) == s
  {
    if s != [] {
      ReadThenWrite(s[..|s| - 1]);
      assert s == s[..|s| - 1] + [s[|s| - 1]];
    }
  }

  lemma {:induction false} Shifted(n: nat, width: nat)
    ensures n / 256 / Values(width) == n / Values(width + 1)
  {
    var d := Values(width);
    assert Values(width + 1) == 256 * d;
    var q := n / 256 / d;
    var r := n / 256 % d * 256 + n % 256;
    assert n / 256 == q * d + n / 256 % d && n == n / 256 * 256 + n % 256;
    assert n == q * (256 * d) + r by {
      assert (q * d) * 256 == q * (256 * d);
    }
    Divides(n, 256 * d, q, r);
  }

  lemma Divides(n: nat, d: nat, q: nat, r: nat)
    requires d > 0 && r < d && n == q * d + r
    ensures n / d == q && n % d == r
  {
    var p := n / d;
    assert n == p * d + n % d;
    MulMono(p + 1, q, d);
    MulMono(q + 1, p, d);
    MulNext(p, d);
    MulNext(q, d);
  }

  /** The most significant byte comes first: byte i stands for that many further ones. */
  lemma {:induction false} ToBigAt(n: nat, width: nat, i: nat)
    requires i < width
    ensures ToBig(n, width)[i] == n / Values(width - 1 - i) % 256
  {
    if i < width - 1 {
      ToBigAt(n / 256, width - 1, i);
      Shifted(n, width - 2 - i);
    }
  }

  lemma FromBigAt(s: bytes, i: nat)
    requires i < |s|
    ensures FromBig(s) / Values(|s| - 1 - i) % 256 == s[i]
  {
    ReadThenWrite(s);
    ToBigAt(FromBig(s), |s|, i);
  }

  /** Two and four bytes, spelled out. */
  lemma TwoBytes(n: nat)
    requires n < 0x1_0000
    ensures ToBig(n, 2) == [n / 256, n % 256]
  {
    assert Values(0) == 1 && Values(1) == 256;
    ToBigAt(n, 2, 0);
    ToBigAt(n, 2, 1);
  }

  lemma FourBytes(n: nat)
    requires n < 0x1_0000_0000
    ensures ToBig(n, 4) == [n / 0x100_0000, n / 0x1_0000 % 256, n / 256 % 256, n % 256]
  {
    assert Values(0) == 1 && Values(1) == 256 && Values(2) == 0x1_0000 && Values(3) == 0x100_0000 by {
      Widths();
    }
    ToBigAt(n, 4, 0);
    ToBigAt(n, 4, 1);
    ToBigAt(n, 4, 2);
    ToBigAt(n, 4, 3);
  }

  /** The widths in use. */
  lemma Widths()
    ensures Values(2) == 0x1_0000 && Values(4) == 0x1_0000_0000 && Values(8) == 0x1_0000_0000_0000_0000
  {
    assert Values(3) == 256 * Values(2);
    assert Values(5) == 256 * Values(4);
    assert Values(6) == 256 * Values(5);
    assert Values(7) == 256 * Values(6);
  }

  function Reversed(s: bytes): (r: bytes)
    ensures |r| == |s| && forall i :: 0 <= i < |s| ==> r[i] == s[|s| - 1 - i]
  {
    seq(|s|, i requires 0 <= i < |s| => s[|s| - 1 - i])
  }
}
