/** Machine integers, bytes and the two result shapes the modules share. */
module Words {
  /** 2^32: the modulus of the source's `u32` arithmetic. */
  const TWO32 := 0x1_0000_0000

  type u32 = x: int | 0 <= x < 0x1_0000_0000
  type byte = x: int | 0 <= x < 256
  type bytes = seq<byte>

  datatype Option<+T> = None | Some(value: T)

  /** The bytes of an ASCII string. */
  function Ascii(s: string): bytes
    requires forall i :: 0 <= i < |s| ==> s[i] < 128 as char
  {
    seq(|s|, i requires 0 <= i < |s| => s[i] as int)
  }

  /** An integer truncated to 32 bits. */
  function Wrap32(x: int): u32 {
    x % TWO32
  }

  /** `u32::wrapping_add(1)`. */
  function Next32(x: u32): u32 {
    if x == TWO32 - 1 then 0 else x + 1
  }

  /** Wrapping at every increment is wrapping once. */
  lemma WrapStep(x: nat)
    ensures Next32(Wrap32(x)) == Wrap32(x + 1)
  {
  }

  /** A wrapped counter is back where it was after whole rounds. */
  lemma WrapsBack(x: u32, n: nat)
    ensures Wrap32(x) == x
    ensures Wrap32(x + n) == x <==> n % TWO32 == 0
    ensures n < TWO32 ==> (n % TWO32 == 0 <==> n == 0)
  {
  }

  lemma Regrouped<T>(a: seq<T>, b: seq<T>, c: seq<T>)
    ensures (a + b) + c == a + (b + c)
  {
  }

  lemma MulMono(a: int, b: int, d: nat)
    ensures a <= b ==> a * d <= b * d
  {
  }

  lemma MulNext(a: int, d: nat)
    ensures (a + 1) * d == a * d + d
  {
  }

  /** Slots come in blocks of `n`, and whole blocks fill 2^32. */
  predicate Blocks(len: nat, n: nat) {
    n > 0 && len % n == 0 && TWO32 % n == 0
  }

  /** A multiple below another ends at or before it. */
  lemma NextMultiple(k: int, b: int, n: nat)
    requires k * n < b * n
    ensures k * n + n <= b * n
  {
    if k >= b {
      MulMono(b, k, n);
    }
    MulMono(k + 1, b, n);
    MulNext(k, n);
  }

  lemma Distribute(a: int, q: int, b: int, n: int)
    ensures a * n - q * (b * n) == (a - q * b) * n
  {
  }

  /** The last block below 2^32 ends there, so `len as u32 + i` never overflows. */
  lemma BlockFits(len: nat, n: nat)
    requires Blocks(len, n)
    ensures Wrap32(len) + n <= TWO32
  {
    var a, b, q := len / n, TWO32 / n, len / TWO32;
    Distribute(a, q, b, n);
    assert len == a * n && TWO32 == b * n && Wrap32(len) == len - q * TWO32;
    NextMultiple(a - q * b, b, n);
  }

  /** Slot `i` of a new block, as `len as u32 + i` numbers it when `len` slots exist. */
  function FreshIndex(len: nat, n: nat, i: nat): u32
    requires Blocks(len, n) && i < n
  {
    BlockFits(len, n);
    Wrap32(len) + i
  }

  /** A new block's numbers name its own slots just while fewer than 2^32 slots exist;
      the next block is numbered from zero again. */
  lemma FreshIndicesExact(len: nat, n: nat)
    requires Blocks(len, n)
    ensures (forall i :: 0 <= i < n ==> FreshIndex(len, n, i) == len + i) <==> len < TWO32
    ensures len == TWO32 ==> forall i :: 0 <= i < n ==> FreshIndex(len, n, i) == i
  {
    if len >= TWO32 {
      assert FreshIndex(len, n, 0) != len + 0;
    }
  }

  function Last<T>(s: seq<T>): T
    requires s != []
  {
    s[|s| - 1]
  }

  function ButLast<T>(s: seq<T>): seq<T>
    requires s != []
  {
    s[..|s| - 1]
  }

  function Pow2(e: nat): (p: nat)
    ensures p > 0
  {
    if e == 0 then 1 else 2 * Pow2(e - 1)
  }

  /** The numbers from a up to b. */
  ghost function Range(a: nat, b: nat): (s: set<nat>)
    ensures forall i :: i in s <==> a <= i < b
    ensures |s| == if a < b then b - a else 0
  {
    if a < b then Range(a, b - 1) + {b - 1} else {}
  }
}
