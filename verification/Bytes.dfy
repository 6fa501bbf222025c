// Bytes and little-endian integers, as the trace writers and readers lay them out.
module Bytes {

  type Byte = b: int | 0 <= b < 256

  const U32_MAX := 0xFFFF_FFFF
  const U64_MAX := 0xFFFF_FFFF_FFFF_FFFF

  type U32 = n: nat | n <= U32_MAX
  type U64 = n: nat | n <= U64_MAX
  type I32 = n: int | -0x8000_0000 <= n <= 0x7FFF_FFFF

  /** One more than the largest value that fits in `width` bytes. */
  function Bound(width: nat): (b: nat)
    ensures b > 0
  {
    if width == 0 then 1 else 256 * Bound(width - 1)
  }

  /** The `width` low bytes of `n`, least significant first. */
  function ToLE(n: nat, width: nat): (s: seq<Byte>)
    ensures |s| == width
  {
    if width == 0 then [] else [n % 256] + ToLE(n / 256, width - 1)
  }

  function FromLE(s: seq<Byte>): nat {
    if s == [] then 0 else s[0] + 256 * FromLE(s[1..])
  }

  lemma {:induction false} LERoundTrip(n: nat, width: nat)
    requires n < Bound(width)
    ensures FromLE(ToLE(n, width)) == n
  {
    if width > 0 {
      LERoundTrip(n / 256, width - 1);
      assert ToLE(n, width)[1..] == ToLE(n / 256, width - 1);
    }
  }

  /** The first byte is the least significant one. */
  lemma LayoutOfU32(n: U32)
    ensures ToLE(n, 4) == [n % 0x100, n / 0x100 % 0x100, n / 0x1_0000 % 0x100, n / 0x100_0000]
  {
    assert n / 0x100 / 0x100 == n / 0x1_0000 && n / 0x1_0000 / 0x100 == n / 0x100_0000;
    assert ToLE(n, 4) == [n % 0x100] + ToLE(n / 0x100, 3);
    assert ToLE(n / 0x100, 3) == [n / 0x100 % 0x100] + ToLE(n / 0x1_0000, 2);
    assert ToLE(n / 0x1_0000, 2) == [n / 0x1_0000 % 0x100] + ToLE(n / 0x100_0000, 1);
    assert ToLE(n / 0x100_0000, 1) == [n / 0x100_0000];
  }

  lemma LayoutOfU64(n: U64)
    ensures ToLE(n, 8) == ToLE(n % 0x1_0000_0000, 4) + ToLE(n / 0x1_0000_0000, 4)
  {
    hide Bound, ToLE;
    Bounds();
    SplitLE(n % 0x1_0000_0000, n / 0x1_0000_0000, 4, 4);
  }

  /** A number of two parts is laid out part by part, the low one first. */
  lemma {:induction false} SplitLE(low: nat, high: nat, width: nat, rest: nat)
    requires low < Bound(width)
    ensures ToLE(low + Bound(width) * high, width + rest) == ToLE(low, width) + ToLE(high, rest)
  {
    var n := low + Bound(width) * high;
    if width == 0 {
      assert n == high;
    } else {
      var b := Bound(width - 1);
      assert Bound(width) == 256 * b;
      NextByte(low, b, high);
      SplitLE(low / 256, high, width - 1, rest);
      hide Bound;
      FirstByte(n, width + rest);
      FirstByte(low, width);
    }
  }

  lemma FirstByte(n: nat, width: nat)
    requires width > 0
    ensures ToLE(n, width) == [n % 256] + ToLE(n / 256, width - 1)
  {
  }

  lemma NextByte(low: nat, b: nat, high: nat)
    requires low < 256 * b
    ensures (low + 256 * b * high) % 256 == low % 256
    ensures (low + 256 * b * high) / 256 == low / 256 + b * high
    ensures low / 256 < b
  {
    var k := b * high;
    assert 256 * b * high == 256 * k;
    ByteAbove(low, k);
  }

  lemma ByteAbove(low: nat, k: nat)
    ensures (low + 256 * k) % 256 == low % 256 && (low + 256 * k) / 256 == low / 256 + k
  {
  }

  lemma Bounds()
    ensures Bound(4) == U32_MAX + 1
    ensures Bound(8) == U64_MAX + 1
  {
    assert Bound(2) == 0x1_0000;
    assert Bound(4) == 0x1_0000_0000;
    assert Bound(6) == 0x1_0000_0000_0000;
  }

  /** A field written with `sizeof(uint32_t)` bytes reads back as itself. */
  lemma U32RoundTrip(n: U32)
    ensures FromLE(ToLE(n, 4)) == n
  {
    Bounds();
    LERoundTrip(n, 4);
  }

  lemma U64RoundTrip(n: U64)
    ensures FromLE(ToLE(n, 8)) == n
  {
    Bounds();
    LERoundTrip(n, 8);
  }

  /** Both sequences agree wherever the shorter one reaches. */
  lemma SliceOfPrefix<T>(a: seq<T>, b: seq<T>, i: nat, j: nat)
    requires a <= b && i <= j <= |a|
    ensures a[i..j] == b[i..j]
  {
  }

  lemma SliceOfConcat<T>(a: seq<T>, b: seq<T>, c: seq<T>)
    ensures (a + b + c)[|a|..|a| + |b|] == b
    ensures (a + b + c)[|a| + |b|..] == c
  {
  }

  /** static_cast of a signed 32-bit value to unsigned, and back. */
  function ToU32(n: I32): U32 {
    if n >= 0 then n else n + 0x1_0000_0000
  }

  /** Two's complement: both have the same 32 bits. */
  lemma SameBits(n: I32)
    ensures ToU32(n) == n % 0x1_0000_0000
    ensures forall u: U32 :: ToI32(u) % 0x1_0000_0000 == u
  {
  }

  function ToI32(n: U32): I32 {
    if n <= 0x7FFF_FFFF then n else n - 0x1_0000_0000
  }
}
