// The text codecs of the GDB remote protocol server: hex, integers, escaping, packets.
// Text is modelled as bytes, as it goes over the wire.
module GdbCodec {
  import opened Bytes

  type Text = seq<Byte>

  const HASH: Byte := 0x23
  const DOLLAR: Byte := 0x24
  const STAR: Byte := 0x2a
  const PLUS: Byte := 0x2b
  const MINUS: Byte := 0x2d
  const SEMICOLON: Byte := 0x3b
  const LETTER_L: Byte := 0x6c
  const LETTER_M: Byte := 0x6d
  const BRACE: Byte := 0x7d
  const ZERO: Byte := 0x30

  predicate IsLowerHex(c: Byte) { 0x30 <= c <= 0x39 || 0x61 <= c <= 0x66 }
  predicate IsUpperHex(c: Byte) { 0x41 <= c <= 0x46 }
  predicate IsHex(c: Byte) { IsLowerHex(c) || IsUpperHex(c) }

  predicate AllLowerHex(s: Text) { forall i :: 0 <= i < |s| ==> IsLowerHex(s[i]) }
  predicate AllHex(s: Text) { forall i :: 0 <= i < |s| ==> IsHex(s[i]) }

  function HexDigit(n: nat): (c: Byte)
    requires n < 16
    ensures IsLowerHex(c)
  {
    if n < 10 then 0x30 + n else 0x61 + n - 10
  }

  /** What a hex digit stands for, in either case. */
  function DigitValue(c: Byte): (n: nat)
    requires IsHex(c)
    ensures n < 16
  {
    if c <= 0x39 then c - 0x30 else if c <= 0x46 then c - 0x41 + 10 else c - 0x61 + 10
  }

  /** hexDigitToInt: upper-case digits are offset from the wrong letter and come out negative. */
  function HexDigitToInt(c: Byte): int {
    if 0x61 <= c <= 0x66 then 10 + c - 0x61
    else if 0x41 <= c <= 0x46 then 10 + c - 0x61
    else if 0x30 <= c <= 0x39 then c - 0x30
    else -1
  }

  /** The sixteen digits, written in lower case and read in either. */
  lemma DigitTable(n: nat)
    requires n < 16
    ensures HexDigit(n) == "0123456789abcdef"[n] as int
    ensures DigitValue("0123456789abcdef"[n] as int) == DigitValue("0123456789ABCDEF"[n] as int) == n
  {
  }

  /** Those texts are the hex digits. */
  lemma HexDigitsAre(c: Byte)
    ensures IsLowerHex(c) <==> c as char in "0123456789abcdef"
    ensures IsUpperHex(c) <==> c as char in "ABCDEF"
  {
    if IsLowerHex(c) { assert "0123456789abcdef"[DigitValue(c)] == c as char; }
    if IsUpperHex(c) { assert "ABCDEF"[DigitValue(c) - 10] == c as char; }
  }

  // ---- Bytes as hex ----

  function HexOf(d: seq<Byte>): (s: Text)
    ensures |s| == 2 * |d| && AllLowerHex(s)
  {
    if d == [] then [] else [HexDigit(d[0] / 16), HexDigit(d[0] % 16)] + HexOf(d[1..])
  }

  lemma {:induction false} HexOfAppend(d: seq<Byte>, b: Byte)
    ensures HexOf(d + [b]) == HexOf(d) + [HexDigit(b / 16), HexDigit(b % 16)]
  {
    if d == [] {
      assert [b][1..] == [];
    } else {
      HexOfAppend(d[1..], b);
      assert (d + [b])[1..] == d[1..] + [b];
    }
  }

  /** Each byte in its place, high digit first. */
  lemma {:induction false} HexOfAt(d: seq<Byte>, k: nat)
    requires k < |d|
    ensures HexOf(d)[2 * k] == HexDigit(d[k] / 16) && HexOf(d)[2 * k + 1] == HexDigit(d[k] % 16)
  {
    if k > 0 {
      HexOfAt(d[1..], k - 1);
      assert HexOf(d)[2..] == HexOf(d[1..]);
    }
  }

  method Encode(d: seq<Byte>) returns (response: Text)
    ensures response == HexOf(d)
  {
    response := [];
    for i := 0 to |d|
      invariant response == HexOf(d[..i])
    {
      hide HexOf, HexDigit;
      var v := d[i];
      HexOfAppend(d[..i], v);
      assert d[..i + 1] == d[..i] + [v];
      response := response + [HexDigit(v / 16 % 16)];
      response := response + [HexDigit(v % 16)];
    }
    assert d[..|d|] == d;
  }

  /** One pair of digits in the server's 8-bit arithmetic. */
  function PairValue(hi: Byte, lo: Byte): Byte {
    (HexDigitToInt(hi) * 16 + HexDigitToInt(lo)) % 256
  }

  function BytesOf(s: Text): (d: seq<Byte>)
    requires |s| % 2 == 0
    ensures |d| == |s| / 2
  {
    if s == [] then [] else [PairValue(s[0], s[1])] + BytesOf(s[2..])
  }

  /** Each pair of digits in its place. */
  lemma {:induction false} BytesOfAt(s: Text, k: nat)
    requires |s| % 2 == 0 && 2 * k < |s|
    ensures BytesOf(s)[k] == PairValue(s[2 * k], s[2 * k + 1])
  {
    if k > 0 { BytesOfAt(s[2..], k - 1); }
  }

  lemma {:induction false} BytesOfPair(s: Text, hi: Byte, lo: Byte)
    requires |s| % 2 == 0
    ensures BytesOf(s + [hi, lo]) == BytesOf(s) + [PairValue(hi, lo)]
  {
    if s == [] {
      assert [hi, lo][2..] == [];
    } else {
      BytesOfPair(s[2..], hi, lo);
      assert (s + [hi, lo])[2..] == s[2..] + [hi, lo];
    }
  }

  /** Adding the digits in 8-bit arithmetic, the first one shifted. */
  lemma PairInSteps(hi: Byte, lo: Byte)
    ensures (HexDigitToInt(hi) * 16 % 256 + HexDigitToInt(lo)) % 256 == PairValue(hi, lo)
    ensures HexDigitToInt(hi) % 256 * 16 % 256 == HexDigitToInt(hi) * 16 % 256
  {
    hide HexDigitToInt;
    var a, b := HexDigitToInt(hi), HexDigitToInt(lo);
    ModAdd(a * 16, b);
    ModShift(a);
  }

  lemma ModShift(a: int)
    ensures a % 256 * 16 % 256 == a * 16 % 256
  {
    var q, r := a / 256, a % 256;
    var u, v := r / 16, r % 16;
    Mod256(r * 16, u, 16 * v);
    Mod256(a * 16, 16 * q + u, 16 * v);
  }

  lemma Mod256(x: int, q: int, r: int)
    requires x == 256 * q + r && 0 <= r < 256
    ensures x % 256 == r
  {
  }

  lemma ModAdd(x: int, y: int)
    ensures (x % 256 + y) % 256 == (x + y) % 256
  {
    var z := x % 256 + y;
    Mod256(z, z / 256, z % 256);
    Mod256(x + y, x / 256 + z / 256, z % 256);
  }

  lemma EmptyBytes(s: Text)
    requires s == []
    ensures BytesOf(s) == []
  {
  }

  method Decode(s: Text) returns (buffer: seq<Byte>)
    requires |s| % 2 == 0
    ensures buffer == BytesOf(s)
  {
    hide HexDigitToInt, PairValue;
    buffer := [];
    var idx := 0;
    while idx < |s|
      invariant 0 <= idx <= |s| && idx % 2 == 0
      invariant buffer == BytesOf(s[..idx])
    {
      var num: Byte := HexDigitToInt(s[idx]) * 16 % 256;
      num := (num + HexDigitToInt(s[idx + 1])) % 256;
      PairInSteps(s[idx], s[idx + 1]);
      BytesOfPair(s[..idx], s[idx], s[idx + 1]);
      assert s[..idx + 2] == s[..idx] + [s[idx], s[idx + 1]];
      buffer := buffer + [num];
      idx := idx + 2;
    }
    assert s[..idx] == s;
  }

  /** decodeString: the same digits through a signed char and a flip-flop; an odd last digit is dropped. */
  method DecodeString(s: Text) returns (ret: seq<Byte>)
    ensures ret == BytesOf(s[..|s| / 2 * 2])
  {
    hide HexDigitToInt, PairValue, BytesOf;
    ret := [];
    assert BytesOf(s[..0]) == [] by { EmptyBytes(s[..0]); }
    var flip, realChar: Byte := false, 0;
    for i := 0 to |s|
      invariant flip == (i % 2 == 1)
      invariant ret == BytesOf(s[..i / 2 * 2])
      invariant flip ==> realChar == HexDigitToInt(s[i - 1]) * 16 % 256
    {
      if flip {
        realChar := (realChar + HexDigitToInt(s[i])) % 256;
        PairInSteps(s[i - 1], s[i]);
        BytesOfPair(s[..i - 1], s[i - 1], s[i]);
        assert s[..i + 1] == s[..i - 1] + [s[i - 1], s[i]];
        ret := ret + [realChar];
        flip := false;
      } else {
        PairInSteps(s[i], s[i]);
        realChar := HexDigitToInt(s[i]) % 256;
        realChar := realChar * 16 % 256;
        flip := true;
      }
    }
  }

  /** Decoding what was encoded gives the bytes back. */
  lemma {:induction false} HexRoundTrip(d: seq<Byte>)
    ensures BytesOf(HexOf(d)) == d
  {
    if d != [] {
      HexRoundTrip(d[1..]);
      assert HexOf(d)[2..] == HexOf(d[1..]);
      assert PairValue(HexDigit(d[0] / 16), HexDigit(d[0] % 16)) == d[0];
    }
  }

  /** A pair of hex digits decodes to its value exactly when its second digit is not upper-case. */
  lemma PairExact(hi: Byte, lo: Byte)
    requires IsHex(hi) && IsHex(lo)
    ensures PairValue(hi, lo) == DigitValue(hi) * 16 + DigitValue(lo) <==> !IsUpperHex(lo)
  {
    var wrong := if IsUpperHex(lo) then 32 else 0;
    var lost := if IsUpperHex(hi) then 32 else 0;
    assert HexDigitToInt(hi) == DigitValue(hi) - lost && HexDigitToInt(lo) == DigitValue(lo) - wrong;
    assert (HexDigitToInt(hi) * 16 + HexDigitToInt(lo)) == DigitValue(hi) * 16 + DigitValue(lo) - wrong - 256 * (lost / 16);
  }

  // ---- Integers as hex ----

  /** The number a hex text denotes. */
  function HexValue(s: Text): nat
    requires AllHex(s)
  {
    if s == [] then 0 else 16 * HexValue(s[..|s| - 1]) + DigitValue(s[|s| - 1])
  }

  function Pow16(k: nat): (p: nat)
    ensures p > 0
  {
    if k == 0 then 1 else 16 * Pow16(k - 1)
  }

  /** A digit counts for itself, and a digit in front of a text for sixteen to the length of the text as much. */
  lemma {:induction false} HexValueOfParts(c: Byte, s: Text)
    requires IsHex(c) && AllHex(s)
    ensures AllHex([c] + s) && HexValue([c]) == DigitValue(c)
    ensures HexValue([c] + s) == DigitValue(c) * Pow16(|s|) + HexValue(s)
  {
    hide DigitValue;
    assert [c][..0] == [];
    if s == [] {
      assert [c] + s == [c];
    } else {
      var n := |s| - 1;
      HexValueOfParts(c, s[..n]);
      assert ([c] + s)[..|s|] == [c] + s[..n];
      assert DigitValue(c) * Pow16(|s|) == 16 * (DigitValue(c) * Pow16(n));
    }
  }

  /** Big-endian bytes. */
  function ToBE(n: nat, width: nat): (d: seq<Byte>)
    ensures |d| == width
  {
    if width == 0 then [] else ToBE(n / 256, width - 1) + [n % 256]
  }

  function Reverse(d: seq<Byte>): (r: seq<Byte>)
    ensures |r| == |d|
  {
    if d == [] then [] else Reverse(d[1..]) + [d[0]]
  }

  lemma {:induction false} ReversedLE(n: nat, width: nat)
    ensures Reverse(ToLE(n, width)) == ToBE(n, width)
  {
    if width > 0 {
      ReversedLE(n / 256, width - 1);
      assert ToLE(n, width)[1..] == ToLE(n / 256, width - 1);
    }
  }

  /** Drops leading zeros, but not the last one. */
  function Trim(s: Text): Text {
    if s == [] then [ZERO] else if s[0] != ZERO then s else Trim(s[1..])
  }

  /** What is left begins with another digit, unless it is the single zero, and only zeros are gone. */
  lemma {:induction false} TrimStripsZeros(s: Text)
    ensures Trim(s) != [] && (Trim(s)[0] == 0x30 ==> Trim(s) == [0x30])
    ensures Trim(s) == [0x30] || (|Trim(s)| <= |s| && Trim(s) == s[|s| - |Trim(s)|..])
    ensures forall k :: 0 <= k < |s| - |Trim(s)| ==> s[k] == 0x30
  {
    if s != [] && s[0] == ZERO { TrimStripsZeros(s[1..]); }
  }

  /** encode for an integer of `width` bytes: its memory reversed, in hex, trimmed. */
  function EncodeInt(n: nat, width: nat): Text {
    Trim(HexOf(Reverse(ToLE(n, width))))
  }

  /** x | (hi << 4) on the low nibble of x, for the high nibbles hexDigitToInt can produce: 0, 14 or 15. */
  function OrNibble(x: nat, hi: nat): (r: nat)
    ensures r >= x / 16 * 16
  {
    if hi == 0 then x else if hi == 14 then x - x % 16 + 14 + x % 2 else x - x % 16 + 15
  }

  const TOP_NIBBLE := 0x1000_0000_0000_0000

  /** One turn of parseInt's loop: the shift drops the top nibble, then the 8-bit digit is or-ed in. */
  function ParseStep(x: U64, c: Byte): U64 {
    var nibble := HexDigitToInt(c) % 256;
    OrNibble(x % TOP_NIBBLE, nibble / 16) * 16 + nibble % 16
  }

  function ParseDigits(s: Text): U64 {
    if s == [] then 0 else ParseStep(ParseDigits(s[..|s| - 1]), s[|s| - 1])
  }

  /** parseInt<uint64_t>: too many digits give the largest value. */
  function ParseU64(s: Text): U64 {
    if |s| > 16 then U64_MAX else ParseDigits(s)
  }

  /** More than sixteen digits give the largest number; no digits give zero. */
  lemma ParseLimits(s: Text)
    ensures |s| > 16 ==> ParseU64(s) == 0xffff_ffff_ffff_ffff
    ensures s == [] ==> ParseU64(s) == 0
  {
  }

  method ParseInt(num: Text) returns (result: U64)
    ensures result == ParseU64(num)
  {
    if |num| > 16 {
      return U64_MAX;
    }
    result := 0;
    for i := 0 to |num|
      invariant result == ParseDigits(num[..i])
    {
      assert num[..i + 1][..i] == num[..i];
      result := ParseStep(result, num[i]);
    }
    assert num[..|num|] == num;
  }

  /** The digits with the spill of the wrong upper-case digits into the digit before them. */
  function Spilled(s: Text): nat
    requires AllHex(s)
  {
    if s == [] then 0
    else
      var n := |s| - 1;
      var before := Spilled(s[..n]);
      16 * (if n > 0 && IsUpperHex(s[n]) then OrNibble(before, 14) else before) + DigitValue(s[n])
  }

  /** No upper-case digit spills: the digit before it has the three high bits set already, or its spill is shifted out. */
  predicate NoSpill(s: Text)
    requires AllHex(s)
  {
    && (forall i :: 0 < i < |s| && IsUpperHex(s[i]) ==> DigitValue(s[i - 1]) >= 14)
    && (s != [] && IsUpperHex(s[0]) ==> |s| == 16)
  }

  predicate NoInnerSpill(s: Text)
    requires AllHex(s)
  {
    forall i :: 0 < i < |s| && IsUpperHex(s[i]) ==> DigitValue(s[i - 1]) >= 14
  }

  lemma InnerSpillStep(s: Text)
    requires AllHex(s) && s != []
    ensures var n := |s| - 1;
            NoInnerSpill(s) <==> NoInnerSpill(s[..n]) && (n > 0 && IsUpperHex(s[n]) ==> DigitValue(s[n - 1]) >= 14)
  {
    hide DigitValue;
    var init := s[..|s| - 1];
    assert forall i :: 0 <= i < |init| ==> init[i] == s[i];
    if !NoInnerSpill(init) {
      var i :| 0 < i < |init| && IsUpperHex(init[i]) && DigitValue(init[i - 1]) < 14;
      assert IsUpperHex(s[i]) && DigitValue(s[i - 1]) < 14;
    }
  }

  /** Appending a digit to a value h that grew to b and then, by the spill, to b2. */
  lemma AppendExact(h: nat, b: nat, b2: nat, d: nat, p: nat)
    requires h <= b <= b2 < p && d < 16
    ensures 16 * h + d <= 16 * b2 + d < 16 * p
    ensures (16 * b2 + d) % 16 == d
    ensures 16 * b2 + d == 16 * h + d <==> b == h && b2 == b
  {
  }

  lemma {:induction false} SpillExact(s: Text)
    requires AllHex(s)
    ensures HexValue(s) <= Spilled(s) < Pow16(|s|)
    ensures s != [] ==> Spilled(s) % 16 == DigitValue(s[|s| - 1])
    ensures Spilled(s) == HexValue(s) <==> NoInnerSpill(s)
  {
    hide OrNibble, DigitValue;
    if s != [] {
      var n := |s| - 1;
      var before := Spilled(s[..n]);
      SpillExact(s[..n]);
      InnerSpillStep(s);
      var after := if n > 0 && IsUpperHex(s[n]) then OrNibble(before, 14) else before;
      if n > 0 { OrStaysBelow(before, Pow16(n - 1)); }
      AppendExact(HexValue(s[..n]), before, after, DigitValue(s[n]), Pow16(n));
    }
  }

  lemma OrStaysBelow(x: nat, p: nat)
    requires x < 16 * p
    ensures x <= OrNibble(x, 14) < 16 * p
    ensures OrNibble(x, 14) == x <==> x % 16 >= 14
  {
    var q, r := x / 16, x % 16;
    LowBits(x, q, r);
    assert OrNibble(x, 14) == 16 * q + 14 + r % 2;
    assert q <= p - 1;
  }

  lemma Pow16Values()
    ensures Pow16(15) == TOP_NIBBLE && Pow16(16) == U64_MAX + 1
  {
    assert Pow16(4) == 0x1_0000;
    assert Pow16(8) == 0x1_0000_0000;
    assert Pow16(12) == 0x1_0000_0000_0000;
  }

  lemma {:induction false} Pow16Monotone(j: nat, k: nat)
    requires j <= k
    ensures Pow16(j) <= Pow16(k)
  {
    if j < k { Pow16Monotone(j, k - 1); }
  }

  /** The digit in 8-bit arithmetic: its value, with high nibble 14 if it is upper-case. */
  lemma DigitNibbles(c: Byte)
    requires IsHex(c)
    ensures HexDigitToInt(c) % 256 / 16 == (if IsUpperHex(c) then 14 else 0)
    ensures HexDigitToInt(c) % 256 % 16 == DigitValue(c)
  {
  }

  lemma OrIgnoresHighDigits(x: nat, y: nat)
    ensures OrNibble(x + 16 * y, 14) == OrNibble(x, 14) + 16 * y
  {
    LowBits(x + 16 * y, x / 16 + y, x % 16);
    LowBits(x, x / 16, x % 16);
  }

  lemma LowBits(x: nat, q: nat, r: nat)
    requires x == 16 * q + r && r < 16
    ensures x % 16 == r && x % 2 == r % 2
  {
    var h := r / 2;
    Even(x, 8 * q + h, r - 2 * h);
  }

  lemma Even(x: nat, h: nat, bit: nat)
    requires x == 2 * h + bit && bit < 2
    ensures x % 2 == bit
  {
  }

  /** What the first digit spills on top of a text of this length. */
  function TopSpill(s: Text): nat {
    if s != [] && IsUpperHex(s[0]) then 14 else 0
  }

  /** One more digit below 15: the top spill moves up with the rest. */
  lemma StepSpills(x: nat, spill: nat, p: nat, c: Byte)
    requires IsHex(c) && x < 16 * p && spill <= 14 * p && 256 * p <= TOP_NIBBLE
    ensures x + 16 * spill <= U64_MAX
    ensures ParseStep(x + 16 * spill, c) ==
            16 * (if IsUpperHex(c) then OrNibble(x, 14) else x) + DigitValue(c) + 256 * spill
  {
    hide HexDigitToInt, DigitValue, OrNibble;
    DigitNibbles(c);
    assert (x + 16 * spill) % TOP_NIBBLE == x + 16 * spill;
    OrIgnoresHighDigits(x, spill);
    assert OrNibble(x + 16 * spill, 0) == x + 16 * spill && OrNibble(x, 0) == x by { NoOr(x); NoOr(x + 16 * spill); }
  }

  lemma NoOr(x: nat)
    ensures OrNibble(x, 0) == x
  {
  }

  lemma Pow16Steps(n: nat)
    requires 1 <= n <= 14
    ensures Pow16(n) == 16 * Pow16(n - 1) && Pow16(n + 1) == 256 * Pow16(n - 1) <= TOP_NIBBLE
  {
    Pow16Values();
    Pow16Monotone(n + 1, 15);
  }

  /** What the loop computes for up to 15 digits: the spilled digits, plus the spill of the first digit on top. */
  lemma {:induction false} ParseIsSpilled(s: Text)
    requires AllHex(s) && |s| <= 15
    ensures ParseDigits(s) == Spilled(s) + TopSpill(s) * Pow16(|s|)
  {
    hide HexDigitToInt, OrNibble, DigitValue, Pow16;
    if |s| == 1 {
      assert s[..0] == [];
      FirstDigit(s[0]);
    } else if s != [] {
      var n := |s| - 1;
      hide ParseStep;
      ParseIsSpilled(s[..n]);
      SpillExact(s[..n]);
      Pow16Steps(n);
      assert s[..n][0] == s[0];
      var p := Pow16(n - 1);
      var spill := TopSpill(s) * p;
      Associate(TopSpill(s), p);
      StepSpills(Spilled(s[..n]), spill, p, s[n]);
    }
  }

  lemma Associate(top: nat, p: nat)
    ensures top * (16 * p) == 16 * (top * p) && top * (256 * p) == 256 * (top * p)
    ensures top <= 14 ==> top * p <= 14 * p
  {
  }

  lemma FirstDigit(c: Byte)
    requires IsHex(c)
    ensures ParseStep(0, c) == DigitValue(c) + (if IsUpperHex(c) then 14 else 0) * Pow16(1)
  {
    DigitNibbles(c);
  }

  /** The sixteenth digit pushes the top spill out. */
  lemma LastStep(x: nat, top: nat, c: Byte)
    requires IsHex(c) && x < TOP_NIBBLE && top <= 14
    ensures ParseStep(x + top * TOP_NIBBLE, c) == 16 * (if IsUpperHex(c) then OrNibble(x, 14) else x) + DigitValue(c)
  {
    DigitNibbles(c);
    assert (x + top * TOP_NIBBLE) % TOP_NIBBLE == x;
  }

  /** With 16 digits only the inner spills are left. */
  lemma ParseSixteen(s: Text)
    requires AllHex(s) && |s| == 16
    ensures ParseDigits(s) == Spilled(s)
  {
    hide HexDigitToInt, OrNibble, DigitValue, ParseStep;
    var init := s[..15];
    ParseIsSpilled(init);
    SpillExact(init);
    Pow16Values();
    assert init[0] == s[0];
    LastStep(Spilled(init), TopSpill(s), s[15]);
  }

  /** parseInt gives a hex text its value exactly when no upper-case digit spills. */
  lemma ParseExact(s: Text)
    requires AllHex(s) && |s| <= 16
    ensures ParseU64(s) == HexValue(s) <==> NoSpill(s)
  {
    hide ParseDigits, Spilled, HexValue, DigitValue;
    SpillExact(s);
    assert NoSpill(s) <==> NoInnerSpill(s) && (|s| == 16 || TopSpill(s) == 0);
    if |s| <= 15 {
      ParseIsSpilled(s);
      assert TopSpill(s) * Pow16(|s|) == 0 <==> TopSpill(s) == 0;
    } else {
      ParseSixteen(s);
    }
  }

  // ---- Round trips of integers ----

  lemma HexValueAppend(s: Text, c: Byte)
    requires AllHex(s) && IsHex(c)
    ensures AllHex(s + [c]) && HexValue(s + [c]) == 16 * HexValue(s) + DigitValue(c)
  {
    assert (s + [c])[..|s|] == s;
  }

  lemma {:induction false} BigEndianValue(n: nat, width: nat)
    requires n < Bound(width)
    ensures HexValue(HexOf(ToBE(n, width))) == n
  {
    if width > 0 {
      BigEndianValue(n / 256, width - 1);
      var d, b := ToBE(n / 256, width - 1), n % 256;
      HexOfAppend(d, b);
      assert HexOf(d) + [HexDigit(b / 16), HexDigit(b % 16)] == HexOf(d) + [HexDigit(b / 16)] + [HexDigit(b % 16)];
      HexValueAppend(HexOf(d), HexDigit(b / 16));
      HexValueAppend(HexOf(d) + [HexDigit(b / 16)], HexDigit(b % 16));
    }
  }

  lemma {:induction false} TrimKeepsValue(s: Text)
    requires AllLowerHex(s)
    ensures AllLowerHex(Trim(s)) && HexValue(Trim(s)) == HexValue(s)
    ensures 1 <= |Trim(s)| && (s != [] ==> |Trim(s)| <= |s|)
  {
    if s != [] && s[0] == ZERO {
      TrimKeepsValue(s[1..]);
      LeadingZeros(1, s[1..]);
      assert Zeros(1) + s[1..] == s;
    }
  }

  function Zeros(k: nat): (z: Text)
    ensures |z| == k && AllLowerHex(z)
    ensures forall i :: 0 <= i < k ==> z[i] == ZERO
  {
    if k == 0 then [] else Zeros(k - 1) + [ZERO]
  }

  lemma {:induction false} LeadingZeros(k: nat, s: Text)
    requires AllLowerHex(s)
    ensures HexValue(Zeros(k) + s) == HexValue(s)
  {
    if s != [] {
      LeadingZeros(k, s[..|s| - 1]);
      assert (Zeros(k) + s)[..k + |s| - 1] == Zeros(k) + s[..|s| - 1];
    } else if k > 0 {
      LeadingZeros(k - 1, []);
      assert Zeros(k) + [] == Zeros(k);
      assert Zeros(k - 1) + [] == Zeros(k - 1);
      assert Zeros(k)[..k - 1] == Zeros(k - 1);
    }
  }

  /** Two lower-case texts of one length and value are the same text. */
  lemma {:induction false} HexUnique(s: Text, t: Text)
    requires AllLowerHex(s) && AllLowerHex(t) && |s| == |t| && HexValue(s) == HexValue(t)
    ensures s == t
  {
    if s != [] {
      var n := |s| - 1;
      assert DigitValue(s[n]) == DigitValue(t[n]);
      HexUnique(s[..n], t[..n]);
      assert s == s[..n] + [s[n]] && t == t[..n] + [t[n]];
    }
  }

  lemma {:induction false} TrimZeros(k: nat, s: Text)
    requires s != []
    ensures Trim(Zeros(k) + s) == Trim(s)
  {
    if k == 0 {
      assert Zeros(0) + s == s;
    } else {
      TrimZeros(k - 1, s);
      assert (Zeros(k) + s)[1..] == Zeros(k - 1) + s;
    }
  }

  /** The untrimmed encoding: 16 digits with the value n. */
  function Padded(n: U64): (s: Text)
    ensures |s| == 16 && AllLowerHex(s)
  {
    HexOf(Reverse(ToLE(n, 8)))
  }

  lemma PaddedValue(n: U64)
    ensures HexValue(Padded(n)) == n
  {
    Bounds();
    ReversedLE(n, 8);
    BigEndianValue(n, 8);
  }

  /** Every unsigned 64-bit number is parsed back from its encoding. */
  lemma IntRoundTrip(n: U64)
    ensures ParseU64(EncodeInt(n, 8)) == n
  {
    hide ParseU64, HexValue, Trim;
    PaddedValue(n);
    TrimKeepsValue(Padded(n));
    ParseExact(Trim(Padded(n)));
  }

  /** Parsing a lower-case text and encoding the result strips exactly the leading zeros. */
  lemma ReencodingTrims(s: Text)
    requires AllLowerHex(s) && 1 <= |s| <= 16
    ensures ParseU64(s) == HexValue(s)
    ensures EncodeInt(ParseU64(s), 8) == Trim(s)
  {
    hide ParseU64, HexValue, Trim, Zeros, HexOf, Reverse, ToLE;
    ParseExact(s);
    var n, k := ParseU64(s), 16 - |s|;
    PaddedValue(n);
    LeadingZeros(k, s);
    HexUnique(Padded(n), Zeros(k) + s);
    TrimZeros(k, s);
  }
}
