// std::to_string for unsigned numbers, and why a name built as "prefix_<number>" can be
// taken apart again although the prefix may itself contain underscores.
module Decimal {

  predicate IsDigit(c: char) { '0' <= c <= '9' }

  function Digit(d: nat): (c: char)
    requires d < 10
    ensures IsDigit(c)
  {
    '0' + d as char
  }

  function DigitValue(c: char): nat
    requires IsDigit(c)
  {
    (c - '0') as nat
  }

  function ToDecimal(n: nat): (s: string)
    ensures |s| > 0
    ensures forall i :: 0 <= i < |s| ==> IsDigit(s[i])
  {
    if n < 10 then [Digit(n)] else ToDecimal(n / 10) + [Digit(n % 10)]
  }

  function FromDecimal(s: string): nat
    requires forall i :: 0 <= i < |s| ==> IsDigit(s[i])
  {
    if s == [] then 0 else 10 * FromDecimal(s[..|s| - 1]) + DigitValue(s[|s| - 1])
  }

  lemma {:induction false} DecimalRoundTrip(n: nat)
    ensures FromDecimal(ToDecimal(n)) == n
  {
    if n >= 10 {
      DecimalRoundTrip(n / 10);
      assert ToDecimal(n)[..|ToDecimal(n)| - 1] == ToDecimal(n / 10);
    }
  }

  /** No leading zeros. */
  lemma {:induction false} NoLeadingZero(n: nat)
    ensures ToDecimal(n)[0] == '0' <==> n == 0
    ensures n == 0 ==> ToDecimal(n) == "0"
  {
    if n >= 10 { NoLeadingZero(n / 10); }
  }

  lemma DigitsOf(s: string, k: nat)
    requires k <= |s| && forall i :: 0 <= i < |s| ==> IsDigit(s[i])
    ensures forall i :: 0 <= i < k ==> IsDigit(s[..k][i])
  {
  }

  /** A text of digits without a leading zero is the decimal text of its value. */
  lemma {:induction false} DecimalIsUnique(s: string)
    requires s != [] && (forall i :: 0 <= i < |s| ==> IsDigit(s[i])) && (s[0] == '0' ==> |s| == 1)
    ensures ToDecimal(FromDecimal(s)) == s
    ensures |s| > 1 ==> FromDecimal(s) >= 10
  {
    var n := |s| - 1;
    var last := DigitValue(s[n]);
    if n == 0 {
      assert s[..0] == [] && s == [s[0]];
    } else {
      DigitsOf(s, n);
      DecimalIsUnique(s[..n]);
      var high := FromDecimal(s[..n]);
      NoLeadingZero(high);
      assert FromDecimal(s) == 10 * high + last;
      assert s == s[..n] + [s[n]];
    }
  }

  /** Base ten, most significant digit first. */
  lemma SomeDecimals()
    ensures ToDecimal(7) == "7" && ToDecimal(10) == "10" && ToDecimal(4096) == "4096"
  {
    assert ToDecimal(4096) == ToDecimal(409) + ['6'];
    assert ToDecimal(409) == ToDecimal(40) + ['9'];
    assert ToDecimal(40) == "40";
  }

  lemma DecimalInjective(m: nat, n: nat)
    requires ToDecimal(m) == ToDecimal(n)
    ensures m == n
  {
    DecimalRoundTrip(m);
    DecimalRoundTrip(n);
  }

  /** A separator that lies further right in one split lies in the tail of the other. */
  lemma SeparatorInTail(p: string, c: char, s: string, p': string, s': string)
    requires p + [c] + s == p' + [c] + s'
    requires |p| < |p'|
    ensures c in s
  {
    assert (p' + [c] + s')[|p'|] == c;
    assert (p + [c] + s)[|p'|] == s[|p'| - |p| - 1];
  }

  /** Splitting at the last separator is unambiguous when the tails avoid the separator. */
  lemma SplitUnique(p: string, c: char, s: string, p': string, s': string)
    requires c !in s && c !in s'
    requires p + [c] + s == p' + [c] + s'
    ensures p == p' && s == s'
  {
    if |p| < |p'| {
      SeparatorInTail(p, c, s, p', s');
    } else if |p'| < |p| {
      SeparatorInTail(p', c, s', p, s);
    } else {
      assert (p + [c] + s)[..|p|] == p && (p' + [c] + s')[..|p|] == p';
      assert (p + [c] + s)[|p| + 1..] == s && (p' + [c] + s')[|p| + 1..] == s';
    }
  }

  /** "prefix_<number>" determines both the prefix and the number. */
  lemma NumberedInjective(p: string, m: nat, p': string, n: nat)
    requires p + "_" + ToDecimal(m) == p' + "_" + ToDecimal(n)
    ensures p == p' && m == n
  {
    SplitUnique(p, '_', ToDecimal(m), p', ToDecimal(n));
    DecimalInjective(m, n);
  }
}
