/**
 Swift's string interpolation of an `Int` ("\(n)"): an optional minus sign
 followed by the decimal digits, most significant first, without leading
 zeros. The parser below is its partner: every rendered integer parses back
 to itself, and so does a "a/b" position string built from two of them.
 */
module Decimal {
  import opened Wrappers

  predicate IsDigit(c: char) {
    '0' <= c <= '9'
  }

  predicate AllDigits(s: string) {
    forall i :: 0 <= i < |s| ==> IsDigit(s[i])
  }

  function DigitValue(c: char): (d: nat)
    requires IsDigit(c)
    ensures d < 10
  {
    c as int - '0' as int
  }

  function DigitChar(d: nat): (c: char)
    requires d < 10
    ensures IsDigit(c) && DigitValue(c) == d
  {
    ('0' as int + d) as char
  }

  /** A non-empty run of digits with no leading zero, except "0" itself. */
  predicate CanonicalDigits(d: string) {
    1 <= |d| && AllDigits(d) && (d[0] == '0' ==> |d| == 1)
  }

  /** Canonical digits, optionally after a '-' that never precedes "0". */
  predicate CanonicalInt(s: string) {
    if 0 < |s| && s[0] == '-' then CanonicalDigits(s[1..]) && s[1..] != "0"
    else CanonicalDigits(s)
  }

  /** "numerator/denominator", both halves canonical, split at the first '/'. */
  predicate CanonicalFraction(s: string) {
    match IndexOf(s, '/')
    case None => false
    case Some(k) => CanonicalInt(s[..k]) && CanonicalInt(s[k + 1..])
  }

  /** The digits of `n`; only zero itself is written with a leading '0'. */
  function NatToDecimal(n: nat): (s: string)
    ensures CanonicalDigits(s)
    ensures s == "0" <==> n == 0
    decreases n
  {
    if n < 10 then [DigitChar(n)] else NatToDecimal(n / 10) + [DigitChar(n % 10)]
  }

  function IntToDecimal(i: int): (s: string)
    ensures CanonicalInt(s)
    ensures 1 <= |s| && (i < 0 <==> s[0] == '-')
  {
    if i < 0 then "-" + NatToDecimal(-i) else NatToDecimal(i)
  }

  /** Value of a string of digits, read most significant first. */
  function DecimalValue(s: string): nat
    requires AllDigits(s)
  {
    if |s| == 0 then 0 else DecimalValue(s[..|s| - 1]) * 10 + DigitValue(s[|s| - 1])
  }

  function ParseNat(s: string): Option<nat> {
    if 0 < |s| && AllDigits(s) then Some(DecimalValue(s)) else None
  }

  function ParseInt(s: string): Option<int> {
    if 0 < |s| && s[0] == '-' then
      match ParseNat(s[1..])
      case Some(n) => Some(0 - n as int)
      case None => None
    else
      match ParseNat(s)
      case Some(n) => Some(n)
      case None => None
  }

  /** Position of the first occurrence of `c` in `s`. */
  function IndexOf(s: string, c: char): (r: Option<nat>)
    ensures r.Some? ==> r.value < |s| && s[r.value] == c && c !in s[..r.value]
    ensures r.None? ==> c !in s
  {
    if |s| == 0 then None
    else if s[0] == c then Some(0)
    else
      var rest := IndexOf(s[1..], c);
      assert s == [s[0]] + s[1..];
      if rest.Some? then Some(rest.value + 1) else None
  }

  /** Reads a "numerator/denominator" string split at its first '/'. */
  function ParseFraction(s: string): Option<(int, int)> {
    match IndexOf(s, '/')
    case None => None
    case Some(k) =>
      match (ParseInt(s[..k]), ParseInt(s[k + 1..]))
      case (Some(a), Some(b)) => Some((a, b))
      case _ => None
  }

  lemma {:induction false} NatRoundTrip(n: nat)
    ensures ParseNat(NatToDecimal(n)) == Some(n)
  {
    var s := NatToDecimal(n);
    if n < 10 {
      assert s[..|s| - 1] == [];
    } else {
      var prefix := NatToDecimal(n / 10);
      assert s[..|s| - 1] == prefix;
      NatRoundTrip(n / 10);
      assert DecimalValue(s) == DecimalValue(prefix) * 10 + n % 10;
    }
  }

  lemma {:induction false} IntRoundTrip(i: int)
    ensures ParseInt(IntToDecimal(i)) == Some(i)
  {
    if i < 0 {
      NatRoundTrip(-i);
      assert IntToDecimal(i)[1..] == NatToDecimal(-i);
    } else {
      NatRoundTrip(i);
    }
  }

  lemma FractionRoundTrip(a: int, b: int)
    ensures CanonicalFraction(IntToDecimal(a) + "/" + IntToDecimal(b))
    ensures ParseFraction(IntToDecimal(a) + "/" + IntToDecimal(b)) == Some((a, b))
  {
    var left, right := IntToDecimal(a), IntToDecimal(b);
    var s := left + "/" + right;
    assert s[|left|] == '/';
    assert '/' !in left;
    var k := IndexOf(s, '/');
    assert k.Some?;
    assert k.value == |left|;
    assert s[..|left|] == left;
    assert s[|left| + 1..] == right;
    IntRoundTrip(a);
    IntRoundTrip(b);
  }

  lemma {:induction false} LeadingNonZeroIsPositive(d: string)
    requires 1 <= |d| && AllDigits(d) && d[0] != '0'
    ensures 1 <= DecimalValue(d)
    decreases |d|
  {
    if |d| > 1 {
      var prefix := d[..|d| - 1];
      assert prefix[0] == d[0];
      LeadingNonZeroIsPositive(prefix);
    }
  }

  /** Canonical digits are the rendering of their own value: no other spelling exists. */
  lemma {:induction false} CanonicalDigitsUnique(d: string)
    requires CanonicalDigits(d)
    ensures NatToDecimal(DecimalValue(d)) == d
    decreases |d|
  {
    var n := DecimalValue(d);
    if |d| == 1 {
      assert d[..|d| - 1] == [];
      assert DecimalValue(d[..|d| - 1]) == 0;
      assert n == DigitValue(d[0]);
    } else {
      var prefix := d[..|d| - 1];
      assert prefix[0] == d[0];
      LeadingNonZeroIsPositive(prefix);
      CanonicalDigitsUnique(prefix);
      assert n / 10 == DecimalValue(prefix) && n % 10 == DigitValue(d[|d| - 1]);
      assert DigitChar(n % 10) == d[|d| - 1];
      assert d == prefix + [d[|d| - 1]];
    }
  }

  /** A canonical integer string is the rendering of the value it parses to. */
  lemma CanonicalIntUnique(s: string, i: int)
    requires CanonicalInt(s) && ParseInt(s) == Some(i)
    ensures s == IntToDecimal(i)
  {
    if 0 < |s| && s[0] == '-' {
      CanonicalDigitsUnique(s[1..]);
      assert s == "-" + s[1..];
    } else {
      CanonicalDigitsUnique(s);
    }
  }

  /**
   A canonical fraction is spelled exactly as its two parsed integers are
   rendered: the parse and the canonical form together pin the string.
   */
  lemma CanonicalFractionUnique(s: string, a: int, b: int)
    requires CanonicalFraction(s) && ParseFraction(s) == Some((a, b))
    ensures s == IntToDecimal(a) + "/" + IntToDecimal(b)
  {
    var k := IndexOf(s, '/').value;
    CanonicalIntUnique(s[..k], a);
    CanonicalIntUnique(s[k + 1..], b);
    assert s == s[..k] + "/" + s[k + 1..];
  }
}
