/** The few Python string operations the scanner's settings and report code rely on:
    str.strip(), str.split(sep)[0], str.replace(ch, ""), str.count(pattern), str(n),
    and int() / float() on plain base-10 text. */
module Text {
  import opened Results

  /** Python's str.isspace(): the characters strip(), int() and float() discard at the ends. */
  predicate IsSpace(c: char) {
    || ('\t' <= c <= '\r')
    || ('\U{1C}' <= c <= '\U{1F}')
    || c == ' ' || c == '\U{85}' || c == '\U{A0}' || c == '\U{1680}'
    || ('\U{2000}' <= c <= '\U{200A}')
    || c == '\U{2028}' || c == '\U{2029}' || c == '\U{202F}' || c == '\U{205F}' || c == '\U{3000}'
  }

  /** s.lstrip() */
  function TrimStart(s: string): (r: string)
    ensures |r| <= |s| && r == s[|s| - |r|..]
    ensures forall i :: 0 <= i < |s| - |r| ==> IsSpace(s[i])
    ensures |r| > 0 ==> !IsSpace(r[0])
  {
    if |s| > 0 && IsSpace(s[0]) then TrimStart(s[1..]) else s
  }

  /** s.rstrip() */
  function TrimEnd(s: string): (r: string)
    ensures |r| <= |s| && r == s[..|r|]
    ensures forall i :: |r| <= i < |s| ==> IsSpace(s[i])
    ensures |r| > 0 ==> !IsSpace(r[|r| - 1])
  {
    if |s| > 0 && IsSpace(s[|s| - 1]) then TrimEnd(s[..|s| - 1]) else s
  }

  /** s.strip(): the result neither starts nor ends with whitespace, and text that does not
      start or end with whitespace is left as it is. */
  function Strip(s: string): (r: string)
    ensures |r| > 0 ==> !IsSpace(r[0]) && !IsSpace(r[|r| - 1])
    ensures (|s| == 0 || (!IsSpace(s[0]) && !IsSpace(s[|s| - 1]))) ==> r == s
  {
    TrimEnd(TrimStart(s))
  }

  /** strip() removes characters and adds none. */
  lemma StripKeepsAbsent(s: string, ch: char)
    requires ch !in s
    ensures ch !in Strip(s)
  {
    var t := TrimStart(s);
    var r := TrimEnd(t);
    assert r == Strip(s);
    forall k | 0 <= k < |r|
      ensures r[k] != ch
    {
      assert r[k] == t[k] == s[|s| - |t| + k];
    }
  }

  /** s.split(sep)[0]: the text before the first sep, or all of s when there is none. */
  function BeforeFirst(s: string, sep: char): (r: string)
    ensures r <= s
    ensures sep !in r
    ensures |r| < |s| ==> s[|r|] == sep
  {
    if |s| == 0 || s[0] == sep then [] else [s[0]] + BeforeFirst(s[1..], sep)
  }

  /** s.replace(ch, ""): every ch is gone and every other character keeps its count. */
  function RemoveAll(s: string, ch: char): (r: string)
    ensures ch !in r
    ensures forall c :: c != ch ==> multiset(r)[c] == multiset(s)[c]
  {
    if |s| == 0 then []
    else
      assert s == [s[0]] + s[1..];
      (if s[0] == ch then [] else [s[0]]) + RemoveAll(s[1..], ch)
  }

  /** Splitting at the first sep of d + sep + rest, where d holds no sep, gives d. */
  lemma {:induction false} BeforeFirstOfPrefix(d: string, sep: char, rest: string)
    requires sep !in d
    ensures BeforeFirst(d + [sep] + rest, sep) == d
  {
    if |d| > 0 {
      assert (d + [sep] + rest)[1..] == d[1..] + [sep] + rest;
      BeforeFirstOfPrefix(d[1..], sep, rest);
    }
  }

  /** Text without sep is not split. */
  lemma {:induction false} BeforeFirstAll(s: string, sep: char)
    requires sep !in s
    ensures BeforeFirst(s, sep) == s
  {
    if |s| > 0 {
      BeforeFirstAll(s[1..], sep);
      assert s == [s[0]] + s[1..];
    }
  }

  /** Removing a character that does not occur changes nothing. */
  lemma {:induction false} RemoveAbsent(s: string, ch: char)
    requires ch !in s
    ensures RemoveAll(s, ch) == s
  {
    if |s| > 0 {
      RemoveAbsent(s[1..], ch);
      assert s == [s[0]] + s[1..];
    }
  }

  predicate IsDigit(c: char) {
    '0' <= c <= '9'
  }

  predicate AllDigits(s: string) {
    forall i :: 0 <= i < |s| ==> IsDigit(s[i])
  }

  function DigitValue(c: char): nat
    requires IsDigit(c)
  {
    (c as int) - ('0' as int)
  }

  function DigitChar(d: nat): (c: char)
    requires d < 10
    ensures IsDigit(c) && DigitValue(c) == d
  {
    (('0' as int) + d) as char
  }

  /** The value of a string of decimal digits, most significant first. */
  function DigitsValue(s: string): nat
    requires AllDigits(s)
  {
    if |s| == 0 then 0 else DigitsValue(s[..|s| - 1]) * 10 + DigitValue(s[|s| - 1])
  }

  /** n digits stand for less than 10^n. */
  lemma {:induction false} DigitsBelow(s: string)
    requires AllDigits(s)
    ensures DigitsValue(s) < Pow10(|s|)
  {
    if |s| > 0 {
      DigitsBelow(s[..|s| - 1]);
    }
  }

  function Pow10(n: nat): (p: nat)
    ensures p >= 1
  {
    if n == 0 then 1 else 10 * Pow10(n - 1)
  }

  /** str(n) for a non-negative integer. */
  function NatToString(n: nat): (s: string)
    ensures |s| > 0 && AllDigits(s)
  {
    if n < 10 then [DigitChar(n)] else NatToString(n / 10) + [DigitChar(n % 10)]
  }

  /** str(i) */
  function IntToString(i: int): string {
    if i < 0 then "-" + NatToString(-i) else NatToString(i)
  }

  /** str(n) reads back as n. */
  lemma {:induction false} NatToStringValue(n: nat)
    ensures DigitsValue(NatToString(n)) == n
  {
    var s := NatToString(n);
    if n >= 10 {
      NatToStringValue(n / 10);
      assert s[..|s| - 1] == NatToString(n / 10);
    }
  }

  /** Digits are not whitespace, so strip() leaves a numeral alone. */
  lemma StripDigits(s: string)
    requires |s| > 0 && AllDigits(s)
    ensures Strip(s) == s
  {
    assert IsDigit(s[0]) && IsDigit(s[|s| - 1]);
  }

  /** int(t) for base-10 text: surrounding whitespace, an optional sign, then one or more ASCII
      digits.  None stands for the ValueError int() raises on anything else. */
  function ParseInt(t: string): (r: Option<int>)
    ensures r.Some? ==> |Strip(t)| > 0
    ensures r.Some? && r.value < 0 ==> Strip(t)[0] == '-'
  {
    var s := Strip(t);
    if |s| > 0 && (s[0] == '+' || s[0] == '-') then
      if |s| > 1 && AllDigits(s[1..]) then
        Some(if s[0] == '-' then -(DigitsValue(s[1..]) as int) else DigitsValue(s[1..]) as int)
      else None
    else if |s| > 0 && AllDigits(s) then Some(DigitsValue(s) as int)
    else None
  }

  /** int() accepts only text that, stripped, starts with a digit or a sign, and reads a
      negative value only after a minus sign; the digits after the sign are all digits. */
  lemma ParseIntAccepts(t: string)
    ensures var s := Strip(t);
            ParseInt(t).Some? ==>
              && |s| > 0 && (IsDigit(s[0]) || s[0] == '+' || s[0] == '-')
              && (forall k :: 0 < k < |s| ==> IsDigit(s[k]))
  {
  }

  /** A numeral reads as its value. */
  lemma ParseNumeral(d: string)
    requires |d| > 0 && AllDigits(d)
    ensures ParseInt(d) == Some(DigitsValue(d) as int)
  {
    StripDigits(d);
  }

  /** A minus sign does not count as whitespace either. */
  lemma StripNegative(d: string)
    requires |d| > 0 && AllDigits(d)
    ensures Strip("-" + d) == "-" + d
  {
    var s := "-" + d;
    assert s[|s| - 1] == d[|d| - 1];
    assert IsDigit(d[|d| - 1]);
    assert !IsSpace(s[0]) && !IsSpace(s[|s| - 1]);
  }

  /** A numeral after a minus sign reads as its negated value. */
  lemma ParseNegativeNumeral(d: string)
    requires |d| > 0 && AllDigits(d)
    ensures ParseInt("-" + d) == Some(-(DigitsValue(d) as int))
  {
    StripNegative(d);
    var s := "-" + d;
    assert s[0] == '-' && |s| > 1 && s[1..] == d;
    ParseMinusDigits(s);
  }

  lemma ParseMinusDigits(s: string)
    requires Strip(s) == s && |s| > 1 && s[0] == '-' && AllDigits(s[1..])
    ensures ParseInt(s) == Some(-(DigitsValue(s[1..]) as int))
  {
  }

  /** int(str(i)) == i */
  lemma ParseIntRoundTrip(i: int)
    ensures ParseInt(IntToString(i)) == Some(i)
  {
    var n: nat := if i < 0 then -i else i;
    NatToStringValue(n);
    if i < 0 {
      ParseNegativeNumeral(NatToString(n));
    } else {
      ParseNumeral(NatToString(n));
    }
  }

  /** float(t) for a decimal numeral without a sign: digits with at most one '.', at least one digit. */
  function UnsignedDecimal(t: string): (r: Option<real>)
    ensures r.Some? ==> r.value >= 0.0 && |t| > 0
  {
    var whole := BeforeFirst(t, '.');
    DecimalParts(whole, if |whole| < |t| then t[|whole| + 1..] else [])
  }

  /** The value of the digits before and after the point, when both are digits and not both empty. */
  function DecimalParts(whole: string, frac: string): (r: Option<real>)
    ensures r.Some? ==> r.value >= 0.0 && |whole| + |frac| > 0
  {
    if AllDigits(whole) && AllDigits(frac) && |whole| + |frac| > 0 then
      Some(DigitsValue(whole) as real + FractionValue(frac))
    else None
  }

  /** The value of the digits after the point. */
  function FractionValue(frac: string): (f: real)
    requires AllDigits(frac)
    ensures 0.0 <= f < 1.0
  {
    var d, p := DigitsValue(frac), Pow10(|frac|);
    DigitsBelow(frac);
    RatioBelowOne(d, p);
    d as real / p as real
  }

  lemma RatioBelowOne(a: nat, b: nat)
    requires a < b
    ensures 0.0 <= a as real / b as real < 1.0
  {
    var q := a as real / b as real;
    assert q * b as real == a as real;
  }

  /** float(t) restricted to plain decimal numerals: surrounding whitespace, an optional sign and
      an unsigned decimal.  None stands for the ValueError float() raises. */
  function ParseDecimal(t: string): (r: Option<real>)
    ensures r.Some? ==> |Strip(t)| > 0
    ensures r.Some? && r.value < 0.0 ==> Strip(t)[0] == '-'
  {
    var s := Strip(t);
    if |s| > 0 && (s[0] == '+' || s[0] == '-') then
      match UnsignedDecimal(s[1..])
      case Some(v) => Some(if s[0] == '-' then -v else v)
      case None => None
    else UnsignedDecimal(s)
  }

  /** float(str(n)) == n */
  lemma ParseDecimalOfNat(n: nat)
    ensures ParseDecimal(NatToString(n)) == Some(n as real)
  {
    var s := NatToString(n);
    NatToStringValue(n);
    StripDigits(s);
    assert IsDigit(s[0]);
    UnsignedDecimalOfDigits(s);
  }

  /** A string of digits without a point reads as its value. */
  lemma UnsignedDecimalOfDigits(s: string)
    requires |s| > 0 && AllDigits(s)
    ensures UnsignedDecimal(s) == Some(DigitsValue(s) as real)
  {
    NoPointInDigits(s);
    WholeWithoutPoint(s);
    NoFraction(s);
  }

  lemma WholeWithoutPoint(s: string)
    requires '.' !in s
    ensures UnsignedDecimal(s) == DecimalParts(s, [])
  {
    BeforeFirstAll(s, '.');
  }

  lemma NoFraction(s: string)
    requires |s| > 0 && AllDigits(s)
    ensures DecimalParts(s, []) == Some(DigitsValue(s) as real)
  {
    var frac: string := [];
    assert FractionValue(frac) == 0.0 by {
      assert DigitsValue(frac) == 0 && Pow10(0) == 1;
    }
  }

  lemma NoPointInDigits(s: string)
    requires AllDigits(s)
    ensures '.' !in s
  {
    forall i | 0 <= i < |s|
      ensures s[i] != '.'
    {
      assert IsDigit(s[i]);
    }
  }

  /** s.count(pat): non-overlapping occurrences found scanning left to right. */
  function Count(s: string, pat: string): nat
    requires |pat| > 0
    decreases |s|
  {
    if |s| < |pat| then 0
    else if s[..|pat|] == pat then 1 + Count(s[|pat|..], pat)
    else Count(s[1..], pat)
  }

  /** pat has no proper prefix that is also a suffix, so two occurrences can never overlap. */
  predicate Borderless(pat: string) {
    forall k :: 0 < k < |pat| ==> pat[..k] != pat[|pat| - k..]
  }

  /** Text without pat's first character holds no occurrence of pat. */
  lemma {:induction false} CountWithoutFirstChar(s: string, pat: string)
    requires |pat| > 0 && pat[0] !in s
    ensures Count(s, pat) == 0
    decreases |s|
  {
    if |s| >= |pat| {
      assert s[..|pat|][0] == s[0];
      assert s[1..] <= s[1..];
      assert forall c :: c in s[1..] ==> c in s;
      CountWithoutFirstChar(s[1..], pat);
    }
  }

  /** Counting a borderless pattern splits at the front of an occurrence: no occurrence can
      straddle the seam, so count(a + b) == count(a) + count(b) when b starts with pat. */
  lemma {:induction false} CountConcat(a: string, b: string, pat: string)
    requires |pat| > 0 && Borderless(pat)
    requires pat <= b
    ensures Count(a + b, pat) == Count(a, pat) + Count(b, pat)
    decreases |a|
  {
    var n := |pat|;
    if |a| == 0 {
      assert a + b == b;
    } else if |a| >= n {
      assert (a + b)[..n] == a[..n];
      if a[..n] == pat {
        assert (a + b)[n..] == a[n..] + b;
        CountConcat(a[n..], b, pat);
      } else {
        assert (a + b)[1..] == a[1..] + b;
        CountConcat(a[1..], b, pat);
      }
    } else {
      // 0 < |a| < n: the window at the front of a + b crosses the seam, and pat cannot match there.
      var k := n - |a|;
      assert (a + b)[..n][|a|..] == b[..k] == pat[..k];
      assert pat[..k] != pat[n - k..];
      assert (a + b)[..n] != pat;
      assert (a + b)[1..] == a[1..] + b;
      CountConcat(a[1..], b, pat);
    }
  }
}
