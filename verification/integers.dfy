/** Decimal text of integers: Python's `str(n)` for an `int` and Python 2's
    `int(s)` for a string in base 10. */
module Integers {
  import opened Outcomes
  import opened Text

  function DigitChar(d: nat): (c: char)
    requires d < 10
    ensures IsDigit(c) && !IsSpace(c) && !IsLetter(c)
  {
    (48 + d) as char
  }

  function DigitValue(c: char): (d: nat)
    requires IsDigit(c)
    ensures d < 10
  {
    c as int - 48
  }

  /** `str(n)` for `n >= 0`: decimal digits, no leading zero. */
  function NatToString(n: nat): (s: string)
    ensures 1 <= |s|
    ensures AllDigits(s)
    decreases n
  {
    if n < 10 then [DigitChar(n)] else NatToString(n / 10) + [DigitChar(n % 10)]
  }

  /** `str(n)`: a minus sign before the digits of a negative number. */
  function IntToString(n: int): (s: string)
    ensures |s| >= 1 && IsDigit(s[|s| - 1])
  {
    if n < 0 then "-" + NatToString(-n) else NatToString(n)
  }

  /** The value of a string of decimal digits (leading zeros allowed). */
  function DigitsValue(s: string): nat
    requires AllDigits(s)
  {
    if s == [] then 0 else DigitsValue(s[..|s| - 1]) * 10 + DigitValue(s[|s| - 1])
  }

  /** Python 2 `int(s)`: surrounding whitespace, an optional sign, more
      whitespace after the sign, then at least one decimal digit; anything
      else raises `ValueError` (`None`). */
  function ParseInt(s: string): Option<int> {
    ParseStripped(Strip(s))
  }

  /** `int` of text that has already been stripped.  Whitespace between the
      sign and the digits is skipped. */
  function ParseStripped(t: string): Option<int> {
    if |t| > 0 && (t[0] == '-' || t[0] == '+') then
      var body := LStrip(t[1..]);
      if |body| > 0 && AllDigits(body) then
        var v: int := if t[0] == '-' then -(DigitsValue(body) as int) else DigitsValue(body);
        Some(v)
      else None
    else if |t| > 0 && AllDigits(t) then Some(DigitsValue(t))
    else None
  }

  lemma {:induction false} DigitsValueOfNat(n: nat)
    ensures DigitsValue(NatToString(n)) == n
    decreases n
  {
    var s := NatToString(n);
    if n >= 10 {
      DigitsValueOfNat(n / 10);
      assert s[..|s| - 1] == NatToString(n / 10);
    }
  }

  lemma DigitsValueSnoc(s: string, c: char)
    requires AllDigits(s) && IsDigit(c)
    ensures AllDigits(s + [c])
    ensures DigitsValue(s + [c]) == DigitsValue(s) * 10 + DigitValue(c)
  {
    assert (s + [c])[..|s|] == s;
  }

  /** A digit string parses to its value. */
  lemma ParseDigitString(s: string)
    requires |s| > 0 && AllDigits(s)
    ensures ParseInt(s) == Some(DigitsValue(s))
  {
    StripNoEnds(s);
  }

  /** `int(str(n)) == n`. */
  lemma ParseIntToString(n: int)
    ensures ParseInt(IntToString(n)) == Some(n)
  {
    if n < 0 {
      ParseNegative(-n);
    } else {
      ParseNatString(n);
    }
  }

  lemma ParseNatString(n: nat)
    ensures ParseInt(IntToString(n)) == Some(n)
  {
    DigitsValueOfNat(n);
    ParseDigitString(NatToString(n));
  }

  /** A minus sign before the digits of `k` parses to `-k`. */
  lemma ParseNegative(k: nat)
    requires k > 0
    ensures ParseInt(IntToString(-(k as int))) == Some(-(k as int))
  {
    assert IntToString(-(k as int)) == "-" + NatToString(k);
    ParseMinusDigits(NatToString(k));
    DigitsValueOfNat(k);
  }

  /** A minus sign before a digit string parses to minus its value. */
  lemma ParseMinusDigits(d: string)
    requires |d| > 0 && AllDigits(d)
    ensures ParseInt("-" + d) == Some(-(DigitsValue(d) as int))
  {
    StrippedMinusDigits(d);
    MinusDigitsUnstripped(d);
  }

  lemma StrippedMinusDigits(d: string)
    requires |d| > 0 && AllDigits(d)
    ensures ParseStripped("-" + d) == Some(-(DigitsValue(d) as int))
  {
    var s := "-" + d;
    assert s[0] == '-' && s[1..] == d;
  }

  lemma MinusDigitsUnstripped(d: string)
    requires |d| > 0 && AllDigits(d)
    ensures Strip("-" + d) == "-" + d
  {
    var s := "-" + d;
    assert s[|s| - 1] == d[|d| - 1];
    StripNoEnds(s);
  }

  /** A sign, any whitespace, then digits: `int('- 5') == -5`. */
  lemma ParseSignSpaced(sign: char, w: string, d: string)
    requires sign == '-' || sign == '+'
    requires AllSpace(w) && |d| > 0 && AllDigits(d)
    ensures ParseInt([sign] + w + d) == Some(if sign == '-' then -(DigitsValue(d) as int) else DigitsValue(d))
  {
    var t := [sign] + w + d;
    SignedParts(sign, w, d);
    assert Strip(t) == t by {
      StripNoEnds(t);
    }
    assert LStrip(t[1..]) == d by {
      LeadingOfSpacesThen(w, d);
    }
    ParseStrippedSigned(t, d);
  }

  /** The pieces of a sign, a gap and a digit string. */
  lemma SignedParts(sign: char, w: string, d: string)
    requires |d| > 0
    ensures var t := [sign] + w + d;
      t[0] == sign && t[1..] == w + d && t[|t| - 1] == d[|d| - 1] && (w + d)[|w|..] == d
  {
  }

  /** A sign whose remainder left-strips to digits. */
  lemma ParseStrippedSigned(t: string, d: string)
    requires |t| > 0 && (t[0] == '-' || t[0] == '+')
    requires LStrip(t[1..]) == d && |d| > 0 && AllDigits(d)
    ensures ParseStripped(t) == Some(if t[0] == '-' then -(DigitsValue(d) as int) else DigitsValue(d))
  {
  }

  lemma MinusSpaceFive()
    ensures ParseInt("- 5") == Some(-5)
  {
    var w, d := " ", "5";
    assert DigitsValue(d) == 5 by {
      assert d[..0] == [];
    }
    ParseSignSpaced('-', w, d);
    assert "- 5" == ['-'] + w + d;
  }

  /** The empty string and a lone sign are not integers. */
  lemma ParseIntRejectsShort(s: string)
    requires s == [] || s == "-"
    ensures ParseInt(s) == None
  {
  }

  /** `n % 1000` written with exactly three digits. */
  function Pad3(r: nat): (s: string)
    requires r < 1000
    ensures |s| == 3 && AllDigits(s)
  {
    [DigitChar(r / 100), DigitChar(r / 10 % 10), DigitChar(r % 10)]
  }

  lemma Pad3Value(r: nat)
    requires r < 1000
    ensures DigitsValue(Pad3(r)) == r
  {
    var s := Pad3(r);
    DigitsValueThree(s);
    var q := r / 10;
    assert r == 10 * q + r % 10;
    assert q == 10 * (r / 100) + q % 10;
    assert DigitValue(s[0]) == r / 100 && DigitValue(s[1]) == q % 10 && DigitValue(s[2]) == r % 10;
  }

  /** The value of a three-digit string, digit by digit. */
  lemma DigitsValueThree(s: string)
    requires |s| == 3 && AllDigits(s)
    ensures DigitsValue(s) == (DigitValue(s[0]) * 10 + DigitValue(s[1])) * 10 + DigitValue(s[2])
  {
    var s2 := s[..2];
    var s1 := s2[..1];
    assert s1[..0] == [] && s1[0] == s[0] && s2[1] == s[1];
    assert DigitsValue(s1) == DigitValue(s[0]);
    assert DigitsValue(s2) == DigitValue(s[0]) * 10 + DigitValue(s[1]);
  }

  lemma DivTen(m: nat, q: nat, d: nat)
    requires m == 10 * q + d && d < 10
    ensures m / 10 == q && m % 10 == d
  {
  }

  lemma DivThousand(m: nat, q: nat, r: nat)
    requires m == 1000 * q + r && r < 1000
    ensures m / 1000 == q && m % 1000 == r
  {
  }

  /** Three digits written out by `Pad3`. */
  lemma Pad3Digits(a: nat, b: nat, c: nat)
    requires a < 10 && b < 10 && c < 10
    ensures Pad3(100 * a + 10 * b + c) == [DigitChar(a), DigitChar(b), DigitChar(c)]
  {
    var r := 100 * a + 10 * b + c;
    DivTen(r, 10 * a + b, c);
    DivTen(10 * a + b, a, b);
    assert r / 100 == a;
  }

  /** The decimal text of a number of four or more digits is the text of its
      thousands followed by its last three digits. */
  lemma NatToStringThousands(m: nat)
    requires m >= 1000
    ensures NatToString(m) == NatToString(m / 1000) + Pad3(m % 1000)
  {
    var m1 := m / 10;
    var m2 := m1 / 10;
    var q := m2 / 10;
    var a, b, c := m2 % 10, m1 % 10, m % 10;
    assert m == 10 * m1 + c && m1 == 10 * m2 + b && m2 == 10 * q + a;
    DivThousand(m, q, 100 * a + 10 * b + c);
    Pad3Digits(a, b, c);
    assert NatToString(m) == NatToString(m1) + [DigitChar(c)];
    assert NatToString(m1) == NatToString(m2) + [DigitChar(b)];
    assert NatToString(m2) == NatToString(q) + [DigitChar(a)];
  }

  /** The same split for the text of a negative number: the sign stays
      with the thousands. */
  lemma NegativeThousands(n: int)
    requires n <= -1000
    ensures IntToString(n) == IntToString(-((-n) / 1000)) + Pad3((-n) % 1000)
  {
    var k := -n;
    var q := k / 1000;
    DivThousand(k, q, k % 1000);
    var head, tail := NatToString(q), Pad3(k % 1000);
    NatToStringThousands(k);
    IntToStringNegative(n);
    IntToStringNegative(-q);
    assert "-" + (head + tail) == ("-" + head) + tail;
  }

  lemma IntToStringNegative(n: int)
    requires n < 0
    ensures IntToString(n) == "-" + NatToString(-n)
  {
  }

  /** A number below 1000 has at most three digits. */
  lemma NatToStringShort(n: nat)
    requires n < 1000
    ensures |NatToString(n)| <= 3
  {
    if n >= 10 {
      NatToStringTwo(n / 10);
    }
  }

  lemma NatToStringTwo(n: nat)
    requires n < 100
    ensures |NatToString(n)| <= 2
  {
    if n >= 10 {
      assert n / 10 < 10;
      assert |NatToString(n / 10)| == 1;
    }
  }
}
