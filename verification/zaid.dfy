/** ZAID identifiers: an integer whose decimal text is the atomic number Z
    followed by the mass number A in exactly three digits (nuclide_data.py,
    `zaid2za`). */
module Zaid {
  import opened Outcomes
  import opened Text
  import opened Integers

  /** What `zaid2za` accepts: an int, a float, or a string. */
  datatype ZaidInput = IntZaid(n: int) | FloatZaid(x: real) | StrZaid(s: string)

  /** Python's `int(x)` of a float truncates toward zero. */
  function Truncate(x: real): (n: int)
    ensures x >= 0.0 ==> n as real <= x < n as real + 1.0
    ensures x < 0.0 ==> n as real - 1.0 < x <= n as real
  {
    if x >= 0.0 then x.Floor else -((-x).Floor)
  }

  /** `int(zaid)`. */
  function ToInt(zaid: ZaidInput): Result<int> {
    match zaid
    case IntZaid(n) => Ok(n)
    case FloatZaid(x) => Ok(Truncate(x))
    case StrZaid(s) => OrRaise(ParseInt(s), ValueError)
  }

  /** `zaid2za`: Z is the decimal text minus its last three characters and A
      is the last three characters; an empty or sign-only Z raises. */
  function ZaidToZA(zaid: ZaidInput): Result<(int, int)> {
    var n :- ToInt(zaid);
    SplitZaid(n)
  }

  /** The split of `str(n)` into `int(text[:-3])` and `int(text[-3:])`. */
  function SplitZaid(n: int): Result<(int, int)> {
    var text := IntToString(n);
    var z :- OrRaise(ParseInt(DropLast(text, 3)), ValueError);
    var a :- OrRaise(ParseInt(TakeLast(text, 3)), ValueError);
    Ok((z, a))
  }

  /** Every integer ZAID, characterised: four or more digits split at the
      thousands (the sign stays with Z), fewer raise `ValueError`. */
  lemma ZaidOfInt(n: int)
    ensures ZaidToZA(IntZaid(n)) ==
      if n >= 1000 then Ok((n / 1000, n % 1000))
      else if n <= -1000 then Ok((-((-n) / 1000), (-n) % 1000))
      else Err(ValueError)
  {
    if n >= 1000 {
      ZaidOfLarge(n);
    } else if n <= -1000 {
      ZaidOfNegative(n);
    } else {
      ZaidOfShort(n);
    }
  }

  lemma ZaidOfLarge(n: int)
    requires n >= 1000
    ensures ZaidToZA(IntZaid(n)) == Ok((n / 1000, n % 1000))
  {
    SplitLarge(n);
  }

  lemma SplitLarge(n: int)
    requires n >= 1000
    ensures SplitZaid(n) == Ok((n / 1000, n % 1000))
  {
    var q, r := n / 1000, n % 1000;
    var text := IntToString(n);
    assert ParseInt(DropLast(text, 3)) == Some(q) && ParseInt(TakeLast(text, 3)) == Some(r) by {
      NatToStringThousands(n);
      DropTakeConcat(IntToString(q), Pad3(r));
      ParseIntToString(q);
      ParseDigitString(Pad3(r));
      Pad3Value(r);
    }
  }

  lemma ZaidOfNegative(n: int)
    requires n <= -1000
    ensures ZaidToZA(IntZaid(n)) == Ok((-((-n) / 1000), (-n) % 1000))
  {
    SplitNegative(n);
  }

  lemma SplitNegative(n: int)
    requires n <= -1000
    ensures SplitZaid(n) == Ok((-((-n) / 1000), (-n) % 1000))
  {
    NegativeZ(n);
    NegativeA(n);
  }

  /** The Z part of a negative ZAID keeps the sign. */
  lemma NegativeZ(n: int)
    requires n <= -1000
    ensures ParseInt(DropLast(IntToString(n), 3)) == Some(-((-n) / 1000))
  {
    var z := -((-n) / 1000);
    NegativeThousands(n);
    DropTakeConcat(IntToString(z), Pad3((-n) % 1000));
    ParseIntToString(z);
  }

  /** The A part of a negative ZAID is its last three digits. */
  lemma NegativeA(n: int)
    requires n <= -1000
    ensures ParseInt(TakeLast(IntToString(n), 3)) == Some((-n) % 1000)
  {
    var r := (-n) % 1000;
    NegativeThousands(n);
    DropTakeConcat(IntToString(-((-n) / 1000)), Pad3(r));
    ParseDigitString(Pad3(r));
    Pad3Value(r);
  }

  lemma ZaidOfShort(n: int)
    requires -1000 < n < 1000
    ensures ZaidToZA(IntZaid(n)) == Err(ValueError)
  {
    var text := IntToString(n);
    if n >= 0 {
      NatToStringShort(n);
      assert DropLast(text, 3) == [];
      ParseIntRejectsShort([]);
    } else {
      NatToStringShort(-n);
      assert DropLast(text, 3) == [] || DropLast(text, 3) == "-";
      ParseIntRejectsShort(DropLast(text, 3));
    }
  }

  /** The ZAID round trip: `zaid2za(Z*1000 + A) == (Z, A)`. */
  lemma ZaidRoundTrip(z: int, a: int)
    requires z >= 1 && 0 <= a <= 999
    ensures ZaidToZA(IntZaid(z * 1000 + a)) == Ok((z, a))
  {
    var n := z * 1000 + a;
    assert n / 1000 == z && n % 1000 == a;
    ZaidOfLarge(n);
  }

  /** A ZAID given as text is read as the integer it spells, so leading
      zeros do not matter. */
  lemma ZaidTextAsInt(s: string, n: int)
    requires ParseInt(s) == Some(n)
    ensures ZaidToZA(StrZaid(s)) == ZaidToZA(IntZaid(n))
  {
  }

  /** A ZAID text with a space after its sign reads as the negative
      integer, whose Z keeps the sign: `zaid2za('- 92235') == (-92, 235)`. */
  lemma ZaidSpacedSign()
    ensures ZaidToZA(StrZaid("- 92235")) == Ok((-92, 235))
  {
    SpacedSignText();
    ZaidTextAsInt("- 92235", -92235);
    ZaidOfNegative(-92235);
    assert 92235 / 1000 == 92 && 92235 % 1000 == 235;
  }

  lemma SpacedSignText()
    ensures ParseInt("- 92235") == Some(-92235)
  {
    DigitsOfExample();
    ParseSignSpaced('-', " ", "92235");
    ExampleSpelling();
  }

  lemma ExampleSpelling()
    ensures "- 92235" == ['-'] + " " + "92235"
  {
  }

  lemma DigitsOfExample()
    ensures AllDigits("92235") && DigitsValue("92235") == 92235
  {
    assert "9"[..0] == [];
    DigitsValueSnoc("9", '2');
    assert "92" == "9" + ['2'];
    DigitsValueSnoc("92", '2');
    assert "922" == "92" + ['2'];
    DigitsValueSnoc("922", '3');
    assert "9223" == "922" + ['3'];
    DigitsValueSnoc("9223", '5');
    assert "92235" == "9223" + ['5'];
  }

  /** The fractional part of a float ZAID is ignored. */
  lemma ZaidFloatTruncates(x: real)
    ensures ZaidToZA(FloatZaid(x)) == ZaidToZA(IntZaid(Truncate(x)))
  {
  }

  /** The worked examples 92235 and 3006. */
  lemma ZaidIntExamples()
    ensures ZaidToZA(IntZaid(92235)) == Ok((92, 235))
    ensures ZaidToZA(IntZaid(3006)) == Ok((3, 6))
  {
    ZaidRoundTrip(92, 235);
    ZaidRoundTrip(3, 6);
  }

  /** The worked example "08016": the leading zero is ignored. */
  lemma ZaidTextExample()
    ensures ZaidToZA(StrZaid("08016")) == Ok((8, 16))
  {
    var s := "08016";
    assert s[..1] == "0" && DigitsValue("0") == 0 by {
      assert "0"[..0] == [];
    }
    DigitsValueSnoc(s[..1], s[1]);
    assert s[..2] == s[..1] + [s[1]];
    DigitsValueSnoc(s[..2], s[2]);
    assert s[..3] == s[..2] + [s[2]];
    DigitsValueSnoc(s[..3], s[3]);
    assert s[..4] == s[..3] + [s[3]];
    DigitsValueSnoc(s[..4], s[4]);
    assert s == s[..4] + [s[4]];
    assert DigitsValue(s) == 8016;
    ParseDigitString(s);
    ZaidTextAsInt("08016", 8016);
    ZaidRoundTrip(8, 16);
  }
}
