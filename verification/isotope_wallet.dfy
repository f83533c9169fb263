/** The wallet-card reader of isotope_data.py.  Its `parse_one_wallet_line`
    fills a dictionary column by column and then ends without a `return`,
    so every call gives `None`; `ReadIsotopeLine` is the dictionary it
    builds, which the corrected `ParseIsotopeLine` returns.

    Python's `float()` is the parameter `toFloat`, as in the other wallet
    reader; `ufloat((nominal, std_dev))` is a `Measurement`, and `ufloat`
    of the two atomic-mass texts converts each with `float()`. */
module IsotopeWallet {
  import opened Outcomes
  import opened Text
  import opened Integers
  import opened WalletCards

  /** `do_if_present` of this file: blank text gives `None`; other text is
      handed, stripped, to `func`, whose exception propagates. */
  function DoIfPresentOrNone<T>(s: string, func: string -> Result<T>): (r: Result<Option<T>>)
    ensures AllSpace(s) ==> r == Ok(None)
    ensures !AllSpace(s) ==> (r.Ok? <==> func(Strip(s)).Ok?)
    ensures !AllSpace(s) && r.Ok? ==> r == Ok(Some(func(Strip(s)).value))
    ensures !AllSpace(s) && r.Err? ==> r.error == func(Strip(s)).error
  {
    var t := Strip(s);
    if t == [] then Ok(None)
    else
      var v :- func(t);
      Ok(Some(v))
  }

  function Lift<T>(r: Result<T>): Result<Option<T>> {
    match r
    case Ok(v) => Ok(Some(v))
    case Err(e) => Err(e)
  }

  /** The two `do_if_present` helpers agree: this one is the other with
      `None` as its default and the value wrapped. */
  lemma DoIfPresentAgrees<T>(s: string, func: string -> Result<T>)
    ensures DoIfPresentOrNone(s, func) == DoIfPresent(s, x => Lift(func(x)), None)
  {
  }

  /** `s[i]`: `IndexError` past the end. */
  function CharAt(s: string, i: nat): (r: Result<char>)
    ensures r.Ok? <==> i < |s|
    ensures r.Ok? ==> r.value == s[i]
    ensures r.Err? ==> r.error == IndexError
  {
    if i < |s| then Ok(s[i]) else Err(IndexError)
  }

  /** `int(text)`. */
  function IntOf(s: string): (r: Result<int>)
    ensures r.Ok? <==> ParseInt(s).Some?
    ensures r.Ok? ==> r.value == ParseInt(s).value
    ensures r.Err? ==> r.error == ValueError
  {
    OrRaise(ParseInt(s), ValueError)
  }

  /** `map(float, parts)`: every piece converts, or the first that does
      not raises `ValueError`. */
  function FloatsOf(toFloat: FloatParser, parts: seq<string>): (r: Result<seq<real>>)
    ensures r.Ok? <==> forall i :: 0 <= i < |parts| ==> toFloat(parts[i]).Some?
    ensures r.Ok? ==> |r.value| == |parts| && forall i :: 0 <= i < |parts| ==> Some(r.value[i]) == toFloat(parts[i])
    ensures r.Err? ==> r.error == ValueError
  {
    var parse := p => FloatOf(toFloat, p);
    var r := ParseEach(parse, parts);
    if r.Err? then
      var k :| 0 <= k < |parts| && parse(parts[k]) == Err(r.error);
      assert toFloat(parts[k]).None?;
      r
    else
      assert forall i :: 0 <= i < |parts| ==> parse(parts[i]).Ok? && Some(r.value[i]) == toFloat(parts[i]);
      r
  }

  /** `nndc_unc(string, delimiter)`: `map(float, ...)` converts every piece
      first, then unpacking demands exactly two. */
  function NndcUnc(toFloat: FloatParser, s: string, delimiter: char): (r: Result<Measurement>)
    ensures r.Ok? <==> ((forall i :: 0 <= i < |Split(s, delimiter)| ==> toFloat(Split(s, delimiter)[i]).Some?)
                        && Count(s, delimiter) == 1)
    ensures r.Ok? ==> (Some(r.value.nominal) == toFloat(Split(s, delimiter)[0])
                       && Some(r.value.stdDev) == toFloat(Split(s, delimiter)[1]))
    ensures r.Err? ==> r.error == ValueError
  {
    var parts := Split(s, delimiter);
    var floats := FloatsOf(toFloat, parts);
    if floats.Err? then
      var k :| 0 <= k < |parts| && toFloat(parts[k]).None?;
      assert !toFloat(Split(s, delimiter)[k]).Some?;
      Err(floats.error)
    else if |floats.value| != 2 then Err(ValueError)
    else Ok(Measurement(floats.value[0], floats.value[1]))
  }

  /** `nndc_unc(x, '%') / 100.`: both the value and its uncertainty scale. */
  function AbundanceOf(toFloat: FloatParser, s: string): (r: Result<Measurement>)
    ensures r.Ok? <==> NndcUnc(toFloat, s, '%').Ok?
    ensures r.Ok? ==> (r.value.nominal * 100.0 == NndcUnc(toFloat, s, '%').value.nominal
                       && r.value.stdDev * 100.0 == NndcUnc(toFloat, s, '%').value.stdDev)
    ensures r.Err? ==> r.error == ValueError
  {
    var m :- NndcUnc(toFloat, s, '%');
    Ok(Measurement(m.nominal / 100.0, m.stdDev / 100.0))
  }

  /** `float(x) / 100.` */
  function Fraction(toFloat: FloatParser, s: string): (r: Result<real>)
    ensures r.Ok? <==> toFloat(s).Some?
    ensures r.Ok? ==> r.value * 100.0 == toFloat(s).value
    ensures r.Err? ==> r.error == ValueError
  {
    var x :- FloatOf(toFloat, s);
    Ok(x / 100.0)
  }

  /** Text that is blank, or that `parse` accepts once stripped. */
  predicate Present<T>(s: string, parse: string -> Result<T>) {
    AllSpace(s) || parse(Strip(s)).Ok?
  }

  /** The dictionary `parse_one_wallet_line` fills in, grouped by the
      stretch of the line each entry comes from. */
  datatype IsotopeLine = IsotopeLine(identity: Identity, decay: DecayData, mass: MassData)

  /** Columns 1 to 25: mass number, isomer flag, atomic number, symbol, spin
      and parity. */
  datatype Identity = Identity(a: int, isomeric: bool, z: int, symbol: string, jpi: string)

  /** Columns 30 to 79: decay mode, branch fraction, excitation energy,
      Q-value and the half-life as printed. */
  datatype DecayData = DecayData(
    mode: Option<string>, branchFraction: Option<real>, excitation: Option<real>,
    qValue: real, halfLifeText: string)

  /** Columns 81 to 132: abundance, atomic mass, systematics flag and the
      half-life in seconds. */
  datatype MassData = MassData(
    abundance: Option<Measurement>, atomicMass: Measurement, systematics: bool, halfLife: real)

  /** The first five statements of the body. */
  function ReadIdentity(line: string): (r: Result<Identity>)
    ensures r.Ok? <==> ParseInt(Slice(line, 1, 4)).Some? && |line| > 4 && ParseInt(Slice(line, 6, 9)).Some?
    ensures r.Ok? ==> && Some(r.value.a) == ParseInt(Slice(line, 1, 4))
                      && (r.value.isomeric <==> line[4] == 'M')
                      && Some(r.value.z) == ParseInt(Slice(line, 6, 9))
                      && r.value.symbol == Title(Slice(line, 10, 12))
                      && r.value.jpi == Slice(line, 16, 26)
    ensures r.Err? ==> r.error == ValueError || (r.error == IndexError && |line| <= 4)
  {
    var a :- IntOf(Slice(line, 1, 4));
    var c4 :- CharAt(line, 4);
    var z :- IntOf(Slice(line, 6, 9));
    Ok(Identity(a, c4 == 'M', z, Title(Slice(line, 10, 12)), Slice(line, 16, 26)))
  }

  /** The next five: the decay mode is kept as text, which cannot fail. */
  function ReadDecay(toFloat: FloatParser, line: string): (r: Result<DecayData>)
    ensures r.Ok? <==> && Present(Slice(line, 34, 41), s => Fraction(toFloat, s))
                       && Present(Slice(line, 42, 49), s => FloatOf(toFloat, s))
                       && toFloat(Slice(line, 49, 56)).Some?
    ensures r.Ok? ==> && (r.value.mode == None <==> AllSpace(Slice(line, 30, 34)))
                      && (r.value.mode != None ==> r.value.mode == Some(Strip(Slice(line, 30, 34))))
                      && (r.value.branchFraction == None <==> AllSpace(Slice(line, 34, 41)))
                      && (r.value.branchFraction != None ==>
                            r.value.branchFraction.value * 100.0 == toFloat(Strip(Slice(line, 34, 41))).value)
                      && (r.value.excitation == None <==> AllSpace(Slice(line, 42, 49)))
                      && (r.value.excitation != None ==>
                            Some(r.value.excitation.value) == toFloat(Strip(Slice(line, 42, 49))))
                      && Some(r.value.qValue) == toFloat(Slice(line, 49, 56))
                      && r.value.halfLifeText == Slice(line, 63, 80)
    ensures r.Err? ==> r.error == ValueError
  {
    var mode := DoIfPresentOrNone(Slice(line, 30, 34), s => Ok(s)).value;
    var branch :- DoIfPresentOrNone(Slice(line, 34, 41), s => Fraction(toFloat, s));
    var excitation :- DoIfPresentOrNone(Slice(line, 42, 49), s => FloatOf(toFloat, s));
    var q :- FloatOf(toFloat, Slice(line, 49, 56));
    Ok(DecayData(mode, branch, excitation, q, Slice(line, 63, 80)))
  }

  /** The last four.  The atomic mass converts both of its texts before
      column 114 is read, so a short line with an unreadable mass raises
      `ValueError`, not `IndexError`. */
  function ReadMass(toFloat: FloatParser, line: string): (r: Result<MassData>)
    ensures r.Ok? <==> && Present(Slice(line, 81, 96), s => AbundanceOf(toFloat, s))
                       && toFloat(Slice(line, 97, 105)).Some?
                       && toFloat(Slice(line, 105, 113)).Some?
                       && |line| > 114
                       && toFloat(Slice(line, 124, 133)).Some?
    ensures r.Ok? ==> && (r.value.abundance == None <==> AllSpace(Slice(line, 81, 96)))
                      && (r.value.abundance != None ==>
                            r.value.abundance.value == AbundanceOf(toFloat, Strip(Slice(line, 81, 96))).value)
                      && Some(r.value.atomicMass.nominal) == toFloat(Slice(line, 97, 105))
                      && Some(r.value.atomicMass.stdDev) == toFloat(Slice(line, 105, 113))
                      && (r.value.systematics <==> line[114] == 'S')
                      && Some(r.value.halfLife) == toFloat(Slice(line, 124, 133))
    ensures r.Err? ==> r.error == ValueError || r.error == IndexError
    ensures r.Err? && r.error == IndexError ==>
      && |line| <= 114
      && toFloat(Slice(line, 97, 105)).Some?
      && toFloat(Slice(line, 105, 113)).Some?
  {
    var abundance :- DoIfPresentOrNone(Slice(line, 81, 96), s => AbundanceOf(toFloat, s));
    var nominal :- FloatOf(toFloat, Slice(line, 97, 105));
    var stdDev :- FloatOf(toFloat, Slice(line, 105, 113));
    var c114 :- CharAt(line, 114);
    var halfLife :- FloatOf(toFloat, Slice(line, 124, 133));
    Ok(MassData(abundance, Measurement(nominal, stdDev), c114 == 'S', halfLife))
  }

  /** The body of `parse_one_wallet_line`, statement by statement: the
      first one that raises decides the exception, and only a line that
      ends before column 114 raises `IndexError`. */
  function ReadIsotopeLine(toFloat: FloatParser, line: string): (r: Result<IsotopeLine>)
    ensures r.Ok? <==> ReadIdentity(line).Ok? && ReadDecay(toFloat, line).Ok? && ReadMass(toFloat, line).Ok?
    ensures r.Ok? ==> r.value == IsotopeLine(ReadIdentity(line).value, ReadDecay(toFloat, line).value,
                                            ReadMass(toFloat, line).value)
    ensures r.Err? ==> r.error == ValueError || (r.error == IndexError && |line| <= 114)
  {
    var identity :- ReadIdentity(line);
    var decay :- ReadDecay(toFloat, line);
    var mass :- ReadMass(toFloat, line);
    Ok(IsotopeLine(identity, decay, mass))
  }

  /** `parse_one_wallet_line` as written: the same work, the same
      exceptions, and then `None`. */
  function ParseIsotopeLineAsWritten(toFloat: FloatParser, line: string): (r: Result<Option<IsotopeLine>>)
    ensures r.Ok? <==> ReadIsotopeLine(toFloat, line).Ok?
    ensures r.Ok? ==> r.value == None
  {
    var _ :- ReadIsotopeLine(toFloat, line);
    Ok(None)
  }

  /** `parse_one_wallet_line` with the missing `return d`. */
  function ParseIsotopeLine(toFloat: FloatParser, line: string): (r: Result<Option<IsotopeLine>>)
    ensures r.Ok? <==> ReadIsotopeLine(toFloat, line).Ok?
    ensures r.Ok? ==> r.value == Some(ReadIsotopeLine(toFloat, line).value)
  {
    var d :- ReadIsotopeLine(toFloat, line);
    Ok(Some(d))
  }

  /** `wallet_content.split('\n')[:-1]`. */
  function WalletLines(content: string): seq<string> {
    var parts := Split(content, '\n');
    parts[..|parts| - 1]
  }

  /** A file of newline-terminated lines. */
  function Terminate(ls: seq<string>): string {
    if ls == [] then [] else ls[0] + "\n" + Terminate(ls[1..])
  }

  lemma {:induction false} JoinTerminated(ls: seq<string>)
    ensures Join(ls + [""], "\n") == Terminate(ls)
    decreases |ls|
  {
    if ls != [] {
      JoinTerminated(ls[1..]);
      assert (ls + [""])[1..] == ls[1..] + [""];
      assert (ls + [""])[0] == ls[0];
    }
  }

  /** Splitting a file of newline-terminated lines and dropping the empty
      text after the last newline gives the lines back. */
  lemma WalletLinesOfFile(ls: seq<string>)
    requires forall i :: 0 <= i < |ls| ==> '\n' !in ls[i]
    ensures WalletLines(Terminate(ls)) == ls
  {
    JoinTerminated(ls);
    SplitJoin(ls + [""], '\n');
    assert (ls + [""])[..|ls|] == ls;
  }

  /** The loop building `wallet_isotope_processed_list`. */
  function ProcessWalletLines(toFloat: FloatParser, lines: seq<string>): Result<seq<Option<IsotopeLine>>> {
    ParseEach(line => ParseIsotopeLineAsWritten(toFloat, line), lines)
  }

  /** The processed list holds one `None` per line: nothing read survives. */
  lemma ProcessedListAllNone(toFloat: FloatParser, lines: seq<string>)
    ensures var r := ProcessWalletLines(toFloat, lines);
      r.Ok? ==> |r.value| == |lines| && forall i :: 0 <= i < |r.value| ==> r.value[i] == None
  {
  }

  /** With the `return`, the list holds each line's dictionary instead. */
  lemma CorrectedListKeepsRecords(toFloat: FloatParser, lines: seq<string>)
    ensures var r := ParseEach(line => ParseIsotopeLine(toFloat, line), lines);
      r.Ok? ==> (|r.value| == |lines|
                 && forall i :: 0 <= i < |lines| ==> r.value[i] == Some(ReadIsotopeLine(toFloat, lines[i]).value))
  {
  }

  // -----------------------------------------------------------------------
  // A line that shows the difference

  function Ones(n: nat): (s: string)
    ensures |s| == n && forall i :: 0 <= i < n ==> s[i] == '1'
  {
    seq(n, i => '1')
  }

  /** Eighty-five `1`s, a `%`, and forty-eight more `1`s. */
  function SampleLine(): string {
    Ones(85) + "%" + Ones(48)
  }

  /** A `float()` that reads every run of `1`s, as Python's does. */
  ghost predicate ReadsOnes(toFloat: FloatParser) {
    forall n :: n > 0 ==> toFloat(Ones(n)).Some?
  }

  lemma SampleSlices(i: nat, j: nat)
    requires i <= j <= 85 || 86 <= i <= j <= 134
    ensures Slice(SampleLine(), i, j) == Ones(j - i)
  {
    var line := SampleLine();
    assert |line| == 134;
    if i < j {
      assert forall k :: i <= k < j ==> line[k] == '1';
    }
  }

  lemma OnesDigits(n: nat)
    requires n > 0
    ensures ParseInt(Ones(n)).Some? && !AllSpace(Ones(n)) && Strip(Ones(n)) == Ones(n)
  {
    assert AllDigits(Ones(n));
    ParseDigitString(Ones(n));
    StripNoEnds(Ones(n));
  }

  /** The sample's abundance text splits at its `%` into two runs of `1`s. */
  lemma SampleAbundanceText()
    ensures Slice(SampleLine(), 81, 96) == Ones(4) + "%" + Ones(10)
    ensures !AllSpace(Ones(4) + "%" + Ones(10))
    ensures Strip(Ones(4) + "%" + Ones(10)) == Ones(4) + "%" + Ones(10)
    ensures Split(Ones(4) + "%" + Ones(10), '%') == [Ones(4), Ones(10)]
  {
    var t := Ones(4) + "%" + Ones(10);
    assert SampleLine()[81..96] == t;
    StripNoEnds(t);
    assert Ones(10) == Join([Ones(10)], "%");
    SplitNoSeparator(Ones(10), '%');
    SplitAfterPiece(Ones(4), Ones(10), '%');
  }

  lemma SampleAbundance(toFloat: FloatParser)
    requires ReadsOnes(toFloat)
    ensures Slice(SampleLine(), 81, 96) == Ones(4) + "%" + Ones(10)
    ensures !AllSpace(Ones(4) + "%" + Ones(10))
    ensures Strip(Ones(4) + "%" + Ones(10)) == Ones(4) + "%" + Ones(10)
    ensures AbundanceOf(toFloat, Ones(4) + "%" + Ones(10)).Ok?
  {
    SampleAbundanceText();
    assert toFloat(Ones(4)).Some? && toFloat(Ones(10)).Some?;
  }

  /** A column of the sample line that holds only `1`s reads. */
  lemma SampleColumn(toFloat: FloatParser, i: nat, j: nat)
    requires ReadsOnes(toFloat)
    requires i < j <= 85 || 86 <= i < j <= 134
    ensures !AllSpace(Slice(SampleLine(), i, j))
    ensures toFloat(Slice(SampleLine(), i, j)).Some?
    ensures toFloat(Strip(Slice(SampleLine(), i, j))).Some?
  {
    SampleSlices(i, j);
    OnesDigits(j - i);
  }

  lemma SampleIdentity()
    ensures ReadIdentity(SampleLine()).Ok?
  {
    SampleSlices(1, 4);
    SampleSlices(6, 9);
    OnesDigits(3);
  }

  lemma SampleDecay(toFloat: FloatParser)
    requires ReadsOnes(toFloat)
    ensures ReadDecay(toFloat, SampleLine()).Ok?
  {
    SampleColumn(toFloat, 34, 41);
    SampleColumn(toFloat, 42, 49);
    SampleColumn(toFloat, 49, 56);
  }

  lemma SampleMass(toFloat: FloatParser)
    requires ReadsOnes(toFloat)
    ensures ReadMass(toFloat, SampleLine()).Ok?
  {
    SampleAbundance(toFloat);
    SampleColumn(toFloat, 97, 105);
    SampleColumn(toFloat, 105, 113);
    SampleColumn(toFloat, 124, 133);
  }

  /** The sample line reads with any `float()` that reads digits:
      `ParseIsotopeLine` returns its dictionary while the function as
      written returns `None`. */
  lemma ReturnMissing(toFloat: FloatParser)
    requires ReadsOnes(toFloat)
    ensures ReadIsotopeLine(toFloat, SampleLine()).Ok?
    ensures ParseIsotopeLineAsWritten(toFloat, SampleLine()) == Ok(None)
    ensures ParseIsotopeLine(toFloat, SampleLine()) == Ok(Some(ReadIsotopeLine(toFloat, SampleLine()).value))
  {
    SampleIdentity();
    SampleDecay(toFloat);
    SampleMass(toFloat);
  }
}
