/** One line of the NNDC nuclear wallet cards, read column by column
    (nuclide_data.py, `parse_one_wallet_line` and its helpers).

    Python's `float()` of text is a parameter: `toFloat(s)` is the number or
    `None` where `float(s)` raises.  The `uncertainties` values built from
    the parsed numbers are records of the numbers they were built from. */
module WalletCards {
  import opened Outcomes
  import opened Text
  import opened Integers

  /** `float(s)` on a string, as a partial function. */
  type FloatParser = string -> Option<real>

  /** `ufloat((nominal, std_dev))`. */
  datatype Measurement = Measurement(nominal: real, stdDev: real)

  /** The natural abundance: the exact 1 or 0, or `ufloat('a(b)') / 100.`
      from a percentage `a` with `b` uncertain last digits. */
  datatype Abundance = Exact(fraction: real) | Measured(percent: real, lastDigits: int)

  /** The dictionary `parse_one_wallet_line` returns. */
  datatype WalletLine = WalletLine(
    a: int,
    z: int,
    symbol: string,
    massExcess: Measurement,
    systematics: bool,
    abundance: Abundance,
    jpi: string,
    isomeric: bool,
    excitation: real,
    decayMode: Option<string>,
    branch: Option<real>,
    qValue: Option<real>,
    halfLifeText: string,
    stable: bool,
    halfLife: real)

  function FloatOf(toFloat: FloatParser, s: string): (r: Result<real>)
    ensures r.Ok? <==> toFloat(s).Some?
    ensures r.Ok? ==> r.value == toFloat(s).value
    ensures r.Err? ==> r.error == ValueError
  {
    OrRaise(toFloat(s), ValueError)
  }

  /** `do_if_present`: text that is blank once stripped gives the default;
      anything else is handed, stripped, to `func`. */
  function DoIfPresent<T>(s: string, func: string -> Result<T>, default: T): (r: Result<T>)
    ensures AllSpace(s) ==> r == Ok(default)
    ensures !AllSpace(s) ==> Strip(s) != [] && r == func(Strip(s))
  {
    var t := Strip(s);
    if t != [] then func(t) else Ok(default)
  }

  /** Only the stripped text matters to `do_if_present`. */
  lemma DoIfPresentStripped<T>(s: string, func: string -> Result<T>, default: T)
    ensures DoIfPresent(Strip(s), func, default) == DoIfPresent(s, func, default)
  {
    StripIdempotent(s);
  }

  /** `process_branch`: a percentage as a fraction, or `None` when the text
      is not a number. */
  function ProcessBranch(toFloat: FloatParser, s: string): (r: Option<real>)
    ensures r.Some? <==> toFloat(s).Some?
    ensures r.Some? ==> r.value * 100.0 == toFloat(s).value
  {
    match toFloat(s)
    case Some(x) => Some(x / 100.0)
    case None => None
  }

  /** `nndc_abun(s, '%') / 100.`: exactly two pieces around `%`, a float
      and an int. */
  function NndcAbundance(toFloat: FloatParser, s: string): (r: Result<Abundance>)
    ensures r.Ok? <==> (var p := Split(s, '%');
                        |p| == 2 && toFloat(p[0]).Some? && ParseInt(p[1]).Some?)
    ensures r.Ok? ==> r.value == Measured(toFloat(Split(s, '%')[0]).value, ParseInt(Split(s, '%')[1]).value)
    ensures r.Err? ==> r.error == ValueError
  {
    var pieces := Split(s, '%');
    if |pieces| != 2 then Err(ValueError)
    else
      var a :- FloatOf(toFloat, pieces[0]);
      var b :- OrRaise(ParseInt(pieces[1]), ValueError);
      Ok(Measured(a, b))
  }

  /** `process_abundance`: any text that starts with `100` is the whole
      abundance. */
  function ProcessAbundance(toFloat: FloatParser, s: string): (r: Result<Abundance>)
    ensures StartsWith(s, "100") ==> r == Ok(Exact(1.0))
    ensures !StartsWith(s, "100") ==> r == NndcAbundance(toFloat, s)
  {
    if StartsWith(s, "100") then Ok(Exact(1.0)) else NndcAbundance(toFloat, s)
  }

  /** Columns 81-95: the abundance, 0 when blank. */
  function AbundanceField(toFloat: FloatParser, line: string): (r: Result<Abundance>)
    ensures AllSpace(Slice(line, 81, 96)) ==> r == Ok(Exact(0.0))
    ensures StartsWith(Strip(Slice(line, 81, 96)), "100") ==> r == Ok(Exact(1.0))
    ensures r.Err? ==> r.error == ValueError
  {
    DoIfPresent(Slice(line, 81, 96), s => ProcessAbundance(toFloat, s), Exact(0.0))
  }

  /** Columns 42-48: the excitation energy, 0 when blank. */
  function ExcitationField(toFloat: FloatParser, line: string): (r: Result<real>)
    ensures AllSpace(Slice(line, 42, 49)) ==> r == Ok(0.0)
    ensures !AllSpace(Slice(line, 42, 49)) ==>
      (r.Ok? <==> toFloat(Strip(Slice(line, 42, 49))).Some?)
      && (r.Ok? ==> r.value == toFloat(Strip(Slice(line, 42, 49))).value)
    ensures r.Err? ==> r.error == ValueError
  {
    DoIfPresent(Slice(line, 42, 49), s => FloatOf(toFloat, s), 0.0)
  }

  /** Columns 30-33: the decay mode, absent exactly when blank. */
  function DecayModeField(line: string): (r: Result<Option<string>>)
    ensures r.Ok?
    ensures r.value == None <==> AllSpace(Slice(line, 30, 34))
    ensures r.value.Some? ==> r.value.value == Strip(Slice(line, 30, 34))
  {
    DoIfPresent(Slice(line, 30, 34), s => Ok(Some(s)), None)
  }

  /** Columns 35-40: the branching percentage as a fraction; blank or
      unreadable text gives `None` rather than an exception. */
  function BranchField(toFloat: FloatParser, line: string): (r: Result<Option<real>>)
    ensures r.Ok?
    ensures r.value.Some? <==> !AllSpace(Slice(line, 35, 41)) && toFloat(Strip(Slice(line, 35, 41))).Some?
    ensures r.value.Some? ==> r.value.value * 100.0 == toFloat(Strip(Slice(line, 35, 41))).value
  {
    DoIfPresent(Slice(line, 35, 41), s => Ok(ProcessBranch(toFloat, s)), None)
  }

  /** Columns 49-55: the Q-value, absent when blank; unreadable text
      raises. */
  function QValueField(toFloat: FloatParser, line: string): (r: Result<Option<real>>)
    ensures AllSpace(Slice(line, 49, 56)) ==> r == Ok(None)
    ensures !AllSpace(Slice(line, 49, 56)) ==>
      (r.Ok? <==> toFloat(Strip(Slice(line, 49, 56))).Some?)
      && (r.Ok? ==> r.value == Some(toFloat(Strip(Slice(line, 49, 56))).value))
    ensures r.Err? ==> r.error == ValueError
  {
    DoIfPresent(Slice(line, 49, 56), s => (var q :- FloatOf(toFloat, s); Ok(Some(q))), None)
  }

  /** The fields read before column 114: A, Z, the symbol and the mass
      excess with its uncertainty. */
  datatype Head = Head(a: int, z: int, symbol: string, massExcess: Measurement)

  function ParseHead(toFloat: FloatParser, line: string): (r: Result<Head>)
    ensures r.Ok? <==>
      && ParseInt(Slice(line, 1, 4)).Some? && ParseInt(Slice(line, 6, 9)).Some?
      && toFloat(Slice(line, 97, 105)).Some? && toFloat(Slice(line, 105, 113)).Some?
    ensures r.Ok? ==>
      && ParseInt(Slice(line, 1, 4)) == Some(r.value.a)
      && ParseInt(Slice(line, 6, 9)) == Some(r.value.z)
      && r.value.symbol == Title(Strip(Slice(line, 10, 12)))
      && r.value.massExcess == Measurement(toFloat(Slice(line, 97, 105)).value, toFloat(Slice(line, 105, 113)).value)
    ensures r.Err? ==> r.error == ValueError
  {
    var a :- OrRaise(ParseInt(Slice(line, 1, 4)), ValueError);
    var z :- OrRaise(ParseInt(Slice(line, 6, 9)), ValueError);
    var symbol := Title(Strip(Slice(line, 10, 12)));
    var nominal :- FloatOf(toFloat, Slice(line, 97, 105));
    var stdDev :- FloatOf(toFloat, Slice(line, 105, 113));
    Ok(Head(a, z, symbol, Measurement(nominal, stdDev)))
  }

  /** The fields from column 114 on, and the flags, once the line is known
      to reach column 114. */
  function ParseTail(toFloat: FloatParser, line: string, head: Head): (r: Result<WalletLine>)
    requires |line| > 114
    ensures r.Ok? ==>
      && r.value.a == head.a && r.value.z == head.z
      && r.value.symbol == head.symbol && r.value.massExcess == head.massExcess
      && (r.value.isomeric <==> line[4] == 'M')
      && (r.value.systematics <==> line[114] == 'S')
      && r.value.jpi == Strip(Slice(line, 16, 26))
      && r.value.halfLifeText == Strip(Slice(line, 63, 80))
      && (r.value.stable <==> Strip(Slice(line, 63, 80)) == "STABLE")
      && toFloat(Slice(line, 124, 133)) == Some(r.value.halfLife)
    ensures r.Ok? <==>
      && AbundanceField(toFloat, line).Ok? && ExcitationField(toFloat, line).Ok?
      && QValueField(toFloat, line).Ok? && toFloat(Slice(line, 124, 133)).Some?
    ensures r.Ok? ==>
      && r.value.abundance == AbundanceField(toFloat, line).value
      && r.value.excitation == ExcitationField(toFloat, line).value
      && r.value.decayMode == DecayModeField(line).value
      && r.value.branch == BranchField(toFloat, line).value
      && r.value.qValue == QValueField(toFloat, line).value
    ensures r.Err? ==> r.error == ValueError
  {
    // Every field read here can only raise ValueError, so which one fails
    // first does not change the outcome.
    var abundance := AbundanceField(toFloat, line);
    var excitation := ExcitationField(toFloat, line);
    var qValue := QValueField(toFloat, line);
    var halfLife := toFloat(Slice(line, 124, 133));
    if abundance.Ok? && excitation.Ok? && qValue.Ok? && halfLife.Some? then
      var halfLifeText := Strip(Slice(line, 63, 80));
      Ok(WalletLine(head.a, head.z, head.symbol, head.massExcess, line[114] == 'S',
                    abundance.value, Strip(Slice(line, 16, 26)), line[4] == 'M',
                    excitation.value, DecayModeField(line).value, BranchField(toFloat, line).value,
                    qValue.value, halfLifeText, halfLifeText == "STABLE", halfLife.value))
    else Err(ValueError)
  }

  /** `parse_one_wallet_line`: the fields in the order the source reads
      them, so the first failing field decides the exception; indexing
      column 114 of a shorter line raises `IndexError`. */
  function ParseWalletLine(toFloat: FloatParser, line: string): (r: Result<WalletLine>)
    ensures r.Ok? ==>
      && ParseInt(Slice(line, 1, 4)) == Some(r.value.a)
      && ParseInt(Slice(line, 6, 9)) == Some(r.value.z)
      && r.value.symbol == Title(Strip(Slice(line, 10, 12)))
      && |line| > 114
      && (r.value.isomeric <==> line[4] == 'M')
      && (r.value.systematics <==> line[114] == 'S')
      && (r.value.stable <==> Strip(Slice(line, 63, 80)) == "STABLE")
    ensures r == Err(IndexError) <==> ParseHead(toFloat, line).Ok? && |line| <= 114
  {
    var head :- ParseHead(toFloat, line);
    if |line| <= 114 then Err(IndexError) else ParseTail(toFloat, line, head)
  }

  // -----------------------------------------------------------------------
  // Properties

  /** When the abundance columns can be read: blank, a `100...` entry, or
      `a%b` with a float and an int. */
  predicate AbundanceReadable(toFloat: FloatParser, s: string) {
    var t := Strip(s);
    var p := Split(t, '%');
    t == [] || StartsWith(t, "100") || (|p| == 2 && toFloat(p[0]).Some? && ParseInt(p[1]).Some?)
  }

  /** An optional numeric column can be read when it is blank or a float. */
  predicate OptionalFloatReadable(toFloat: FloatParser, s: string) {
    AllSpace(s) || toFloat(Strip(s)).Some?
  }

  /** Which lines `parse_one_wallet_line` accepts, column by column. */
  predicate Readable(toFloat: FloatParser, line: string) {
    && ParseInt(Slice(line, 1, 4)).Some?
    && ParseInt(Slice(line, 6, 9)).Some?
    && toFloat(Slice(line, 97, 105)).Some?
    && toFloat(Slice(line, 105, 113)).Some?
    && |line| > 114
    && AbundanceReadable(toFloat, Slice(line, 81, 96))
    && OptionalFloatReadable(toFloat, Slice(line, 42, 49))
    && OptionalFloatReadable(toFloat, Slice(line, 49, 56))
    && toFloat(Slice(line, 124, 133)).Some?
  }

  lemma AbundanceFieldOk(toFloat: FloatParser, line: string)
    ensures AbundanceField(toFloat, line).Ok? <==> AbundanceReadable(toFloat, Slice(line, 81, 96))
  {
  }

  lemma OptionalFieldsOk(toFloat: FloatParser, line: string)
    ensures ExcitationField(toFloat, line).Ok? <==> OptionalFloatReadable(toFloat, Slice(line, 42, 49))
    ensures QValueField(toFloat, line).Ok? <==> OptionalFloatReadable(toFloat, Slice(line, 49, 56))
  {
  }

  lemma ParseTailOk(toFloat: FloatParser, line: string, head: Head)
    requires |line| > 114
    ensures ParseTail(toFloat, line, head).Ok? <==>
      && AbundanceReadable(toFloat, Slice(line, 81, 96))
      && OptionalFloatReadable(toFloat, Slice(line, 42, 49))
      && OptionalFloatReadable(toFloat, Slice(line, 49, 56))
      && toFloat(Slice(line, 124, 133)).Some?
  {
    AbundanceFieldOk(toFloat, line);
    OptionalFieldsOk(toFloat, line);
    if && AbundanceField(toFloat, line).Ok? && ExcitationField(toFloat, line).Ok?
       && QValueField(toFloat, line).Ok? && toFloat(Slice(line, 124, 133)).Some? {
      assert ParseTail(toFloat, line, head).Ok?;
    } else {
      assert ParseTail(toFloat, line, head).Err?;
    }
  }

  /** A line parses exactly when every column it reads can be read. */
  lemma ParseWalletLineOk(toFloat: FloatParser, line: string)
    ensures ParseWalletLine(toFloat, line).Ok? <==> Readable(toFloat, line)
  {
    if ParseHead(toFloat, line).Ok? && |line| > 114 {
      ParseTailOk(toFloat, line, ParseHead(toFloat, line).value);
    }
  }

  /** Blank optional columns give their defaults, and an abundance that
      starts with `100` is the whole abundance. */
  lemma WalletLineDefaults(toFloat: FloatParser, line: string)
    requires ParseWalletLine(toFloat, line).Ok?
    ensures var w := ParseWalletLine(toFloat, line).value;
      && (AllSpace(Slice(line, 81, 96)) ==> w.abundance == Exact(0.0))
      && (StartsWith(Strip(Slice(line, 81, 96)), "100") ==> w.abundance == Exact(1.0))
      && (AllSpace(Slice(line, 42, 49)) ==> w.excitation == 0.0)
      && (AllSpace(Slice(line, 30, 34)) <==> w.decayMode == None)
      && (AllSpace(Slice(line, 35, 41)) ==> w.branch == None)
      && (AllSpace(Slice(line, 49, 56)) ==> w.qValue == None)
  {
    var head := ParseHead(toFloat, line).value;
    assert ParseWalletLine(toFloat, line) == ParseTail(toFloat, line, head);
  }

  /** The columns some field reads; the others (0, 5, 9, 12-15, 26-29, 34,
      41, 56-62, 80, 96, 113, 115-123 and from 133 on) are never looked at. */
  predicate UsedColumn(k: nat) {
    || (1 <= k < 12 && k != 5 && k != 9)
    || 16 <= k < 26
    || 30 <= k < 34
    || (35 <= k < 56 && k != 41)
    || 63 <= k < 80
    || 81 <= k < 96
    || 97 <= k < 113
    || k == 114
    || 124 <= k < 133
  }

  predicate SameUsedColumns(l1: string, l2: string) {
    |l1| == |l2| && forall k :: 0 <= k < |l1| && UsedColumn(k) ==> l1[k] == l2[k]
  }

  lemma SliceAgree(l1: string, l2: string, i: nat, j: nat)
    requires |l1| == |l2|
    requires forall k :: i <= k < j && k < |l1| ==> l1[k] == l2[k]
    ensures Slice(l1, i, j) == Slice(l2, i, j)
  {
  }

  lemma HeadAgree(toFloat: FloatParser, l1: string, l2: string)
    requires SameUsedColumns(l1, l2)
    ensures ParseHead(toFloat, l1) == ParseHead(toFloat, l2)
  {
    SliceAgree(l1, l2, 1, 4);
    SliceAgree(l1, l2, 6, 9);
    SliceAgree(l1, l2, 10, 12);
    SliceAgree(l1, l2, 97, 105);
    SliceAgree(l1, l2, 105, 113);
  }

  lemma FieldsAgree(toFloat: FloatParser, l1: string, l2: string)
    requires SameUsedColumns(l1, l2)
    ensures AbundanceField(toFloat, l1) == AbundanceField(toFloat, l2)
    ensures ExcitationField(toFloat, l1) == ExcitationField(toFloat, l2)
    ensures DecayModeField(l1) == DecayModeField(l2)
    ensures BranchField(toFloat, l1) == BranchField(toFloat, l2)
    ensures QValueField(toFloat, l1) == QValueField(toFloat, l2)
  {
    SliceAgree(l1, l2, 81, 96);
    SliceAgree(l1, l2, 42, 49);
    SliceAgree(l1, l2, 30, 34);
    SliceAgree(l1, l2, 35, 41);
    SliceAgree(l1, l2, 49, 56);
  }

  lemma TailAgree(toFloat: FloatParser, l1: string, l2: string, head: Head)
    requires SameUsedColumns(l1, l2) && |l1| > 114
    ensures ParseTail(toFloat, l1, head) == ParseTail(toFloat, l2, head)
  {
    FieldsAgree(toFloat, l1, l2);
    SliceAgree(l1, l2, 16, 26);
    SliceAgree(l1, l2, 63, 80);
    SliceAgree(l1, l2, 124, 133);
    assert l1[4] == l2[4] && l1[114] == l2[114];
    var r1 := ParseTail(toFloat, l1, head);
    var r2 := ParseTail(toFloat, l2, head);
    assert r1.Ok? == r2.Ok?;
    if r1.Ok? {
      assert r1.value.isomeric == r2.value.isomeric && r1.value.systematics == r2.value.systematics;
      assert r1.value.stable == r2.value.stable && r1.value.halfLife == r2.value.halfLife;
      assert r1.value == r2.value;
    }
  }

  /** Two lines of the same length that agree on every used column parse
      to the same result, whatever the unused columns hold. */
  lemma UnusedColumnsIgnored(toFloat: FloatParser, l1: string, l2: string)
    requires SameUsedColumns(l1, l2)
    ensures ParseWalletLine(toFloat, l1) == ParseWalletLine(toFloat, l2)
  {
    HeadAgree(toFloat, l1, l2);
    if ParseHead(toFloat, l1).Ok? && |l1| > 114 {
      TailAgree(toFloat, l1, l2, ParseHead(toFloat, l1).value);
    }
  }
}
