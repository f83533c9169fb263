/** The `Nuclide` class of nuclide_data.py: building a nuclide from the many
    spellings of its identity, its `repr`, and its comparisons.

    The element tables `z2sym` and `sym2z` are loaded from the NIST data file
    in the source; here they are a parameter.  The lookup of the atomic
    weight is not part of this model (it only ever sets an extra attribute
    or warns). */
module Nuclides {
  import opened Outcomes
  import opened Text
  import opened Integers
  import opened Zaid

  /** Excitation energy in MeV: a finite value, or the `np.inf` a metastable
      spelling receives when no energy is given. */
  datatype Energy = Finite(mev: real) | Infinite

  /** `E > 0.` on a Python float, where infinity exceeds every number. */
  predicate Positive(e: Energy) {
    e.Infinite? || e.mev > 0.0
  }

  /** The element tables: `z2sym[Z]` is the symbol and `sym2z` its inverse. */
  datatype SymbolTable = SymbolTable(z2sym: map<int, string>, sym2z: map<string, int>) {
    /** The tables are mutual inverses and every symbol is written like
        `U` or `Am`, which is how the data file spells them. */
    predicate Valid() {
      && (forall z :: z in z2sym ==> z2sym[z] in sym2z && sym2z[z2sym[z]] == z)
      && (forall s :: s in sym2z ==> sym2z[s] in z2sym && z2sym[sym2z[s]] == s)
      && (forall s :: s in sym2z ==> IsTitleWord(s))
    }
  }

  /** What the constructor accepts as `nuc_id`. */
  datatype NucId =
    | Fields(fz: Option<int>, fa: Option<int>, fe: Option<real>)  // attributes x.Z, x.A, x.E or keys 'Z', 'A', 'E'
    | IntId(n: int)                                            // an integer ZAID
    | TupleId(z: int, a: int, e: Option<real>)                 // (Z, A) or (Z, A, E)
    | StrId(s: string)                                         // 'U235', 'am-242m', '92235', ...
    | OtherId                                                  // any other value, e.g. a list of length 4

  /** A constructed nuclide: its attributes Z, A, E, metastable and element. */
  datatype Nuclide = Nuclide(z: int, a: int, e: Energy, metastable: bool, element: string)

  /** Default excitation energies (MeV) for metastable states, keyed by repr. */
  const DefaultIsomerE: map<string, real> := map[
    "Fe-53m" := 3.0404, "Co-60m" := 0.0586, "Cu-68m" := 0.7216, "Se-81m" := 0.1030,
    "Kr-85m" := 0.3050, "Ge-77m" := 0.1597, "Nb-93m" := 0.0308, "Ag-110m" := 0.1176,
    "In-113m" := 0.3917, "Te-127m" := 0.0883, "Sn-125m" := 0.0275, "Te-129m" := 0.1055,
    "Sn-123m" := 0.0246, "Xe-129m" := 0.2361, "Xe-135m" := 0.5266, "Pr-144m" := 0.0590,
    "Pm-148m" := 0.1379, "Eu-154m" := 0.1453, "Dy-157m" := 0.1994, "W-185m" := 0.1974,
    "Pb-207m" := 1.6334, "Pa-234m" := 0.0739, "Am-242m" := 0.0486
  ]

  /** What the branches of the constructor establish before the common tail:
      Z and A, the E attribute if a branch set it, the metastable attribute
      if a branch set it, and the E argument after the metastable rule. */
  datatype Identity = Identity(z: int, a: int, ownE: Option<Energy>, meta: Option<bool>, e: Energy)

  /** `sym2z[sym.title()]` and `int(mass)`. */
  function SymbolThenMass(t: SymbolTable, sym: string, mass: string): Result<(int, int)> {
    var key := Title(sym);
    if key !in t.sym2z then Err(KeyError)
    else
      var a :- OrRaise(ParseInt(mass), ValueError);
      Ok((t.sym2z[key], a))
  }

  /** The two parts are tried as (symbol, mass) and, if that raises, as
      (mass, symbol). */
  function EitherOrder(t: SymbolTable, s1: string, s2: string): Result<(int, int)> {
    match SymbolThenMass(t, s1, s2)
    case Ok(za) => Ok(za)
    case Err(_) => SymbolThenMass(t, s2, s1)
  }

  /** A trailing `M` after an initial letter marks a metastable spelling. */
  predicate MetastableSpelling(u: string) {
    |u| > 0 && IsLetter(u[0]) && u[|u| - 1] == 'M'
  }

  /** The alphanumeric branch, for a string that contains a letter, after
      it has been upper-cased to `u`. */
  function ParseAlphanumeric(t: SymbolTable, u: string, e: real): Result<Identity> {
    var meta := MetastableSpelling(u);
    var body := if meta then u[..|u| - 1] else u;
    var eArg := if meta && e == 0.0 then Infinite else Finite(e);
    var parts :-
      if '-' in body then
        var pieces := Split(body, '-');
        if |pieces| == 2 then Ok((pieces[0], pieces[1])) else Err(ValueError)
      else Ok((Letters(body), NonLetters(body)));
    var za :- EitherOrder(t, parts.0, parts.1);
    Ok(Identity(za.0, za.1, None, if meta then Some(true) else None, eArg))
  }

  /** The branches of `Nuclide.__init__` up to the assignment of E. */
  function Identify(t: SymbolTable, id: NucId, e: real): Result<Identity> {
    match id
    case Fields(z, a, ee) =>
      if z.Some? && a.Some? then Ok(Identity(z.value, a.value, Some(Finite(ee.GetOr(0.0))), None, Finite(e)))
      else Err(AttributeError)
    case IntId(n) =>
      var za :- ZaidToZA(IntZaid(n));
      Ok(Identity(za.0, za.1, None, None, Finite(e)))
    case TupleId(z, a, ee) =>
      Ok(Identity(z, a, if ee.Some? then Some(Finite(ee.value)) else None, None, Finite(e)))
    case StrId(s) => IdentifyText(t, s, e)
    case OtherId => Err(AttributeError)
  }

  /** A string id: alphanumeric when it holds a letter, a zaid otherwise. */
  function IdentifyText(t: SymbolTable, s: string, e: real): Result<Identity> {
    if HasLetter(s) then ParseAlphanumeric(t, Upper(s), e)
    else
      var za :- ZaidToZA(StrZaid(s));
      Ok(Identity(za.0, za.1, None, None, Finite(e)))
  }

  /** `repr`: `Sym-A` for the ground state and `Sym-Am` otherwise. */
  function ReprOf(element: string, a: int, e: Energy): string {
    if e == Finite(0.0) then element + "-" + IntToString(a)
    else element + "-" + IntToString(a) + "m"
  }

  function Repr(n: Nuclide): string {
    ReprOf(n.element, n.a, n.e)
  }

  /** `Nuclide(nuc_id, E, metastable=False)`. */
  function NewNuclide(t: SymbolTable, id: NucId, e: real): Result<Nuclide> {
    var p :- Identify(t, id, e);
    Complete(t, p)
  }

  /** The common tail of the constructor: E, metastable, the element, and
      the default energy of a metastable state. */
  function Complete(t: SymbolTable, p: Identity): Result<Nuclide> {
    var selfE := p.ownE.GetOr(p.e);
    var meta := p.meta.GetOr(Positive(selfE));
    if p.z !in t.z2sym then Err(KeyError)
    else
      var element := t.z2sym[p.z];
      Ok(Nuclide(p.z, p.a, WithDefault(ReprOf(element, p.a, selfE), selfE), meta, element))
  }

  /** An infinite energy is replaced by the tabulated one for the repr. */
  function WithDefault(key: string, e: Energy): Energy {
    if e == Infinite && key in DefaultIsomerE then Finite(DefaultIsomerE[key]) else e
  }

  // -----------------------------------------------------------------------
  // Comparisons

  function Key(n: Nuclide): (int, int, Energy) {
    (n.z, n.a, n.e)
  }

  /** `<` on Python floats, where infinity is the largest value. */
  predicate EnergyLess(x: Energy, y: Energy) {
    match (x, y)
    case (Finite(a), Finite(b)) => a < b
    case (Finite(_), Infinite) => true
    case (Infinite, _) => false
  }

  /** `__lt__`: tuple comparison of (Z, A, E). */
  predicate Less(n: Nuclide, m: Nuclide) {
    n.z < m.z || (n.z == m.z && (n.a < m.a || (n.a == m.a && EnergyLess(n.e, m.e))))
  }

  function Abs(x: real): real {
    if x < 0.0 then -x else x
  }

  /** `np.allclose([x], [y])` with its default tolerances
      (`rtol = 1e-5`, `atol = 1e-8`); infinity is close only to itself. */
  predicate AllClose(x: Energy, y: Energy) {
    match (x, y)
    case (Finite(a), Finite(b)) => Abs(a - b) <= 0.00000001 + 0.00001 * Abs(b)
    case (Infinite, Infinite) => true
    case _ => false
  }

  /** `__eq__`: equal Z and A, and energies close in the sense above. */
  predicate Equal(n: Nuclide, m: Nuclide) {
    n.z == m.z && n.a == m.a && AllClose(n.e, m.e)
  }

  // -----------------------------------------------------------------------
  // Properties of the constructor

  /** Alphanumeric identities ignore case: only the upper-cased string matters. */
  lemma CaseInsensitive(t: SymbolTable, s1: string, s2: string, e: real)
    requires Upper(s1) == Upper(s2)
    ensures NewNuclide(t, StrId(s1), e) == NewNuclide(t, StrId(s2), e)
  {
    UpperKeepsLetters(s1);
    UpperKeepsLetters(s2);

  }

  /** A digit string is never a symbol of a valid table. */
  lemma DigitsNotSymbol(t: SymbolTable, d: string)
    requires t.Valid()
    requires |d| > 0 && AllDigits(d)
    ensures Title(d) == d && d !in t.sym2z
  {
    assert !IsLetter(d[0]);
    assert !HasLetter(d);
    TitleNoLetters(d, false);
  }

  /** The common outcome of the four spellings of symbol and mass. */
  function Expected(t: SymbolTable, sym: string, digits: string, e: real): Result<Nuclide>
    requires t.Valid() && Title(Upper(sym)) in t.sym2z && AllDigits(digits)
  {
    var z := t.sym2z[Title(Upper(sym))];
    Ok(Nuclide(z, DigitsValue(digits), Finite(e), e > 0.0, t.z2sym[z]))
  }

  /** The constructor's tail for an identity that set neither E nor
      metastable: E is the argument and metastable is `E > 0`. */
  lemma CompletePlain(t: SymbolTable, p: Identity, e: real)
    requires p.ownE == None && p.meta == None && p.e == Finite(e) && p.z in t.z2sym
    ensures Complete(t, p) == Ok(Nuclide(p.z, p.a, Finite(e), e > 0.0, t.z2sym[p.z]))
  {
  }

  /** The alphanumeric branch for a spelling that is not metastable, once
      its two parts read as symbol and mass in one of the two orders. */
  lemma AlphanumericPlain(t: SymbolTable, u: string, e: real, s1: string, s2: string)
    requires !MetastableSpelling(u)
    requires if '-' in u then Split(u, '-') == [s1, s2] else Letters(u) == s1 && NonLetters(u) == s2
    requires EitherOrder(t, s1, s2).Ok?
    ensures var za := EitherOrder(t, s1, s2).value;
      ParseAlphanumeric(t, u, e) == Ok(Identity(za.0, za.1, None, None, Finite(e)))
  {
  }

  /** The alphanumeric branch for a metastable spelling, once the parts of
      its body read as symbol and mass in one of the two orders. */
  lemma AlphanumericMetastable(t: SymbolTable, u: string, e: real, s1: string, s2: string)
    requires MetastableSpelling(u)
    requires var body := u[..|u| - 1];
      if '-' in body then Split(body, '-') == [s1, s2] else Letters(body) == s1 && NonLetters(body) == s2
    requires EitherOrder(t, s1, s2).Ok?
    ensures var za := EitherOrder(t, s1, s2).value;
      ParseAlphanumeric(t, u, e) == Ok(Identity(za.0, za.1, None, Some(true), if e == 0.0 then Infinite else Finite(e)))
  {
  }

  /** A string with a letter in it takes the alphanumeric branch. */
  lemma IdentifyLetters(t: SymbolTable, s: string, e: real)
    requires HasLetter(s)
    ensures Identify(t, StrId(s), e) == ParseAlphanumeric(t, Upper(s), e)
  {
  }

  /** An upper-case symbol followed by a digit string reads as (Z, A). */
  lemma SymbolReads(t: SymbolTable, sym: string, digits: string)
    requires t.Valid() && Title(Upper(sym)) in t.sym2z
    requires |digits| > 0 && AllDigits(digits)
    ensures EitherOrder(t, Upper(sym), digits) == Ok((t.sym2z[Title(Upper(sym))], DigitsValue(digits)))
    ensures EitherOrder(t, digits, Upper(sym)) == Ok((t.sym2z[Title(Upper(sym))], DigitsValue(digits)))
  {
    ParseDigitString(digits);
    DigitsNotSymbol(t, digits);
  }

  lemma DigitsHaveNoLetter(d: string)
    requires AllDigits(d)
    ensures !HasLetter(d) && Upper(d) == d && '-' !in d
  {
    assert forall i :: 0 <= i < |d| ==> !IsLetter(d[i]);
    UpperKeepsLetters(d);
  }

  lemma WordFacts(sym: string)
    requires |sym| > 0 && AllLetters(sym)
    ensures var u := Upper(sym); |u| == |sym| && AllLetters(u) && Letters(u) == u && NonLetters(u) == [] && '-' !in u
  {
    UpperOfWord(sym);
    LettersOfWord(Upper(sym));
  }

  /** Two hyphen-free parts joined by one hyphen split back into them. */
  lemma SplitAtHyphen(a: string, b: string)
    requires '-' !in a && '-' !in b
    ensures Split(a + "-" + b, '-') == [a, b] && '-' in a + "-" + b
  {
    SplitJoin([a, b], '-');
    assert Join([a, b], "-") == a + "-" + b;
    assert (a + "-" + b)[|a|] == '-';
  }

  /** The whole constructor for a plain alphanumeric spelling whose
      upper-cased text `u` reads as symbol and mass. */
  lemma NewFromPlainSpelling(t: SymbolTable, s: string, e: real, u: string, s1: string, s2: string)
    requires HasLetter(s) && Upper(s) == u && !MetastableSpelling(u)
    requires if '-' in u then Split(u, '-') == [s1, s2] else Letters(u) == s1 && NonLetters(u) == s2
    requires EitherOrder(t, s1, s2).Ok? && EitherOrder(t, s1, s2).value.0 in t.z2sym
    ensures var za := EitherOrder(t, s1, s2).value;
      NewNuclide(t, StrId(s), e) == Ok(Nuclide(za.0, za.1, Finite(e), e > 0.0, t.z2sym[za.0]))
  {
    var za := EitherOrder(t, s1, s2).value;
    AlphanumericPlain(t, u, e, s1, s2);
    IdentifyLetters(t, s, e);
    CompletePlain(t, Identity(za.0, za.1, None, None, Finite(e)), e);
  }

  /** `Sym` then digits: `U235`. */
  lemma SpellingSymbolMass(t: SymbolTable, sym: string, digits: string, e: real)
    requires t.Valid() && |sym| > 0 && AllLetters(sym) && Title(Upper(sym)) in t.sym2z
    requires |digits| > 0 && AllDigits(digits)
    ensures NewNuclide(t, StrId(sym + digits), e) == Expected(t, sym, digits, e)
  {
    var u := Upper(sym);
    SymbolMassText(sym, digits);
    SymbolReads(t, sym, digits);
    NewFromPlainSpelling(t, sym + digits, e, u + digits, u, digits);
  }

  lemma SymbolMassText(sym: string, digits: string)
    requires |sym| > 0 && AllLetters(sym) && AllDigits(digits) && |digits| > 0
    ensures var s := sym + digits; var u := Upper(sym);
      HasLetter(s) && Upper(s) == u + digits && !MetastableSpelling(u + digits)
      && '-' !in u + digits && Letters(u + digits) == u && NonLetters(u + digits) == digits
  {
    var s := sym + digits;
    var u := Upper(sym);
    WordFacts(sym);
    DigitsHaveNoLetter(digits);
    UpperConcat(sym, digits);
    assert IsLetter(s[0]);
    assert (u + digits)[|u + digits| - 1] == digits[|digits| - 1];
    LettersOfConcat(u, digits);
    LettersOfNonWord(digits);
  }

  /** `Sym-A`: `U-235`. */
  lemma SpellingSymbolDashMass(t: SymbolTable, sym: string, digits: string, e: real)
    requires t.Valid() && |sym| > 0 && AllLetters(sym) && Title(Upper(sym)) in t.sym2z
    requires |digits| > 0 && AllDigits(digits)
    ensures NewNuclide(t, StrId(sym + "-" + digits), e) == Expected(t, sym, digits, e)
  {
    var u := Upper(sym);
    SymbolDashMassText(sym, digits);
    SymbolReads(t, sym, digits);
    NewFromPlainSpelling(t, sym + "-" + digits, e, u + "-" + digits, u, digits);
  }

  lemma SymbolDashMassText(sym: string, digits: string)
    requires |sym| > 0 && AllLetters(sym) && AllDigits(digits) && |digits| > 0
    ensures var s := sym + "-" + digits; var u := Upper(sym);
      HasLetter(s) && Upper(s) == u + "-" + digits && !MetastableSpelling(u + "-" + digits)
      && '-' in u + "-" + digits && Split(u + "-" + digits, '-') == [u, digits]
  {
    var s := sym + "-" + digits;
    var u := Upper(sym);
    WordFacts(sym);
    DigitsHaveNoLetter(digits);
    UpperAfterHyphen(sym, digits);
    assert IsLetter(s[0]);
    assert (u + "-" + digits)[|u + "-" + digits| - 1] == digits[|digits| - 1];
    SplitAtHyphen(u, digits);
  }

  /** Upper-casing passes through a joining hyphen. */
  lemma UpperAfterHyphen(a: string, b: string)
    ensures Upper(a + "-" + b) == Upper(a) + "-" + Upper(b)
  {
    assert Upper("-") == "-";
    UpperConcat(a, "-");
    UpperConcat(a + "-", b);
  }

  /** Digits then `Sym`: `235U`. */
  lemma SpellingMassSymbol(t: SymbolTable, sym: string, digits: string, e: real)
    requires t.Valid() && |sym| > 0 && AllLetters(sym) && Title(Upper(sym)) in t.sym2z
    requires |digits| > 0 && AllDigits(digits)
    ensures NewNuclide(t, StrId(digits + sym), e) == Expected(t, sym, digits, e)
  {
    var u := Upper(sym);
    MassSymbolText(sym, digits);
    SymbolReads(t, sym, digits);
    NewFromPlainSpelling(t, digits + sym, e, digits + u, u, digits);
  }

  lemma MassSymbolText(sym: string, digits: string)
    requires |sym| > 0 && AllLetters(sym) && AllDigits(digits) && |digits| > 0
    ensures var s := digits + sym; var u := Upper(sym);
      HasLetter(s) && Upper(s) == digits + u && !MetastableSpelling(digits + u)
      && '-' !in digits + u && Letters(digits + u) == u && NonLetters(digits + u) == digits
  {
    var s := digits + sym;
    var u := Upper(sym);
    WordFacts(sym);
    DigitsHaveNoLetter(digits);
    UpperConcat(digits, sym);
    assert IsLetter(s[|digits|]);
    assert !IsLetter((digits + u)[0]);
    LettersOfConcat(digits, u);
    LettersOfNonWord(digits);
  }

  /** Digits, a hyphen, then `Sym`: `235-U`; the (symbol, mass) reading
      fails on the digits and the swapped reading succeeds. */
  lemma SpellingMassDashSymbol(t: SymbolTable, sym: string, digits: string, e: real)
    requires t.Valid() && |sym| > 0 && AllLetters(sym) && Title(Upper(sym)) in t.sym2z
    requires |digits| > 0 && AllDigits(digits)
    ensures NewNuclide(t, StrId(digits + "-" + sym), e) == Expected(t, sym, digits, e)
  {
    var u := Upper(sym);
    MassDashSymbolText(sym, digits);
    SymbolReads(t, sym, digits);
    NewFromPlainSpelling(t, digits + "-" + sym, e, digits + "-" + u, digits, u);
  }

  lemma MassDashSymbolText(sym: string, digits: string)
    requires |sym| > 0 && AllLetters(sym) && AllDigits(digits) && |digits| > 0
    ensures var s := digits + "-" + sym; var u := Upper(sym);
      HasLetter(s) && Upper(s) == digits + "-" + u && !MetastableSpelling(digits + "-" + u)
      && '-' in digits + "-" + u && Split(digits + "-" + u, '-') == [digits, u]
  {
    var s := digits + "-" + sym;
    var u := Upper(sym);
    WordFacts(sym);
    DigitsHaveNoLetter(digits);
    UpperAfterHyphen(digits, sym);
    assert IsLetter(s[|digits| + 1]);
    assert !IsLetter((digits + "-" + u)[0]);
    SplitAtHyphen(digits, u);
  }

  /** `U235`, `U-235`, `235U` and `235-U` all name the same nuclide. */
  lemma FourSpellingsAgree(t: SymbolTable, sym: string, digits: string, e: real)
    requires t.Valid() && |sym| > 0 && AllLetters(sym) && Title(Upper(sym)) in t.sym2z
    requires |digits| > 0 && AllDigits(digits)
    ensures NewNuclide(t, StrId(sym + digits), e).Ok?
    ensures NewNuclide(t, StrId(sym + digits), e) == NewNuclide(t, StrId(sym + "-" + digits), e)
    ensures NewNuclide(t, StrId(sym + digits), e) == NewNuclide(t, StrId(digits + sym), e)
    ensures NewNuclide(t, StrId(sym + digits), e) == NewNuclide(t, StrId(digits + "-" + sym), e)
  {
    SpellingSymbolMass(t, sym, digits, e);
    SpellingSymbolDashMass(t, sym, digits, e);
    SpellingMassSymbol(t, sym, digits, e);
    SpellingMassDashSymbol(t, sym, digits, e);
  }

  /** A letter-initial spelling ending in `M` is metastable; without an
      energy argument its energy is the tabulated default for its repr,
      or infinity when there is none. */
  lemma MetastableRule(t: SymbolTable, s: string, e: real)
    requires |s| > 0 && IsLetter(s[0]) && (s[|s| - 1] == 'M' || s[|s| - 1] == 'm')
    requires NewNuclide(t, StrId(s), e).Ok?
    ensures var n := NewNuclide(t, StrId(s), e).value;
      && n.metastable
      && (e != 0.0 ==> n.e == Finite(e))
      && (e == 0.0 ==> n.e == (var key := n.element + "-" + IntToString(n.a) + "m";
                               if key in DefaultIsomerE then Finite(DefaultIsomerE[key]) else Infinite))
  {
    assert HasLetter(s);
    assert MetastableSpelling(Upper(s));
  }

  /** Any other spelling leaves `metastable` to the energy: it is `E > 0`. */
  lemma NonMetastableRule(t: SymbolTable, s: string, e: real)
    requires !MetastableSpelling(Upper(s))
    requires NewNuclide(t, StrId(s), e).Ok?
    ensures var n := NewNuclide(t, StrId(s), e).value;
      n.e == Finite(e) && (n.metastable <==> e > 0.0)
  {
    var p := Identify(t, StrId(s), e).value;
    assert p.ownE == None && p.meta == None && p.e == Finite(e) by {
      if HasLetter(s) {
        IdentifyLetters(t, s, e);
      }
    }
    CompletePlain(t, p, e);
  }

  /** The whole constructor for a metastable spelling whose body (the
      upper-cased text without its `M`) reads as symbol and mass. */
  lemma NewFromMetastableSpelling(t: SymbolTable, s: string, e: real, u: string, s1: string, s2: string)
    requires HasLetter(s) && Upper(s) == u && MetastableSpelling(u)
    requires var body := u[..|u| - 1];
      if '-' in body then Split(body, '-') == [s1, s2] else Letters(body) == s1 && NonLetters(body) == s2
    requires EitherOrder(t, s1, s2).Ok? && EitherOrder(t, s1, s2).value.0 in t.z2sym
    ensures var za := EitherOrder(t, s1, s2).value;
      var el := t.z2sym[za.0];
      var en := if e == 0.0 then Infinite else Finite(e);
      NewNuclide(t, StrId(s), e) == Ok(Nuclide(za.0, za.1, WithDefault(ReprOf(el, za.1, en), en), true, el))
  {
    AlphanumericMetastable(t, u, e, s1, s2);
    IdentifyLetters(t, s, e);
  }

  /** `Am242m` without an energy gets the tabulated 0.0486 MeV. */
  lemma AmericiumDefault(t: SymbolTable)
    requires t.Valid() && "Am" in t.sym2z
    ensures NewNuclide(t, StrId("Am242m"), 0.0) == Ok(Nuclide(t.sym2z["Am"], 242, Finite(0.0486), true, "Am"))
  {
    var u := "AM242M";
    AmericiumText();
    AmericiumReads(t);
    NewFromMetastableSpelling(t, "Am242m", 0.0, u, "AM", "242");
    AmericiumRepr();
  }

  lemma AmericiumText()
    ensures var u := "AM242M";
      && HasLetter("Am242m") && Upper("Am242m") == u && MetastableSpelling(u)
      && '-' !in u[..|u| - 1] && Letters(u[..|u| - 1]) == "AM" && NonLetters(u[..|u| - 1]) == "242"
  {
    AmericiumUpper();
    AmericiumBody();
    assert "AM242M"[..5] == "AM242";
  }

  lemma AmericiumUpper()
    ensures HasLetter("Am242m") && Upper("Am242m") == "AM242M"
  {
    var s := "Am242m";
    assert IsLetter(s[0]);
    var u := Upper(s);
    assert u[0] == 'A' && u[1] == 'M' && u[2] == '2' && u[3] == '4' && u[4] == '2' && u[5] == 'M';
  }

  lemma AmericiumBody()
    ensures '-' !in "AM242" && Letters("AM242") == "AM" && NonLetters("AM242") == "242"
  {
    assert "AM242" == "AM" + "242";
    LettersOfConcat("AM", "242");
    assert Letters("AM") == "AM" && NonLetters("AM") == [];
    assert !HasLetter("242") by { assert forall i :: 0 <= i < 3 ==> !IsLetter("242"[i]); }
    LettersOfNonWord("242");
  }

  lemma AmericiumReads(t: SymbolTable)
    requires t.Valid() && "Am" in t.sym2z
    ensures EitherOrder(t, "AM", "242") == Ok((t.sym2z["Am"], 242))
    ensures t.z2sym[t.sym2z["Am"]] == "Am"
  {
    assert DigitsValue("242") == 242 by {
      assert "2"[..0] == [];
      DigitsValueSnoc("2", '4');
      assert "24" == "2" + ['4'];
      DigitsValueSnoc("24", '2');
      assert "242" == "24" + ['2'];
    }
    assert IsTitleWord("Am");
    TitleOfUpperWord("Am");
    assert Upper("Am") == "AM";
    SymbolReads(t, "Am", "242");
  }

  lemma AmericiumRepr()
    ensures WithDefault(ReprOf("Am", 242, Infinite), Infinite) == Finite(0.0486)
  {
    assert NatToString(2) == "2";
    assert NatToString(24) == "24";
    assert NatToString(242) == "242";
    assert ReprOf("Am", 242, Infinite) == "Am-242m";
    assert "Am-242m" in DefaultIsomerE && DefaultIsomerE["Am-242m"] == 0.0486;
  }

  // -----------------------------------------------------------------------
  // Properties of repr

  /** `repr` ends in `m` exactly when E is not zero. */
  lemma ReprMarksExcited(n: Nuclide)
    ensures var r := Repr(n); |r| > 0 && (r[|r| - 1] == 'm' <==> n.e != Finite(0.0))
  {
  }

  /** The text of a repr, upper-cased: symbol, hyphen, digits, and `M`
      when excited. */
  lemma ReprText(el: string, a: nat)
    requires IsTitleWord(el)
    ensures var u := Upper(el);
      var digits := IntToString(a);
      var core := u + "-" + digits;
      && AllDigits(digits) && |digits| > 0 && AllLetters(el) && |el| > 0
      && HasLetter(el + "-" + digits) && Upper(el + "-" + digits) == core
      && !MetastableSpelling(core) && '-' in core && Split(core, '-') == [u, digits]
      && HasLetter(el + "-" + digits + "m") && Upper(el + "-" + digits + "m") == core + "M"
      && MetastableSpelling(core + "M") && (core + "M")[..|core + "M"| - 1] == core
  {
    var u := Upper(el);
    var digits := IntToString(a);
    var core := u + "-" + digits;
    assert digits == NatToString(a);
    WordFacts(el);
    DigitsHaveNoLetter(digits);
    assert Upper("-") == "-";
    UpperConcat(el, "-");
    assert Upper(el + "-") == u + "-";
    UpperConcat(el + "-", digits);
    assert Upper(el + "-" + digits) == core;
    assert Upper("m") == "M";
    UpperConcat(el + "-" + digits, "m");
    assert IsLetter((el + "-" + digits)[0]);
    assert IsLetter((el + "-" + digits + "m")[0]);
    SplitAtHyphen(u, digits);
    assert (core + "M")[..|core|] == core;
  }

  /** Re-parsing a `repr` recovers Z, A and the element; the state is
      metastable exactly when the repr carried the `m`. */
  lemma ReprReparses(t: SymbolTable, n: Nuclide)
    requires t.Valid() && n.z in t.z2sym && n.element == t.z2sym[n.z] && n.a >= 0
    ensures var r := NewNuclide(t, StrId(Repr(n)), 0.0);
      r.Ok? && r.value.z == n.z && r.value.a == n.a && r.value.element == n.element
      && (r.value.metastable <==> n.e != Finite(0.0))
  {
    var el := n.element;
    var digits := IntToString(n.a);
    var u := Upper(el);
    var core := u + "-" + digits;
    assert IsTitleWord(el);
    ReprText(el, n.a);
    assert EitherOrder(t, u, digits) == Ok((n.z, n.a)) by {
      TitleOfUpperWord(el);
      SymbolReads(t, el, digits);
      DigitsValueOfNat(n.a);
    }
    if n.e == Finite(0.0) {
      assert Repr(n) == el + "-" + digits;
      NewFromPlainSpelling(t, Repr(n), 0.0, core, u, digits);
    } else {
      assert Repr(n) == el + "-" + digits + "m";
      NewFromMetastableSpelling(t, Repr(n), 0.0, core + "M", u, digits);
    }
  }

  /** For a ground state, constructing from the repr gives the nuclide back. */
  lemma ReprRoundTrip(t: SymbolTable, n: Nuclide)
    requires t.Valid() && n.z in t.z2sym && n.element == t.z2sym[n.z] && n.a >= 0
    requires n.e == Finite(0.0) && !n.metastable
    ensures NewNuclide(t, StrId(Repr(n)), 0.0) == Ok(n)
  {
    ReprReparses(t, n);
    NonMetastableRule(t, Repr(n), 0.0);
  }

  // -----------------------------------------------------------------------
  // Properties of the comparisons

  /** `__lt__` is a strict total order on (Z, A, E): for any two nuclides
      exactly one of `n < m`, equal keys, `m < n` holds. */
  lemma LessTrichotomy(n: Nuclide, m: Nuclide)
    ensures !Less(n, n)
    ensures Less(n, m) ==> !Less(m, n)
    ensures Less(n, m) || Key(n) == Key(m) || Less(m, n)
  {
  }

  lemma LessTransitive(n: Nuclide, m: Nuclide, k: Nuclide)
    requires Less(n, m) && Less(m, k)
    ensures Less(n, k)
  {
  }

  /** `__eq__` only relates nuclides of the same Z and A, and holds
      whenever the keys are identical. */
  lemma EqualMeansSameZA(n: Nuclide, m: Nuclide)
    ensures Equal(n, m) ==> n.z == m.z && n.a == m.a
    ensures Key(n) == Key(m) ==> Equal(n, m)
  {
  }

  /** Closeness is measured relative to the second energy, so `__eq__` is
      not symmetric, and two nuclides can be both equal and ordered. */
  lemma EqualIsNotAnEquivalence()
    ensures var n := Nuclide(1, 2, Finite(0.0), false, "H");
            var m := Nuclide(1, 2, Finite(0.00000001000005), true, "H");
            Equal(n, m) && !Equal(m, n) && Less(n, m)
  {
  }
}
