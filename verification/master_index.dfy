/** The master dictionary of nuclide_data.py: wallet-card records folded
    into `nuclides[(Z, A)][E]`, and the two public views built on it, the
    `isotopes` table and `isomers(Z, A)`.

    Python's dictionaries iterate in an order the program does not choose;
    where the source iterates a dictionary, the order is a parameter that
    lists each key once. */
module MasterIndex {
  import opened Outcomes
  import opened Text
  import opened WalletCards
  import opened Sorting

  /** The per-mode entry: `branch fraction` and `Q-value`. */
  datatype DecayData = DecayData(branch: Option<real>, qValue: Option<real>)

  /** The entries of an isomer that do not depend on the decay mode. */
  datatype IsomerFacts = IsomerFacts(
    symbol: string,
    massExcess: Measurement,
    abundance: Abundance,
    isomeric: bool,
    jpi: string,
    stable: bool,
    halfLifeText: string,
    halfLife: real)

  /** `nuclides[(Z, A)][E]`: the facts, and the `decay modes` dictionary
      keyed by the (possibly absent) mode text. */
  datatype Isomer = Isomer(facts: IsomerFacts, decayModes: map<Option<string>, DecayData>)

  type Index = map<(int, int), map<real, Isomer>>

  function FactsOf(el: WalletLine): IsomerFacts {
    IsomerFacts(el.symbol, el.massExcess, el.abundance, el.isomeric, el.jpi,
                el.stable, el.halfLifeText, el.halfLife)
  }

  function DecayOf(el: WalletLine): DecayData {
    DecayData(el.branch, el.qValue)
  }

  /** One turn of the loop: find or create the (Z, A) entry and the isomer
      at E, then record the line's decay mode. */
  function AddRecord(idx: Index, el: WalletLine): Index {
    var key := (el.z, el.a);
    var isomers := if key in idx then idx[key] else map[];
    var isomer := if el.excitation in isomers then isomers[el.excitation] else Isomer(FactsOf(el), map[]);
    var updated := isomer.(decayModes := isomer.decayModes[el.decayMode := DecayOf(el)]);
    idx[key := isomers[el.excitation := updated]]
  }

  /** The loop over all parsed wallet lines, in file order. */
  function Build(lines: seq<WalletLine>): Index
    decreases |lines|
  {
    if lines == [] then map[]
    else AddRecord(Build(lines[..|lines| - 1]), lines[|lines| - 1])
  }

  /** The master dictionary from the wallet file's lines.  (The source
      parses each line a second time and discards the result; parsing has
      no effect, so that is not modelled.) */
  function MasterFromLines(toFloat: FloatParser, lines: seq<string>): (r: Result<Index>)
    ensures r.Ok? <==> forall i :: 0 <= i < |lines| ==> ParseWalletLine(toFloat, lines[i]).Ok?
    ensures r.Ok? ==> r.value == Build(ParseEach(line => ParseWalletLine(toFloat, line), lines).value)
  {
    var records :- ParseEach(line => ParseWalletLine(toFloat, line), lines);
    Ok(Build(records))
  }

  // -----------------------------------------------------------------------
  // Reference definitions over the list of records

  predicate Names(el: WalletLine, z: int, a: int, e: real) {
    el.z == z && el.a == a && el.excitation == e
  }

  predicate HasZA(lines: seq<WalletLine>, z: int, a: int) {
    exists i :: 0 <= i < |lines| && lines[i].z == z && lines[i].a == a
  }

  predicate HasState(lines: seq<WalletLine>, z: int, a: int, e: real) {
    exists i :: 0 <= i < |lines| && Names(lines[i], z, a, e)
  }

  predicate HasMode(lines: seq<WalletLine>, z: int, a: int, e: real, mode: Option<string>) {
    exists i :: 0 <= i < |lines| && Names(lines[i], z, a, e) && lines[i].decayMode == mode
  }

  /** Record `i` is the first to name the state (Z, A, E). */
  predicate FirstOfState(lines: seq<WalletLine>, i: int) {
    0 <= i < |lines|
    && forall j :: 0 <= j < i ==> !Names(lines[j], lines[i].z, lines[i].a, lines[i].excitation)
  }

  /** Record `i` is the last to give its decay mode for its state. */
  predicate LastOfMode(lines: seq<WalletLine>, i: int) {
    0 <= i < |lines|
    && forall j :: i < j < |lines| ==>
         !(Names(lines[j], lines[i].z, lines[i].a, lines[i].excitation) && lines[j].decayMode == lines[i].decayMode)
  }

  // -----------------------------------------------------------------------
  // One step of the fold

  /** What adding one record does: it touches only its own (Z, A, E) and
      decay mode, keeps an existing isomer's facts, and creates a missing
      isomer from the record. */
  lemma AddRecordEffect(idx: Index, el: WalletLine)
    ensures var r := AddRecord(idx, el);
      && r.Keys == idx.Keys + {(el.z, el.a)}
      && (forall k :: k in idx && k != (el.z, el.a) ==> r[k] == idx[k])
      && var prior := if (el.z, el.a) in idx then idx[(el.z, el.a)] else map[];
         && r[(el.z, el.a)].Keys == prior.Keys + {el.excitation}
         && (forall e :: e in prior && e != el.excitation ==> r[(el.z, el.a)][e] == prior[e])
         && var iso := r[(el.z, el.a)][el.excitation];
            && iso.facts == (if el.excitation in prior then prior[el.excitation].facts else FactsOf(el))
            && var modes := if el.excitation in prior then prior[el.excitation].decayModes else map[];
               iso.decayModes == modes[el.decayMode := DecayOf(el)]
  {
  }

  // -----------------------------------------------------------------------
  // Properties of the fold

  /** There is a (Z, A) entry exactly when some record names that Z and A. */
  lemma {:induction false} BuildKeys(lines: seq<WalletLine>, z: int, a: int)
    ensures (z, a) in Build(lines) <==> HasZA(lines, z, a)
    decreases |lines|
  {
    if lines != [] {
      var init := lines[..|lines| - 1];
      var el := lines[|lines| - 1];
      BuildKeys(init, z, a);
      AddRecordEffect(Build(init), el);
      if HasZA(init, z, a) {
        var i :| 0 <= i < |init| && init[i].z == z && init[i].a == a;
        assert lines[i] == init[i];
      }
      if HasZA(lines, z, a) && !(el.z == z && el.a == a) {
        var i :| 0 <= i < |lines| && lines[i].z == z && lines[i].a == a;
        assert i < |init| && init[i] == lines[i];
      }
    }
  }

  /** Under a (Z, A) entry there is exactly one isomer per energy that some
      record gives for that Z and A. */
  lemma {:induction false} BuildStates(lines: seq<WalletLine>, z: int, a: int, e: real)
    requires (z, a) in Build(lines)
    ensures e in Build(lines)[(z, a)] <==> HasState(lines, z, a, e)
    decreases |lines|
  {
    var init := lines[..|lines| - 1];
    var el := lines[|lines| - 1];
    AddRecordEffect(Build(init), el);
    if (z, a) in Build(init) {
      BuildStates(init, z, a, e);
    } else {
      assert el.z == z && el.a == a;
      BuildKeys(init, z, a);
      if HasState(init, z, a, e) {
        var i :| 0 <= i < |init| && Names(init[i], z, a, e);
        assert false;
      }
    }
    StateSnoc(lines, z, a, e);
  }

  lemma StateSnoc(lines: seq<WalletLine>, z: int, a: int, e: real)
    requires lines != []
    ensures HasState(lines, z, a, e) <==>
      HasState(lines[..|lines| - 1], z, a, e) || Names(lines[|lines| - 1], z, a, e)
  {
    var init := lines[..|lines| - 1];
    if HasState(init, z, a, e) {
      var i :| 0 <= i < |init| && Names(init[i], z, a, e);
      assert Names(lines[i], z, a, e);
    }
    if HasState(lines, z, a, e) && !Names(lines[|lines| - 1], z, a, e) {
      var i :| 0 <= i < |lines| && Names(lines[i], z, a, e);
      assert i < |init| && Names(init[i], z, a, e);
    }
  }

  /** An isomer's facts come from the first record that names its state;
      later records with the same (Z, A, E) do not change them. */
  lemma {:induction false} BuildFirstFacts(lines: seq<WalletLine>, i: int)
    requires FirstOfState(lines, i)
    ensures var el := lines[i];
      (el.z, el.a) in Build(lines) && el.excitation in Build(lines)[(el.z, el.a)]
      && Build(lines)[(el.z, el.a)][el.excitation].facts == FactsOf(el)
    decreases |lines|
  {
    var init := lines[..|lines| - 1];
    var last := lines[|lines| - 1];
    var el := lines[i];
    AddRecordEffect(Build(init), last);
    if i == |lines| - 1 {
      if (el.z, el.a) in Build(init) && el.excitation in Build(init)[(el.z, el.a)] {
        BuildStates(init, el.z, el.a, el.excitation);
        assert false;
      }
    } else {
      assert init[i] == el;
      assert FirstOfState(init, i);
      BuildFirstFacts(init, i);
    }
  }

  /** An isomer lists exactly the decay modes its records give. */
  lemma {:induction false} BuildModes(lines: seq<WalletLine>, z: int, a: int, e: real, mode: Option<string>)
    requires (z, a) in Build(lines) && e in Build(lines)[(z, a)]
    ensures mode in Build(lines)[(z, a)][e].decayModes <==> HasMode(lines, z, a, e, mode)
    decreases |lines|
  {
    var init := lines[..|lines| - 1];
    var el := lines[|lines| - 1];
    AddRecordEffect(Build(init), el);
    ModeSnoc(lines, z, a, e, mode);
    if (z, a) in Build(init) && e in Build(init)[(z, a)] {
      BuildModes(init, z, a, e, mode);
    } else {
      assert Names(el, z, a, e);
      if HasMode(init, z, a, e, mode) {
        var i :| 0 <= i < |init| && Names(init[i], z, a, e) && init[i].decayMode == mode;
        BuildKeys(init, z, a);
        if (z, a) in Build(init) {
          BuildStates(init, z, a, e);
        }
        assert false;
      }
    }
  }

  lemma ModeSnoc(lines: seq<WalletLine>, z: int, a: int, e: real, mode: Option<string>)
    requires lines != []
    ensures HasMode(lines, z, a, e, mode) <==>
      HasMode(lines[..|lines| - 1], z, a, e, mode)
      || (Names(lines[|lines| - 1], z, a, e) && lines[|lines| - 1].decayMode == mode)
  {
    var init := lines[..|lines| - 1];
    if HasMode(init, z, a, e, mode) {
      var i :| 0 <= i < |init| && Names(init[i], z, a, e) && init[i].decayMode == mode;
      assert lines[i] == init[i];
    }
    if HasMode(lines, z, a, e, mode) && !(Names(lines[|lines| - 1], z, a, e) && lines[|lines| - 1].decayMode == mode) {
      var i :| 0 <= i < |lines| && Names(lines[i], z, a, e) && lines[i].decayMode == mode;
      assert i < |init| && init[i] == lines[i];
    }
  }

  /** The data kept for a decay mode is that of the last record giving the
      mode for the state: a later duplicate overwrites an earlier one. */
  lemma {:induction false} BuildLastMode(lines: seq<WalletLine>, i: int)
    requires LastOfMode(lines, i)
    ensures var el := lines[i];
      (el.z, el.a) in Build(lines) && el.excitation in Build(lines)[(el.z, el.a)]
      && el.decayMode in Build(lines)[(el.z, el.a)][el.excitation].decayModes
      && Build(lines)[(el.z, el.a)][el.excitation].decayModes[el.decayMode] == DecayOf(el)
    decreases |lines|
  {
    var init := lines[..|lines| - 1];
    var last := lines[|lines| - 1];
    var el := lines[i];
    AddRecordEffect(Build(init), last);
    if i < |lines| - 1 {
      assert init[i] == el;
      assert LastOfMode(init, i);
      BuildLastMode(init, i);
      assert !(Names(last, el.z, el.a, el.excitation) && last.decayMode == el.decayMode);
    }
  }

  /** The master dictionary from the file has an entry for exactly the
      (Z, A) pairs its lines name. */
  lemma MasterKeys(toFloat: FloatParser, lines: seq<string>, z: int, a: int)
    requires forall i :: 0 <= i < |lines| ==> ParseWalletLine(toFloat, lines[i]).Ok?
    ensures (z, a) in MasterFromLines(toFloat, lines).value <==>
      exists i :: 0 <= i < |lines| && ParseWalletLine(toFloat, lines[i]).value.z == z
                                   && ParseWalletLine(toFloat, lines[i]).value.a == a
  {
    var records := ParseEach(line => ParseWalletLine(toFloat, line), lines).value;
    BuildKeys(records, z, a);
    assert forall i :: 0 <= i < |lines| ==> records[i] == ParseWalletLine(toFloat, lines[i]).value;
  }

  // -----------------------------------------------------------------------
  // The `isotopes` table

  /** The loop that builds `isotopes`: each (Z, A) key in dictionary order
      appends A to the list for Z, which is then sorted. */
  function Isotopes(order: seq<(int, int)>): map<int, seq<int>>
    decreases |order|
  {
    if order == [] then map[]
    else
      var prev := Isotopes(order[..|order| - 1]);
      var z := order[|order| - 1].0;
      var a := order[|order| - 1].1;
      var list := if z in prev then prev[z] else [];
      prev[z := Sort(list + [a], IntLe)]
  }

  /** One turn of the `isotopes` loop adds the last key's Z and changes no
      other list. */
  lemma IsotopesStepKeys(order: seq<(int, int)>, z: int)
    requires order != []
    ensures var prev := Isotopes(order[..|order| - 1]);
      && (z in Isotopes(order) <==> z in prev || z == order[|order| - 1].0)
      && (z in prev && z != order[|order| - 1].0 ==> Isotopes(order)[z] == prev[z])
  {
  }

  /** The list for the last key's Z is the old list plus its A, sorted. */
  lemma IsotopesStepList(order: seq<(int, int)>)
    requires order != []
    ensures var prev := Isotopes(order[..|order| - 1]);
      var last := order[|order| - 1];
      var list := if last.0 in prev then prev[last.0] else [];
      last.0 in Isotopes(order) && Isotopes(order)[last.0] == Sort(list + [last.1], IntLe)
  {
  }

  /** The Z of the keys, one key more. */
  lemma PairsSnoc(init: seq<(int, int)>, last: (int, int), z: int)
    ensures (exists a :: (z, a) in init + [last]) <==> (exists a :: (z, a) in init) || z == last.0
  {
    if z == last.0 {
      assert (z, last.1) in init + [last];
    }
    if exists a :: (z, a) in init {
      var a :| (z, a) in init;
      assert (z, a) in init + [last];
    }
    if exists a :: (z, a) in init + [last] {
      var a :| (z, a) in init + [last];
      assert (z, a) in init || (z, a) == last;
    }
  }

  /** `isotopes[Z]` exists exactly for the Z of some key. */
  lemma {:induction false} IsotopesKeys(order: seq<(int, int)>, z: int)
    ensures z in Isotopes(order) <==> exists a :: (z, a) in order
    decreases |order|
  {
    if order != [] {
      var init := order[..|order| - 1];
      var last := order[|order| - 1];
      IsotopesKeys(init, z);
      IsotopesStepKeys(order, z);
      assert order == init + [last];
      PairsSnoc(init, last, z);
    }
  }

  /** `isotopes[Z]` holds exactly the A paired with Z in some key. */
  lemma {:induction false} IsotopesMembers(order: seq<(int, int)>, z: int, a: int)
    requires z in Isotopes(order)
    ensures a in Isotopes(order)[z] <==> (z, a) in order
    decreases |order|
  {
    var init := order[..|order| - 1];
    var last := order[|order| - 1];
    var prev := Isotopes(init);
    IsotopesStepKeys(order, z);
    assert (z, a) in order <==> (z, a) in init || (z, a) == last by {
      assert order == init + [last];
    }
    if z in prev {
      IsotopesMembers(init, z, a);
    } else {
      IsotopesKeys(init, z);
    }
    if last.0 == z {
      IsotopesMembersLast(order, z, a);
    }
  }

  /** The step of `IsotopesMembers` that adds the last key's A. */
  lemma IsotopesMembersLast(order: seq<(int, int)>, z: int, a: int)
    requires order != [] && order[|order| - 1].0 == z
    requires var init := order[..|order| - 1]; var prev := Isotopes(init);
      z in prev ==> (a in prev[z] <==> (z, a) in init)
    requires var init := order[..|order| - 1];
      z !in Isotopes(init) ==> (z, a) !in init
    ensures z in Isotopes(order)
    ensures a in Isotopes(order)[z] <==> (z, a) in order[..|order| - 1] || a == order[|order| - 1].1
  {
    var prev := Isotopes(order[..|order| - 1]);
    var list := if z in prev then prev[z] else [];
    IsotopesStepList(order);
    SortedAppendMembers(list, order[|order| - 1].1, a);
  }

  /** Appending and sorting adds exactly the one element. */
  lemma SortedAppendMembers(list: seq<int>, b: int, a: int)
    ensures a in Sort(list + [b], IntLe) <==> a in list || a == b
  {
    SortPermutes(list + [b], IntLe);
    assert a in Sort(list + [b], IntLe) <==> a in multiset(list + [b]);
  }

  /** For keys listed once each, every `isotopes[Z]` is strictly ascending. */
  lemma {:induction false} IsotopesAscending(order: seq<(int, int)>, z: int)
    requires Distinct(order) && z in Isotopes(order)
    ensures StrictlyAscending(Isotopes(order)[z], IntLe)
    decreases |order|
  {
    var init := order[..|order| - 1];
    var last := order[|order| - 1];
    var prev := Isotopes(init);
    assert Distinct(init);
    IsotopesStepKeys(order, z);
    if last.0 == z {
      IsotopesStepList(order);
      var list := if z in prev then prev[z] else [];
      assert Distinct(list + [last.1]) by {
        if z in prev {
          IsotopesAscending(init, z);
          IsotopesMembers(init, z, last.1);
          assert last !in init;
        }
        assert forall k :: 0 <= k < |list| ==> (list + [last.1])[k] == list[k];
      }
      NumberOrders();
      SortDistinct(list + [last.1], IntLe);
    } else {
      IsotopesAscending(init, z);
    }
  }

  /** `isotopes` built over the keys of the master dictionary lists, for
      each Z, exactly the mass numbers some record gives with that Z, in
      strictly ascending order. */
  lemma IsotopesOfIndex(lines: seq<WalletLine>, order: seq<(int, int)>, z: int, a: int)
    requires Distinct(order) && (forall k :: k in order <==> k in Build(lines))
    ensures var iso := Isotopes(order);
      && (z in iso ==> StrictlyAscending(iso[z], IntLe))
      && (z in iso && a in iso[z] <==> HasZA(lines, z, a))
  {
    BuildKeys(lines, z, a);
    IsotopesKeys(order, z);
    if z in Isotopes(order) {
      IsotopesAscending(order, z);
      IsotopesMembers(order, z, a);
    }
  }

  // -----------------------------------------------------------------------
  // `isomers(Z, A)`

  /** The energies of the states of (Z, A), listed in dictionary order by
      `keys()` and then sorted; a (Z, A) not in the dictionary raises. */
  function Isomers(idx: Index, z: int, a: int, order: seq<real>): (r: Result<seq<real>>)
    requires (z, a) in idx ==> Distinct(order) && forall e :: e in order <==> e in idx[(z, a)]
    ensures r.Err? <==> (z, a) !in idx
    ensures r.Err? ==> r.error == KeyError
    ensures r.Ok? ==> (StrictlyAscending(r.value, RealLe)
      && |r.value| == |idx[(z, a)]|
      && forall e :: e in r.value <==> e in idx[(z, a)])
  {
    if (z, a) !in idx then Err(KeyError)
    else
      NumberOrders();
      SortDistinct(order, RealLe);
      assert forall e :: e in order <==> e in idx[(z, a)].Keys;
      DistinctCardinality(order, idx[(z, a)].Keys);
      Ok(Sort(order, RealLe))
  }

  /** A list of distinct elements has as many elements as its set. */
  lemma {:induction false} DistinctCardinality<T>(s: seq<T>, keys: set<T>)
    requires Distinct(s) && forall x :: x in s <==> x in keys
    ensures |s| == |keys|
    decreases |s|
  {
    if s != [] {
      var init := s[..|s| - 1];
      var x := s[|s| - 1];
      assert Distinct(init);
      assert x !in init;
      forall y
        ensures y in init <==> y in keys - {x}
      {
        if y in init {
          var k :| 0 <= k < |init| && init[k] == y;
          assert s[k] == y;
        }
        if y in keys - {x} {
          var k :| 0 <= k < |s| && s[k] == y;
          assert k < |init|;
        }
      }
      DistinctCardinality(init, keys - {x});
    }
  }
}
