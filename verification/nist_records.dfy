/** The NIST isotope-composition file: blank-line separated records of
    `key = value` lines (isotope_data.py; nuclide_data.py repeats the same
    code).  The lines are given as the file yields them, each with its
    newline; `unc.ufloat` of a text is kept as that text, and whether it
    reads the text is a parameter. */
module NistRecords {
  import opened Outcomes
  import opened Text
  import opened Integers

  /** A value of a record: `ufloat(text)`, an `int`, or the text itself. */
  datatype Value = Uncertain(text: string) | Whole(n: int) | Raw(text: string)

  type Record = map<string, Value>

  // -----------------------------------------------------------------------
  // Chunking

  /** The chunking loop's state: the records closed so far and the lines
      of the record being read. */
  datatype Chunks = Chunks(closed: seq<seq<string>>, current: seq<string>)

  /** One line: a bare newline closes the current record; any other line
      is added to it without its trailing whitespace. */
  function ChunkStep(st: Chunks, line: string): Chunks {
    if line == "\n" then Chunks(st.closed + [st.current], [])
    else Chunks(st.closed, st.current + [RStrip(line)])
  }

  /** The loop over the lines from a given state. */
  function Run(st: Chunks, lines: seq<string>): Chunks
    decreases |lines|
  {
    if lines == [] then st else Run(ChunkStep(st, lines[0]), lines[1..])
  }

  /** `nist_isotope_raw_list`: the records of a file. */
  function RawChunks(lines: seq<string>): seq<seq<string>> {
    Run(Chunks([], []), lines).closed
  }

  function Blanks(lines: seq<string>): nat {
    if lines == [] then 0 else (if lines[0] == "\n" then 1 else 0) + Blanks(lines[1..])
  }

  lemma {:induction false} RunConcat(st: Chunks, xs: seq<string>, ys: seq<string>)
    ensures Run(st, xs + ys) == Run(Run(st, xs), ys)
    decreases |xs|
  {
    if xs != [] {
      assert (xs + ys)[0] == xs[0] && (xs + ys)[1..] == xs[1..] + ys;
      assert Run(st, xs + ys) == Run(ChunkStep(st, xs[0]), xs[1..] + ys);
      assert Run(st, xs) == Run(ChunkStep(st, xs[0]), xs[1..]);
      RunConcat(ChunkStep(st, xs[0]), xs[1..], ys);
    } else {
      assert xs + ys == ys;
    }
  }

  /** Every blank line closes exactly one record, and records once closed
      stay as they are. */
  lemma {:induction false} RunCounts(st: Chunks, lines: seq<string>)
    ensures |Run(st, lines).closed| == |st.closed| + Blanks(lines)
    ensures Run(st, lines).closed[..|st.closed|] == st.closed
    decreases |lines|
  {
    if lines != [] {
      RunCounts(ChunkStep(st, lines[0]), lines[1..]);
      var next := ChunkStep(st, lines[0]);
      assert next.closed[..|st.closed|] == st.closed;
      assert Run(st, lines).closed[..|next.closed|][..|st.closed|] == Run(st, lines).closed[..|st.closed|];
    }
  }

  /** As many records as blank lines. */
  lemma RecordCount(lines: seq<string>)
    ensures |RawChunks(lines)| == Blanks(lines)
  {
    RunCounts(Chunks([], []), lines);
  }

  /** Lines after the last blank line never form a record. */
  lemma {:induction false} TrailingLinesDropped(st: Chunks, tail: seq<string>)
    requires "\n" !in tail
    ensures Run(st, tail).closed == st.closed
    decreases |tail|
  {
    if tail != [] {
      assert tail[0] != "\n" && "\n" !in tail[1..];
      TrailingLinesDropped(ChunkStep(st, tail[0]), tail[1..]);
    }
  }

  lemma UnterminatedRecordDropped(lines: seq<string>, tail: seq<string>)
    requires "\n" !in tail
    ensures RawChunks(lines + tail) == RawChunks(lines)
  {
    RunConcat(Chunks([], []), lines, tail);
    TrailingLinesDropped(Run(Chunks([], []), lines), tail);
  }

  /** A record line as the file holds it: not empty and not ending in
      whitespace, so that it is not a blank line and `rstrip` keeps it. */
  predicate Clean(l: string) {
    l != [] && !IsSpace(l[|l| - 1])
  }

  /** A record's lines, each with its newline. */
  function Terminated(r: seq<string>): seq<string> {
    if r == [] then [] else [r[0] + "\n"] + Terminated(r[1..])
  }

  /** The file that holds the given records, each followed by a blank
      line. */
  function Render(rs: seq<seq<string>>): seq<string> {
    if rs == [] then [] else Terminated(rs[0]) + ["\n"] + Render(rs[1..])
  }

  lemma CleanLineKept(l: string)
    requires Clean(l)
    ensures l + "\n" != "\n" && RStrip(l + "\n") == l
  {
    var t := l + "\n";
    assert t[|t| - 1] == '\n' && t[..|t| - 1] == l;
    assert TrailingEnd(t) == TrailingEnd(l) == |l|;
  }

  lemma {:induction false} RunRecordLines(c: seq<seq<string>>, cur: seq<string>, r: seq<string>)
    requires forall i :: 0 <= i < |r| ==> Clean(r[i])
    ensures Run(Chunks(c, cur), Terminated(r)) == Chunks(c, cur + r)
    decreases |r|
  {
    if r == [] {
      assert cur + [] == cur;
    } else {
      CleanLineKept(r[0]);
      RunRecordLines(c, cur + [r[0]], r[1..]);
      assert cur + [r[0]] + r[1..] == cur + r;
    }
  }

  /** Reading a file written from records gives the records back. */
  lemma {:induction false} RunRender(c: seq<seq<string>>, rs: seq<seq<string>>)
    requires forall k, i :: 0 <= k < |rs| && 0 <= i < |rs[k]| ==> Clean(rs[k][i])
    ensures Run(Chunks(c, []), Render(rs)) == Chunks(c + rs, [])
    decreases |rs|
  {
    if rs == [] {
      assert c + [] == c;
    } else {
      RunConcat(Chunks(c, []), Terminated(rs[0]) + ["\n"], Render(rs[1..]));
      RunConcat(Chunks(c, []), Terminated(rs[0]), ["\n"]);
      RunRecordLines(c, [], rs[0]);
      assert [] + rs[0] == rs[0];
      assert Run(Chunks(c, rs[0]), ["\n"]) == Chunks(c + [rs[0]], []);
      RunRender(c + [rs[0]], rs[1..]);
      assert c + [rs[0]] + rs[1..] == c + rs;
    }
  }

  lemma ChunksOfRender(rs: seq<seq<string>>)
    requires forall k, i :: 0 <= k < |rs| && 0 <= i < |rs[k]| ==> Clean(rs[k][i])
    ensures RawChunks(Render(rs)) == rs
  {
    RunRender([], rs);
    assert [] + rs == rs;
  }

  /** Two blank lines in a row make an empty record. */
  lemma BlankLinesMakeEmptyRecords()
    ensures RawChunks(["\n", "\n"]) == [[], []]
  {
    ChunksOfRender([[], []]);
    assert Render([[], []]) == ["\n", "\n"];
  }

  // -----------------------------------------------------------------------
  // Lines and values

  /** `split_line`, unpacked into `k, v`: exactly one `=` or `ValueError`. */
  function SplitLine(line: string): (r: Result<(string, string)>)
    ensures r.Err? ==> r.error == ValueError
  {
    var parts := Split(line, '=');
    if |parts| != 2 then Err(ValueError) else Ok((Strip(parts[0]), Strip(parts[1])))
  }

  /** A line splits exactly when it holds one `=`. */
  lemma SplitLineOk(line: string)
    ensures SplitLine(line).Ok? <==> Count(line, '=') == 1
  {
  }

  /** A key and a value written around one `=` are read back stripped. */
  lemma SplitLineRoundTrip(k: string, v: string)
    requires '=' !in k && '=' !in v
    ensures SplitLine(k + "=" + v) == Ok((Strip(k), Strip(v)))
  {
    assert Join([k, v], "=") == k + "=" + v by {
      assert Join([v], "=") == v;
      assert [k, v][1..] == [v];
    }
    SplitJoin([k, v], '=');
  }

  /** Whether `unc.ufloat` reads a text (such as `1.00782503207(10)`) as a
      number with an uncertainty; it raises `ValueError` on any other text.
      Its grammar is not part of this model, so callers supply it. */
  type UfloatReader = string -> bool

  /** The text given to `ufloat`: the value with one trailing `#` dropped. */
  function Unhashed(v: string): string {
    if EndsWith(v, '#') then v[..|v| - 1] else v
  }

  /** The classification of `parse_one_chunk`: text with a `.` is an
      uncertain number (one trailing `#` dropped first), otherwise an `int`
      if it reads as one, otherwise the text. */
  function Classify(v: string, ufloat: UfloatReader): (r: Result<Value>)
    ensures r.Err? ==> r.error == ValueError
  {
    if '.' in v then
      var t := Unhashed(v);
      if ufloat(t) then Ok(Uncertain(t)) else Err(ValueError)
    else match ParseInt(v)
      case Some(n) => Ok(Whole(n))
      case None => Ok(Raw(v))
  }

  /** The three kinds, by what the text holds, and the one failure. */
  lemma ClassifyKinds(v: string, ufloat: UfloatReader)
    ensures Classify(v, ufloat).Err? <==> '.' in v && !ufloat(Unhashed(v))
    ensures Classify(v, ufloat) == Ok(Uncertain(Unhashed(v))) <==> '.' in v && ufloat(Unhashed(v))
    ensures Classify(v, ufloat).Ok? && Classify(v, ufloat).value.Whole? <==> '.' !in v && ParseInt(v).Some?
    ensures Classify(v, ufloat).Ok? && Classify(v, ufloat).value.Whole? ==>
      Some(Classify(v, ufloat).value.n) == ParseInt(v)
    ensures Classify(v, ufloat).Ok? && Classify(v, ufloat).value.Raw? ==> Classify(v, ufloat).value.text == v
  {
  }

  /** A written integer is classified as that integer. */
  lemma ClassifyInteger(n: int, ufloat: UfloatReader)
    ensures Classify(IntToString(n), ufloat) == Ok(Whole(n))
  {
    ParseIntToString(n);
    assert '.' !in IntToString(n) by {
      if n < 0 {
        assert IntToString(n) == "-" + NatToString(-n);
      }
    }
  }

  /** Exactly one trailing `#` is dropped from an uncertain number before
      `ufloat` reads it. */
  lemma ClassifyHash(t: string, ufloat: UfloatReader)
    requires '.' in t
    ensures Classify(t + "#", ufloat) == if ufloat(t) then Ok(Uncertain(t)) else Err(ValueError)
    ensures Classify(t + "##", ufloat) == if ufloat(t + "#") then Ok(Uncertain(t + "#")) else Err(ValueError)
  {
    assert (t + "#")[..|t|] == t;
    assert t + "##" == (t + "#") + "#";
    assert (t + "##")[..|t| + 1] == t + "#";
  }

  /** Text that is neither a number nor holds a `.` stays text. */
  lemma ClassifyText(v: string, ufloat: UfloatReader)
    requires '.' !in v && ParseInt(v).None?
    ensures Classify(v, ufloat) == Ok(Raw(v))
  {
  }

  /** `k = - 5` stores the int -5: `int()` skips the space after the sign. */
  lemma ClassifySpacedSign(ufloat: UfloatReader)
    ensures Classify("- 5", ufloat) == Ok(Whole(-5))
  {
    MinusSpaceFive();
    assert '.' !in "- 5";
  }

  /** One line of `parse_one_chunk`: split, then classify the value. */
  function ParseLine(line: string, ufloat: UfloatReader): (r: Result<(string, Value)>)
    ensures r.Ok? <==> SplitLine(line).Ok? && Classify(SplitLine(line).value.1, ufloat).Ok?
    ensures r.Err? ==> r.error == ValueError
  {
    var (k, v) :- SplitLine(line);
    var x :- Classify(v, ufloat);
    Ok((k, x))
  }

  function LineParser(ufloat: UfloatReader): string -> Result<(string, Value)> {
    line => ParseLine(line, ufloat)
  }

  /** `parse_one_chunk`: every line split and classified in turn (the first
      line without exactly one `=`, or whose dotted value `ufloat` rejects,
      raises), then stored under its key, a later line overwriting an
      earlier one with the same key. */
  function ParseChunk(chunk: seq<string>, ufloat: UfloatReader): (r: Result<Record>)
    ensures r.Ok? <==> forall i :: 0 <= i < |chunk| ==>
      SplitLine(chunk[i]).Ok? && Classify(SplitLine(chunk[i]).value.1, ufloat).Ok?
    ensures r.Err? ==> r.error == ValueError
  {
    var entries :- ParseEach(LineParser(ufloat), chunk);
    Ok(Store(entries, |entries|))
  }

  /** The dictionary after the first `n` entries. */
  function Store<V>(entries: seq<(string, V)>, n: nat): map<string, V>
    requires n <= |entries|
  {
    if n == 0 then map[] else Store(entries, n - 1)[entries[n - 1].0 := entries[n - 1].1]
  }

  /** Entry `i` is the last of the first `n` with its key. */
  predicate LastWithKey<V>(entries: seq<(string, V)>, i: nat, n: nat)
    requires i < n <= |entries|
  {
    forall j :: i < j < n ==> entries[j].0 != entries[i].0
  }

  /** The keys stored are the keys of the entries. */
  lemma {:induction false} StoreKeys<V>(entries: seq<(string, V)>, n: nat)
    requires n <= |entries|
    ensures forall k :: k in Store(entries, n) <==> exists i :: 0 <= i < n && entries[i].0 == k
  {
    if n > 0 {
      StoreKeys(entries, n - 1);
    }
  }

  /** Each key holds the value of the last entry with that key. */
  lemma {:induction false} StoreValues<V>(entries: seq<(string, V)>, n: nat)
    requires n <= |entries|
    ensures forall i :: 0 <= i < n && LastWithKey(entries, i, n) ==>
      entries[i].0 in Store(entries, n) && Store(entries, n)[entries[i].0] == entries[i].1
  {
    if n > 0 {
      StoreValues(entries, n - 1);
      forall i | 0 <= i < n - 1 && LastWithKey(entries, i, n)
        ensures LastWithKey(entries, i, n - 1)
      {
      }
    }
  }

  /** The keys of a record are the keys of its lines, and each holds the
      classified value of the last line with that key. */
  lemma ParseChunkContents(chunk: seq<string>, ufloat: UfloatReader)
    requires ParseChunk(chunk, ufloat).Ok?
    ensures var es := ParseEach(LineParser(ufloat), chunk).value;
      && |es| == |chunk|
      && (forall i :: 0 <= i < |chunk| ==>
            es[i] == (SplitLine(chunk[i]).value.0, Classify(SplitLine(chunk[i]).value.1, ufloat).value))
      && (forall k :: k in ParseChunk(chunk, ufloat).value <==> exists i :: 0 <= i < |chunk| && es[i].0 == k)
      && (forall i :: 0 <= i < |chunk| && LastWithKey(es, i, |chunk|) ==>
            ParseChunk(chunk, ufloat).value[es[i].0] == es[i].1)
  {
    var es := ParseEach(LineParser(ufloat), chunk).value;
    StoreKeys(es, |es|);
    StoreValues(es, |es|);
  }

  // -----------------------------------------------------------------------
  // Grouping

  const AtomicNumber: string := "Atomic Number"

  predicate AllNumbered(rs: seq<Record>) {
    forall i :: 0 <= i < |rs| ==> AtomicNumber in rs[i]
  }

  /** The reference: the first `n` records' records of element `z`, in
      input order. */
  function OfElement(rs: seq<Record>, z: Value, n: nat): seq<Record>
    requires AllNumbered(rs) && n <= |rs|
  {
    if n == 0 then []
    else OfElement(rs, z, n - 1) + (if rs[n - 1][AtomicNumber] == z then [rs[n - 1]] else [])
  }

  /** `nist_per_element`: each record appended to the list of its atomic
      number; a record without one raises `KeyError`. */
  function Group(rs: seq<Record>): (r: Result<map<Value, seq<Record>>>)
    ensures r.Err? ==> r.error == KeyError
  {
    GroupUpTo(rs, |rs|)
  }

  /** The grouping loop after its first `n` records. */
  function GroupUpTo(rs: seq<Record>, n: nat): (r: Result<map<Value, seq<Record>>>)
    requires n <= |rs|
    ensures r.Err? ==> r.error == KeyError
  {
    if n == 0 then Ok(map[])
    else
      var m :- GroupUpTo(rs, n - 1);
      var r := rs[n - 1];
      if AtomicNumber !in r then Err(KeyError)
      else
        var z := r[AtomicNumber];
        Ok(if z in m then m[z := m[z] + [r]] else m[z := [r]])
  }

  lemma {:induction false} GroupUpToOk(rs: seq<Record>, n: nat)
    requires n <= |rs|
    ensures GroupUpTo(rs, n).Ok? <==> forall i :: 0 <= i < n ==> AtomicNumber in rs[i]
  {
    if n > 0 {
      GroupUpToOk(rs, n - 1);
    }
  }

  /** Grouping fails exactly when some record has no atomic number. */
  lemma GroupOk(rs: seq<Record>)
    ensures Group(rs).Ok? <==> AllNumbered(rs)
  {
    GroupUpToOk(rs, |rs|);
  }

  lemma {:induction false} GroupUpToKeys(rs: seq<Record>, n: nat)
    requires AllNumbered(rs) && n <= |rs|
    ensures GroupUpTo(rs, n).Ok?
    ensures forall z :: z in GroupUpTo(rs, n).value <==> exists i :: 0 <= i < n && rs[i][AtomicNumber] == z
  {
    GroupUpToOk(rs, n);
    if n > 0 {
      GroupUpToKeys(rs, n - 1);
    }
  }

  lemma {:induction false} GroupUpToLists(rs: seq<Record>, n: nat)
    requires AllNumbered(rs) && n <= |rs|
    ensures GroupUpTo(rs, n).Ok?
    ensures forall z :: z in GroupUpTo(rs, n).value ==> GroupUpTo(rs, n).value[z] == OfElement(rs, z, n)
  {
    GroupUpToOk(rs, n);
    if n > 0 {
      GroupUpToLists(rs, n - 1);
      GroupUpToKeys(rs, n - 1);
      var m := GroupUpTo(rs, n - 1).value;
      var z0 := rs[n - 1][AtomicNumber];
      if z0 !in m {
        OfElementAbsent(rs, z0, n - 1);
        assert OfElement(rs, z0, n) == [] + [rs[n - 1]];
      }
      forall z | z in GroupUpTo(rs, n).value && z != z0
        ensures GroupUpTo(rs, n).value[z] == OfElement(rs, z, n)
      {
        assert OfElement(rs, z, n) == OfElement(rs, z, n - 1) + [];
      }
    }
  }

  lemma {:induction false} OfElementAbsent(rs: seq<Record>, z: Value, n: nat)
    requires AllNumbered(rs) && n <= |rs|
    requires forall i :: 0 <= i < n ==> rs[i][AtomicNumber] != z
    ensures OfElement(rs, z, n) == []
  {
    if n > 0 {
      OfElementAbsent(rs, z, n - 1);
    }
  }

  /** There is a list for exactly the atomic numbers that occur, and each
      holds that element's records in input order. */
  lemma GroupContents(rs: seq<Record>)
    requires AllNumbered(rs)
    ensures Group(rs).Ok?
    ensures forall z :: z in Group(rs).value <==> exists i :: 0 <= i < |rs| && rs[i][AtomicNumber] == z
    ensures forall z :: z in Group(rs).value ==> Group(rs).value[z] == OfElement(rs, z, |rs|)
  {
    GroupUpToKeys(rs, |rs|);
    GroupUpToLists(rs, |rs|);
  }

  /** The reference list of `z` holds every record of element `z` and no
      other, so each record is in exactly one list. */
  lemma {:induction false} OfElementExactly(rs: seq<Record>, z: Value, n: nat)
    requires AllNumbered(rs) && n <= |rs|
    ensures forall x :: x in OfElement(rs, z, n) ==> AtomicNumber in x && x[AtomicNumber] == z
    ensures forall i :: 0 <= i < n && rs[i][AtomicNumber] == z ==> rs[i] in OfElement(rs, z, n)
  {
    if n > 0 {
      OfElementExactly(rs, z, n - 1);
    }
  }

  /** The whole pipeline from the file's lines to the per-element lists:
      it fails on the first record with a malformed line, else exactly when
      a record has no atomic number. */
  function PerElement(lines: seq<string>, ufloat: UfloatReader): (r: Result<map<Value, seq<Record>>>)
    ensures r.Ok? ==> forall k :: 0 <= k < |RawChunks(lines)| ==> ParseChunk(RawChunks(lines)[k], ufloat).Ok?
  {
    var records :- ParseEach(c => ParseChunk(c, ufloat), RawChunks(lines));
    Group(records)
  }
}
