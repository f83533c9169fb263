/** The fixed-width layout main.py reads wallet-card lines with: fifteen
    column spans, each a half-open range of character positions (the last
    open-ended), and the name of the column each span fills. */
module ColumnLayout {
  import opened Outcomes
  import opened Text

  /** `colspecs`: start and end of each column; `None` is an open end. */
  const Colspecs: seq<(nat, Option<nat>)> := [
    (0, Some(4)), (4, Some(9)), (9, Some(13)), (13, Some(15)), (15, Some(32)),
    (32, Some(35)), (35, Some(42)), (42, Some(50)), (50, Some(57)), (57, Some(75)),
    (75, Some(99)), (99, Some(107)), (107, Some(115)), (115, Some(123)), (123, None)
  ]

  /** `column_names`, in the order of the spans. */
  const ColumnNames: seq<string> := [
    "mass_number", "atomic_number", "element_symbol", "quality_flag", "spin_parity",
    "decay_mode", "branching_ratio_percent", "q_value_uncertainty", "q_value_mev",
    "half_life", "abundance_info", "mass_excess_kev", "mass_excess_uncertainty",
    "reference", "half_life_seconds"
  ]

  /** Spans that start at column 0, each ending where the next begins,
      none empty, the last one open-ended. */
  predicate Tiles(specs: seq<(nat, Option<nat>)>) {
    && |specs| > 0
    && specs[0].0 == 0
    && specs[|specs| - 1].1.None?
    && forall i :: 0 <= i < |specs| - 1 ==>
         specs[i].1 == Some(specs[i + 1].0) && specs[i].0 < specs[i + 1].0
  }

  /** The text of one column: the characters in its span, clipped to the
      line. */
  function Field(line: string, span: (nat, Option<nat>)): string {
    match span.1
    case Some(end) => Slice(line, span.0, end)
    case None => Slice(line, span.0, |line|)
  }

  function FieldsOf(line: string, specs: seq<(nat, Option<nat>)>): (fs: seq<string>)
    ensures |fs| == |specs|
    ensures forall i :: 0 <= i < |specs| ==> fs[i] == Field(line, specs[i])
  {
    if specs == [] then [] else [Field(line, specs[0])] + FieldsOf(line, specs[1..])
  }

  /** The fifteen column texts of a wallet-card line. */
  function Fields(line: string): (fs: seq<string>)
    ensures |fs| == |ColumnNames|
  {
    ColumnsPaired();
    FieldsOf(line, Colspecs)
  }

  /** The layout tiles the line from column 0. */
  lemma ColspecsTile()
    ensures Tiles(Colspecs)
  {
    ColspecsMeet(0, 7);
    ColspecsMeet(7, 14);
  }

  /** Spans `lo` to `hi` each end where the next begins. */
  lemma ColspecsMeet(lo: nat, hi: nat)
    requires (lo, hi) == (0, 7) || (lo, hi) == (7, 14)
    ensures forall i :: lo <= i < hi ==>
      Colspecs[i].1 == Some(Colspecs[i + 1].0) && Colspecs[i].0 < Colspecs[i + 1].0
  {
  }

  lemma ColumnsPaired()
    ensures |Colspecs| == |ColumnNames| == 15
  {
  }

  lemma NamesDistinct()
    ensures forall i, j :: 0 <= i < j < |ColumnNames| ==> ColumnNames[i] != ColumnNames[j]
  {
  }

  /** Cutting the rest of the line at `b`. */
  lemma SliceSplit(line: string, a: nat, b: nat)
    requires a <= b
    ensures Slice(line, a, b) + Slice(line, b, |line|) == Slice(line, a, |line|)
  {
    if a < |line| && b < |line| {
      assert line[a..b] + line[b..] == line[a..];
    }
  }

  /** From the `k`-th span on, the fields of tiling spans put back
      together give the line from that span's start on. */
  lemma {:induction false} TiledFields(line: string, specs: seq<(nat, Option<nat>)>, k: nat)
    requires Tiles(specs) && k < |specs|
    ensures Concat(FieldsOf(line, specs)[k..]) == Slice(line, specs[k].0, |line|)
    decreases |specs| - k
  {
    var fs := FieldsOf(line, specs);
    if k == |specs| - 1 {
      assert fs[k..] == [Slice(line, specs[k].0, |line|)];
      assert Concat(fs[k..]) == Slice(line, specs[k].0, |line|) + Concat([]);
    } else {
      TiledFields(line, specs, k + 1);
      assert fs[k..][1..] == fs[k + 1..];
      SliceSplit(line, specs[k].0, specs[k + 1].0);
    }
  }

  /** Every character of a line lands in exactly one column, in order: the
      fields put back together are the line. */
  lemma FieldsCoverLine(line: string)
    ensures Concat(Fields(line)) == line
  {
    ColspecsTile();
    TiledFields(line, Colspecs, 0);
    assert Fields(line)[0..] == Fields(line);
    assert line[0..] == line;
  }

  /** The decay-mode column is characters 32 to 34. */
  lemma DecayModeColumn(line: string)
    ensures ColumnNames[5] == "decay_mode"
    ensures Fields(line)[5] == Slice(line, 32, 35)
  {
  }
}
