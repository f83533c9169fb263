/** The decay-mode column of main.py: `expand_decay_mode` turns the
    abbreviated decay modes of a wallet-card line into their full names,
    with the experimental-condition markers listed after them, and
    `get_decay_mode_mapping` is the table of abbreviations.

    A value pandas reads as missing is `None`.  Whitespace is only
    ' \t\n\r\x0b\x0c', for `str.strip()` and for `\s` alike. */
module DecayModes {
  import opened Outcomes
  import opened Text

  /** `get_decay_mode_mapping()`. */
  const DecayModeNames: map<string, string> := map[
    "B-" := "Beta minus decay",
    "B+" := "Beta plus decay",
    "EC" := "Electron capture",
    "IT" := "Isomeric transition",
    "A" := "Alpha decay",
    "P" := "Proton emission",
    "N" := "Neutron emission",
    "2N" := "Two neutron emission",
    "3N" := "Three neutron emission",
    "4N" := "Four neutron emission",
    "2P" := "Two proton emission",
    "3P" := "Three proton emission",
    "SF" := "Spontaneous fission",
    "BN" := "Beta minus + neutron emission",
    "B2N" := "Beta minus + two neutron emission",
    "BNA" := "Beta minus + neutron + alpha",
    "BA" := "Beta minus + alpha",
    "BP" := "Beta plus + proton",
    "B2P" := "Beta plus + two proton",
    "ECP" := "Electron capture + proton",
    "EP" := "Electron capture + proton",
    "EC2P" := "Electron capture + two proton",
    "ECA" := "Electron capture + alpha",
    "EA" := "Electron capture + alpha",
    "ECBP" := "Electron capture + beta plus",
    "PA" := "Proton + alpha emission",
    "2A" := "Two alpha decay",
    "3A" := "Three alpha decay",
    "14C" := "Carbon-14 cluster decay",
    "20O" := "Oxygen-20 cluster decay",
    "O" := "Oxygen cluster decay",
    "22NE" := "Neon-22 cluster decay",
    "Ne" := "Neon cluster decay",
    "24NE" := "Neon-24 cluster decay",
    "25NE" := "Neon-25 cluster decay",
    "28MG" := "Magnesium-28 cluster decay",
    "Mg" := "Magnesium cluster decay",
    "34SI" := "Silicon-34 cluster decay",
    "Si" := "Silicon cluster decay",
    "BF" := "Beta delayed fission",
    "EF" := "Electron capture delayed fission",
    "2C" := "Two carbon cluster decay",
    "4C" := "Four carbon cluster decay"
  ]

  /** The markers in the order the source tests them, with their labels. */
  const Markers: seq<(char, string)> := [
    ('?', "uncertain"),
    ('#', "extrapolated"),
    ('&', "from systematics"),
    ('<', "less than"),
    ('>', "greater than"),
    ('@', "estimated")
  ]

  predicate IsMarker(c: char) {
    c == '?' || c == '#' || c == '&' || c == '<' || c == '>' || c == '@'
  }

  /** The characters `re.split(r'[,\s]+', ...)` splits at. */
  predicate IsSeparator(c: char) {
    c == ',' || IsSpace(c)
  }

  // -----------------------------------------------------------------------
  // Markers

  /** `s` without any of the characters in `cs`. */
  function Without(s: string, cs: seq<char>): string {
    if s == [] then []
    else (if s[0] in cs then [] else [s[0]]) + Without(s[1..], cs)
  }

  lemma {:induction false} WithoutMembers(s: string, cs: seq<char>)
    ensures forall d :: d in Without(s, cs) <==> d in s && d !in cs
    decreases |s|
  {
    if s != [] {
      WithoutMembers(s[1..], cs);
      assert forall d :: d in s <==> d == s[0] || d in s[1..];
    }
  }

  /** The marker characters, in table order. */
  const AllMarkers: seq<char> := ['?', '#', '&', '<', '>', '@']

  /** The six marker tests from the `k`-th on: each marker found adds its
      label and is removed everywhere. */
  function TakeMarkers(s: string, flags: seq<string>, k: nat): (string, seq<string>)
    requires k <= |Markers|
    decreases |Markers| - k
  {
    if k == |Markers| then (s, flags)
    else
      var c := Markers[k].0;
      if c in s then TakeMarkers(Remove(s, c), flags + [Markers[k].1], k + 1)
      else TakeMarkers(s, flags, k + 1)
  }

  /** The reference list of labels: those of the markers that occur in `s`,
      in table order. */
  function PresentLabels(s: string, k: nat): seq<string>
    requires k <= |Markers|
    decreases |Markers| - k
  {
    if k == |Markers| then []
    else (if Markers[k].0 in s then [Markers[k].1] else []) + PresentLabels(s, k + 1)
  }

  lemma {:induction false} RemoveIsWithout(s: string, cs: seq<char>, c: char)
    ensures Remove(Without(s, cs), c) == Without(s, cs + [c])
    decreases |s|
  {
    if s != [] {
      RemoveIsWithout(s[1..], cs, c);
      assert s[0] in cs + [c] <==> s[0] in cs || s[0] == c;
      if s[0] in cs {
        assert Without(s, cs) == Without(s[1..], cs);
        assert Without(s, cs + [c]) == Without(s[1..], cs + [c]);
      } else {
        var w := Without(s, cs);
        assert w == [s[0]] + Without(s[1..], cs);
        assert w[0] == s[0] && w[1..] == Without(s[1..], cs);
        assert Remove(w, c) == (if s[0] == c then [] else [s[0]]) + Remove(w[1..], c);
        assert Without(s, cs + [c]) == (if s[0] == c then [] else [s[0]]) + Without(s[1..], cs + [c]);
      }
    }
  }

  lemma {:induction false} WithoutAbsent(s: string, cs: seq<char>, c: char)
    requires c !in s
    ensures Without(s, cs + [c]) == Without(s, cs)
    decreases |s|
  {
    if s != [] {
      assert s[0] != c && s[0] in cs + [c] <==> s[0] in cs;
      WithoutAbsent(s[1..], cs, c);
    }
  }

  lemma {:induction false} WithoutNothing(s: string)
    ensures Without(s, []) == s
    decreases |s|
  {
    if s != [] {
      WithoutNothing(s[1..]);
    }
  }

  /** One marker test, on the string with the earlier markers removed. */
  lemma MarkerStep(s: string, k: nat)
    requires k < |Markers|
    ensures AllMarkers[..k + 1] == AllMarkers[..k] + [Markers[k].0]
    ensures Markers[k].0 in Without(s, AllMarkers[..k]) <==> Markers[k].0 in s
  {
    assert AllMarkers[..k + 1] == AllMarkers[..k] + [AllMarkers[k]];
    WithoutMembers(s, AllMarkers[..k]);
  }

  /** The marker tests, from the `k`-th on, applied to the string with the
      first `k` markers already removed: the labels added are those of the
      markers present in the original, and every marker ends up removed. */
  lemma {:induction false} TakeMarkersInvariant(s: string, flags: seq<string>, k: nat)
    requires k <= |Markers|
    ensures TakeMarkers(Without(s, AllMarkers[..k]), flags, k)
      == (Without(s, AllMarkers), flags + PresentLabels(s, k))
    decreases |Markers| - k
  {
    if k < |Markers| {
      if Markers[k].0 in s {
        TakeMarkersInvariant(s, flags + [Markers[k].1], k + 1);
        PresentCase(s, flags, k);
      } else {
        TakeMarkersInvariant(s, flags, k + 1);
        AbsentCase(s, flags, k);
      }
    } else {
      MarkersDone(s, flags);
    }
  }

  /** The invariant's step when the `k`-th marker occurs. */
  lemma PresentCase(s: string, flags: seq<string>, k: nat)
    requires k < |Markers| && Markers[k].0 in s
    requires TakeMarkers(Without(s, AllMarkers[..k + 1]), flags + [Markers[k].1], k + 1)
      == (Without(s, AllMarkers), flags + [Markers[k].1] + PresentLabels(s, k + 1))
    ensures TakeMarkers(Without(s, AllMarkers[..k]), flags, k)
      == (Without(s, AllMarkers), flags + PresentLabels(s, k))
  {
    MarkerPresent(s, flags, k);
    assert flags + [Markers[k].1] + PresentLabels(s, k + 1) == flags + PresentLabels(s, k);
  }

  /** The invariant's step when the `k`-th marker does not occur. */
  lemma AbsentCase(s: string, flags: seq<string>, k: nat)
    requires k < |Markers| && Markers[k].0 !in s
    requires TakeMarkers(Without(s, AllMarkers[..k + 1]), flags, k + 1)
      == (Without(s, AllMarkers), flags + PresentLabels(s, k + 1))
    ensures TakeMarkers(Without(s, AllMarkers[..k]), flags, k)
      == (Without(s, AllMarkers), flags + PresentLabels(s, k))
  {
    MarkerAbsent(s, flags, k);
  }

  /** After the last test nothing changes. */
  lemma MarkersDone(s: string, flags: seq<string>)
    ensures TakeMarkers(Without(s, AllMarkers[..|Markers|]), flags, |Markers|)
      == (Without(s, AllMarkers), flags + PresentLabels(s, |Markers|))
  {
    MarkerTable();
    assert AllMarkers[..|Markers|] == AllMarkers;
    assert flags + [] == flags;
  }

  /** The `k`-th test when its marker occurs: the marker is removed and
      its label added. */
  lemma MarkerPresent(s: string, flags: seq<string>, k: nat)
    requires k < |Markers| && Markers[k].0 in s
    ensures TakeMarkers(Without(s, AllMarkers[..k]), flags, k)
      == TakeMarkers(Without(s, AllMarkers[..k + 1]), flags + [Markers[k].1], k + 1)
    ensures PresentLabels(s, k) == [Markers[k].1] + PresentLabels(s, k + 1)
  {
    MarkerStep(s, k);
    RemoveIsWithout(s, AllMarkers[..k], Markers[k].0);
  }

  /** The `k`-th test when its marker does not occur: nothing changes. */
  lemma MarkerAbsent(s: string, flags: seq<string>, k: nat)
    requires k < |Markers| && Markers[k].0 !in s
    ensures TakeMarkers(Without(s, AllMarkers[..k]), flags, k)
      == TakeMarkers(Without(s, AllMarkers[..k + 1]), flags, k + 1)
    ensures PresentLabels(s, k) == PresentLabels(s, k + 1)
  {
    MarkerStep(s, k);
    WithoutAbsent(s, AllMarkers[..k], Markers[k].0);
    assert PresentLabels(s, k) == [] + PresentLabels(s, k + 1);
  }

  /** The marker table and the marker characters agree. */
  lemma MarkerTable()
    ensures |AllMarkers| == |Markers|
    ensures forall i :: 0 <= i < |Markers| ==> Markers[i].0 == AllMarkers[i]
    ensures forall c :: c in AllMarkers <==> IsMarker(c)
  {
  }

  /** Running the six tests on `s` collects the labels of exactly the
      markers that occur in `s`, in table order, and leaves `s` with every
      marker removed and all other characters in place. */
  lemma MarkersTaken(s: string)
    ensures TakeMarkers(s, [], 0) == (Without(s, AllMarkers), PresentLabels(s, 0))
    ensures forall c :: c in TakeMarkers(s, [], 0).0 <==> c in s && !IsMarker(c)
  {
    TakeMarkersFromStart(s);
    WithoutMembers(s, AllMarkers);
    MarkerTable();
  }

  lemma TakeMarkersFromStart(s: string)
    ensures TakeMarkers(s, [], 0) == (Without(s, AllMarkers), PresentLabels(s, 0))
  {
    assert AllMarkers[..0] == [];
    WithoutNothing(s);
    TakeMarkersInvariant(s, [], 0);
    assert [] + PresentLabels(s, 0) == PresentLabels(s, 0);
  }

  /** A label is listed exactly when some marker occurs. */
  lemma {:induction false} PresentLabelsExact(s: string, k: nat)
    requires k <= |Markers|
    ensures PresentLabels(s, k) == [] <==> forall i :: k <= i < |Markers| ==> AllMarkers[i] !in s
    decreases |Markers| - k
  {
    MarkerTable();
    if k < |Markers| {
      PresentLabelsExact(s, k + 1);
    }
  }

  lemma NoLabelsNoMarkers(s: string)
    ensures PresentLabels(s, 0) == [] <==> forall c :: c in s ==> !IsMarker(c)
  {
    PresentLabelsExact(s, 0);
    MarkerTable();
    if exists c :: c in s && IsMarker(c) {
      var c :| c in s && IsMarker(c);
      var i :| 0 <= i < |AllMarkers| && AllMarkers[i] == c;
    }
  }

  /** The labels depend only on which markers occur, not on where or in
      what order they were written. */
  lemma {:induction false} LabelsIgnoreOrder(s: string, t: string, k: nat)
    requires k <= |Markers|
    requires forall i :: k <= i < |Markers| ==> (Markers[i].0 in s <==> Markers[i].0 in t)
    ensures PresentLabels(s, k) == PresentLabels(t, k)
    decreases |Markers| - k
  {
    if k < |Markers| {
      LabelsIgnoreOrder(s, t, k + 1);
    }
  }

  lemma LabelsDistinct()
    ensures forall i, j :: 0 <= i < j < |Markers| ==> Markers[i].1 != Markers[j].1
  {
  }

  /** Every label listed belongs to a marker from the `k`-th on, and none is
      listed twice. */
  lemma {:induction false} LabelsOnce(s: string, k: nat)
    requires k <= |Markers|
    ensures forall l :: l in PresentLabels(s, k) ==> exists i :: k <= i < |Markers| && Markers[i].1 == l
    ensures forall i, j :: 0 <= i < j < |PresentLabels(s, k)| ==> PresentLabels(s, k)[i] != PresentLabels(s, k)[j]
    decreases |Markers| - k
  {
    if k < |Markers| {
      LabelsOnce(s, k + 1);
      var rest := PresentLabels(s, k + 1);
      if Markers[k].0 in s {
        LabelsDistinct();
        assert Markers[k].1 !in rest;
        LabelAhead(Markers[k].1, rest);
      } else {
        assert PresentLabels(s, k) == rest;
      }
    }
  }

  lemma LabelAhead(l: string, rest: seq<string>)
    requires l !in rest
    requires forall i, j :: 0 <= i < j < |rest| ==> rest[i] != rest[j]
    ensures forall i, j :: 0 <= i < j < |[l] + rest| ==> ([l] + rest)[i] != ([l] + rest)[j]
  {
    var r := [l] + rest;
    forall i, j | 0 <= i < j < |r|
      ensures r[i] != r[j]
    {
      if i == 0 {
        assert r[j] == rest[j - 1];
      } else {
        assert r[i] == rest[i - 1] && r[j] == rest[j - 1];
      }
    }
  }

  // -----------------------------------------------------------------------
  // Tokens

  /** Splitting at every separator character; a run of separators leaves
      empty pieces between them. */
  function Pieces(s: string): (ps: seq<string>)
    ensures |ps| >= 1
    ensures forall i :: 0 <= i < |ps| ==> forall c :: c in ps[i] ==> !IsSeparator(c)
  {
    if s == [] then [[]]
    else
      var rest := Pieces(s[1..]);
      if IsSeparator(s[0]) then [[]] + rest
      else [[s[0]] + rest[0]] + rest[1..]
  }

  function NonEmpty(ps: seq<string>): (r: seq<string>)
    ensures forall i :: 0 <= i < |r| ==> r[i] != [] && r[i] in ps
  {
    if ps == [] then []
    else (if ps[0] == [] then [] else [ps[0]]) + NonEmpty(ps[1..])
  }

  /** `re.split(r'[,\s]+', s)` with its empty pieces dropped: the maximal
      runs of characters that are neither a comma nor whitespace. */
  function Tokens(s: string): (ts: seq<string>)
    ensures forall i :: 0 <= i < |ts| ==> ts[i] != []
    ensures forall i :: 0 <= i < |ts| ==> forall c :: c in ts[i] ==> !IsSeparator(c)
  {
    NonEmpty(Pieces(s))
  }

  /** `s` without its separators. */
  function Unseparated(s: string): string {
    if s == [] then []
    else (if IsSeparator(s[0]) then [] else [s[0]]) + Unseparated(s[1..])
  }

  lemma {:induction false} PiecesConcat(s: string)
    ensures Concat(Pieces(s)) == Unseparated(s)
    decreases |s|
  {
    if s != [] {
      PiecesConcat(s[1..]);
      var rest := Pieces(s[1..]);
      if IsSeparator(s[0]) {
        assert ([[]] + rest)[1..] == rest;
      } else {
        var ps := [[s[0]] + rest[0]] + rest[1..];
        assert ps[1..] == rest[1..];
        assert Concat(rest) == rest[0] + Concat(rest[1..]);
      }
    }
  }

  lemma {:induction false} NonEmptyConcat(ps: seq<string>)
    ensures Concat(NonEmpty(ps)) == Concat(ps)
    decreases |ps|
  {
    if ps != [] {
      NonEmptyConcat(ps[1..]);
      var tail := NonEmpty(ps[1..]);
      if ps[0] != [] {
        assert NonEmpty(ps) == [ps[0]] + tail;
        assert ([ps[0]] + tail)[1..] == tail;
      } else {
        assert NonEmpty(ps) == tail;
        assert Concat(ps) == [] + Concat(ps[1..]);
      }
    }
  }

  /** The tokens hold every character of `s` that is not a separator, in
      order: nothing is lost or reordered. */
  lemma TokensKeepText(s: string)
    ensures Concat(Tokens(s)) == Unseparated(s)
  {
    NonEmptyConcat(Pieces(s));
    PiecesConcat(s);
  }

  predicate IsWord(w: string) {
    w != [] && forall c :: c in w ==> !IsSeparator(c)
  }

  /** A word followed by more text starts the pieces of the whole. */
  lemma {:induction false} PiecesOfWordThen(w: string, rest: string)
    requires forall c :: c in w ==> !IsSeparator(c)
    ensures Pieces(w + rest) == [w + Pieces(rest)[0]] + Pieces(rest)[1..]
    decreases |w|
  {
    var pr := Pieces(rest);
    if w != [] {
      assert (w + rest)[0] == w[0] && (w + rest)[1..] == w[1..] + rest;
      PiecesOfWordThen(w[1..], rest);
      assert [w[0]] + (w[1..] + pr[0]) == w + pr[0];
    } else {
      assert w + rest == rest && w + pr[0] == pr[0];
      assert pr == [pr[0]] + pr[1..];
    }
  }

  lemma NonEmptyCons(w: string, ps: seq<string>)
    requires w != []
    ensures NonEmpty([w] + ps) == [w] + NonEmpty(ps)
  {
    assert ([w] + ps)[1..] == ps;
  }

  /** Splitting words joined by spaces gives the words back. */
  lemma {:induction false} TokensOfSpaced(ws: seq<string>)
    requires forall i :: 0 <= i < |ws| ==> IsWord(ws[i])
    ensures Tokens(Join(ws, " ")) == ws
    decreases |ws|
  {
    if ws == [] {
    } else if |ws| == 1 {
      PiecesOfWordThen(ws[0], []);
      assert ws[0] + [] == ws[0];
      assert Pieces([]) == [[]];
      assert Pieces(ws[0]) == [ws[0]];
      NonEmptyCons(ws[0], []);
    } else {
      var tail := Join(ws[1..], " ");
      TokensOfSpaced(ws[1..]);
      assert Join(ws, " ") == ws[0] + (" " + tail);
      PiecesOfWordThen(ws[0], " " + tail);
      SpaceThen(tail);
      assert ws[0] + [] == ws[0];
      assert Pieces(Join(ws, " ")) == [ws[0]] + Pieces(tail);
      NonEmptyCons(ws[0], Pieces(tail));
    }
  }

  lemma SpaceThen(tail: string)
    ensures Pieces(" " + tail) == [[]] + Pieces(tail)
  {
    SeparatorThen(' ', tail);
  }

  /** A separator ends the piece before it. */
  lemma SeparatorThen(c: char, tail: string)
    requires IsSeparator(c)
    ensures Pieces([c] + tail) == [[]] + Pieces(tail)
  {
    assert ([c] + tail)[0] == c && ([c] + tail)[1..] == tail;
  }

  /** Text made only of separators. */
  predicate IsGap(g: string) {
    forall c :: c in g ==> IsSeparator(c)
  }

  /** A run of separators in front of the text adds no token. */
  lemma {:induction false} GapThen(g: string, tail: string)
    requires IsGap(g)
    ensures NonEmpty(Pieces(g + tail)) == NonEmpty(Pieces(tail))
    decreases |g|
  {
    if g == [] {
      assert g + tail == tail;
    } else {
      assert g + tail == [g[0]] + (g[1..] + tail);
      SeparatorThen(g[0], g[1..] + tail);
      var ps := Pieces(g[1..] + tail);
      assert ([[]] + ps)[1..] == ps;
      GapThen(g[1..], tail);
    }
  }

  /** Each word followed by its gap. */
  function Laid(ws: seq<string>, gs: seq<string>): string
    requires |gs| == |ws|
  {
    if ws == [] then [] else ws[0] + gs[0] + Laid(ws[1..], gs[1..])
  }

  /** Gaps that keep the words apart: separator-only, and every one but the
      last non-empty. */
  predicate Apart(gs: seq<string>) {
    && (forall i :: 0 <= i < |gs| ==> IsGap(gs[i]))
    && (forall i :: 0 <= i < |gs| - 1 ==> gs[i] != [])
  }

  /** A word and a non-empty run of separators make one token. */
  lemma WordGapThen(w: string, g: string, rest: string)
    requires IsWord(w) && IsGap(g) && g != []
    ensures NonEmpty(Pieces(w + g + rest)) == [w] + NonEmpty(Pieces(rest))
  {
    assert w + g + rest == w + ([g[0]] + (g[1..] + rest));
    PiecesOfWordThen(w, [g[0]] + (g[1..] + rest));
    SeparatorThen(g[0], g[1..] + rest);
    var p := Pieces(g[1..] + rest);
    assert ([[]] + p)[0] == [] && ([[]] + p)[1..] == p;
    assert w + [] == w;
    NonEmptyCons(w, p);
    GapThen(g[1..], rest);
  }

  /** A word on its own is one token. */
  lemma WordAlone(w: string)
    requires IsWord(w)
    ensures NonEmpty(Pieces(w)) == [w]
  {
    PiecesOfWordThen(w, []);
    assert w + [] == w;
    NonEmptyCons(w, []);
  }

  /** One word and its gap in front of text whose tokens are known. */
  lemma TokensStep(w: string, g: string, rest: string, ts: seq<string>)
    requires IsWord(w) && IsGap(g)
    requires g == [] ==> rest == []
    requires Tokens(rest) == ts
    ensures Tokens(w + g + rest) == [w] + ts
  {
    if g == [] {
      assert w + g + rest == w;
      WordAlone(w);
      assert Pieces([]) == [[]];
    } else {
      WordGapThen(w, g, rest);
    }
  }

  /** What a layout's first word and gap are, and that the rest is a
      layout too. */
  lemma LaidTail(ws: seq<string>, gs: seq<string>)
    requires |gs| == |ws| > 0 && Apart(gs)
    requires forall i :: 0 <= i < |ws| ==> IsWord(ws[i])
    ensures IsWord(ws[0]) && IsGap(gs[0]) && (gs[0] == [] ==> |ws| == 1)
    ensures Apart(gs[1..]) && forall i :: 0 <= i < |ws[1..]| ==> IsWord(ws[1..][i])
  {
  }

  lemma {:induction false} TokensOfLaid(ws: seq<string>, gs: seq<string>)
    requires |gs| == |ws| && Apart(gs)
    requires forall i :: 0 <= i < |ws| ==> IsWord(ws[i])
    ensures Tokens(Laid(ws, gs)) == ws
    decreases |ws|
  {
    if ws != [] {
      LaidTail(ws, gs);
      TokensOfLaid(ws[1..], gs[1..]);
      var rest := Laid(ws[1..], gs[1..]);
      assert Laid(ws, gs) == ws[0] + gs[0] + rest;
      TokensStep(ws[0], gs[0], rest, ws[1..]);
      assert [ws[0]] + ws[1..] == ws;
    }
  }

  /** Words with runs of commas and whitespace around and between them
      split back into those words: a token is a maximal run of other
      characters, however the separators are written. */
  lemma TokensOfSeparated(lead: string, ws: seq<string>, gs: seq<string>)
    requires IsGap(lead)
    requires |gs| == |ws| && Apart(gs)
    requires forall i :: 0 <= i < |ws| ==> IsWord(ws[i])
    ensures Tokens(lead + Laid(ws, gs)) == ws
  {
    GapThen(lead, Laid(ws, gs));
    TokensOfLaid(ws, gs);
  }

  /** A comma and two spaces between two modes. */
  lemma CommaAndSpaces()
    ensures Tokens("B-,  EC") == ["B-", "EC"]
  {
    var ws := ["B-", "EC"];
    var gs := [",  ", ""];
    assert Laid(ws[1..], gs[1..]) == "EC" by {
      assert Laid(ws[1..][1..], gs[1..][1..]) == [];
    }
    assert [] + Laid(ws, gs) == "B-,  EC";
    TokensOfSeparated([], ws, gs);
  }

  // -----------------------------------------------------------------------
  // Expansion

  /** A token in the table becomes its full name; any other is kept. */
  function ExpandToken(t: string): (r: string)
    ensures t in DecayModeNames ==> r == DecayModeNames[t]
    ensures t !in DecayModeNames ==> r == t
  {
    if t in DecayModeNames then DecayModeNames[t] else t
  }

  function ExpandTokens(ts: seq<string>): (r: seq<string>)
    ensures |r| == |ts|
    ensures forall i :: 0 <= i < |ts| ==> r[i] == ExpandToken(ts[i])
  {
    if ts == [] then [] else [ExpandToken(ts[0])] + ExpandTokens(ts[1..])
  }

  /** The modes part of the result: the expanded tokens, or `Stable` when
      nothing but markers and separators was given. */
  function Described(tokens: seq<string>): string {
    if tokens == [] then "Stable" else Join(ExpandTokens(tokens), ", ")
  }

  /** The labels, if any, in parentheses after the modes. */
  function WithFlags(base: string, flags: seq<string>): string {
    if flags == [] then base else base + " (" + Join(flags, ", ") + ")"
  }

  /** `expand_decay_mode`. */
  function ExpandDecayMode(mode: Option<string>): (r: string)
    ensures mode.None? || AllSpace(mode.value) || mode.value == "nan" ==> r == "Stable"
  {
    if mode.None? || Strip(mode.value) == [] || mode.value == "nan" then "Stable"
    else
      var marked := TakeMarkers(Strip(mode.value), [], 0);
      WithFlags(Described(Tokens(Strip(marked.0))), marked.1)
  }

  /** For text that is not blank or `nan`: the expanded tokens of the text
      without its markers, followed by the labels of the markers that
      occurred, in table order; and there are labels exactly when the text
      holds a marker. */
  lemma ExpandDecayModeShape(s: string)
    requires !AllSpace(s) && s != "nan"
    ensures var t := Strip(s);
      && ExpandDecayMode(Some(s))
        == WithFlags(Described(Tokens(Strip(Without(t, AllMarkers)))), PresentLabels(t, 0))
      && (PresentLabels(t, 0) == [] <==> forall c :: c in t ==> !IsMarker(c))
  {
    MarkersTaken(Strip(s));
    NoLabelsNoMarkers(Strip(s));
  }

  /** Text without markers gets no parenthesised labels. */
  lemma NoMarkersNoFlags(s: string)
    requires !AllSpace(s) && s != "nan"
    requires forall c :: c in s ==> !IsMarker(c)
    ensures ExpandDecayMode(Some(s)) == Described(Tokens(Strip(s)))
  {
    var t := Strip(s);
    NoMarkersAfterStrip(s);
    ExpandDecayModeShape(s);
    assert PresentLabels(t, 0) == [];
    WithoutNone(t, AllMarkers);
    StripIdempotent(s);
    assert Strip(Without(t, AllMarkers)) == t;
  }

  /** Stripping adds no marker. */
  lemma NoMarkersAfterStrip(s: string)
    requires forall c :: c in s ==> !IsMarker(c)
    ensures forall c :: c in Strip(s) ==> !IsMarker(c) && c !in AllMarkers
  {
    forall c | c in Strip(s)
      ensures !IsMarker(c) && c !in AllMarkers
    {
      if IsMarker(c) {
        StripKeepsNonSpace(s, c);
      }
    }
  }

  lemma {:induction false} WithoutNone(s: string, cs: seq<char>)
    requires forall c :: c in s ==> c !in cs
    ensures Without(s, cs) == s
    decreases |s|
  {
    if s != [] {
      assert s[0] in s;
      WithoutNone(s[1..], cs);
    }
  }

  /** A lone `?` is an uncertain, otherwise unknown, mode. */
  lemma QuestionMarkAlone()
    ensures ExpandDecayMode(Some("?")) == "Stable (uncertain)"
  {
    QuestionMarkParts();
    ExpandDecayModeShape("?");
    NothingLeft();
    UncertainText();
  }

  lemma QuestionMarkParts()
    ensures Strip("?") == "?"
    ensures PresentLabels("?", 0) == ["uncertain"]
    ensures Without("?", AllMarkers) == []
  {
    StripNoEnds("?");
  }

  lemma UncertainText()
    ensures WithFlags("Stable", ["uncertain"]) == "Stable (uncertain)"
  {
    assert Join(["uncertain"], ", ") == "uncertain";
  }

  /** Only markers and separators: the mode reads `Stable`. */
  lemma NothingLeft()
    ensures Described(Tokens(Strip([]))) == "Stable"
  {
    assert Strip([]) == [];
    assert Pieces([]) == [[]];
    assert NonEmpty([[]]) == [] + NonEmpty([]);
  }

  /** Abbreviations in the table are expanded, in order. */
  lemma TwoModes()
    ensures ExpandDecayMode(Some("EC B+")) == "Electron capture, Beta plus decay"
  {
    TwoModesParts();
    NoMarkersNoFlags("EC B+");
    TwoModesText();
  }

  lemma TwoModesParts()
    ensures forall c :: c in "EC B+" ==> !IsMarker(c)
    ensures !AllSpace("EC B+")
    ensures Strip("EC B+") == "EC B+"
    ensures Tokens("EC B+") == ["EC", "B+"]
  {
    TwoModesStripped();
    TwoModesTokens();
  }

  lemma TwoModesStripped()
    ensures !AllSpace("EC B+")
    ensures Strip("EC B+") == "EC B+"
  {
    StripNoEnds("EC B+");
  }

  lemma TwoModesTokens()
    ensures Tokens("EC B+") == ["EC", "B+"]
  {
    assert IsWord("EC") && IsWord("B+");
    assert Join(["EC", "B+"], " ") == "EC B+";
    TokensOfSpaced(["EC", "B+"]);
  }

  lemma TwoModesText()
    ensures Described(["EC", "B+"]) == "Electron capture, Beta plus decay"
  {
    TwoModesNames();
    TwoNamesJoined();
  }

  lemma TwoNamesJoined()
    ensures Join(["Electron capture", "Beta plus decay"], ", ") == "Electron capture, Beta plus decay"
  {
  }

  lemma TwoModesNames()
    ensures ExpandTokens(["EC", "B+"]) == ["Electron capture", "Beta plus decay"]
  {
    ElectronCapture();
    BetaPlus();
  }

  lemma ElectronCapture()
    ensures ExpandToken("EC") == "Electron capture"
  {
  }

  lemma BetaPlus()
    ensures ExpandToken("B+") == "Beta plus decay"
  {
    assert "B+" in DecayModeNames;
  }
}
