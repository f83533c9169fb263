/** The Python string operations the modelled code relies on, over ASCII.
    Strings are `seq<char>`; "whitespace" is only ' \t\n\r\x0b\x0c', the
    characters Python 2's `str.strip()` removes from a byte string. */
module Text {

  predicate IsSpace(c: char) {
    c == ' ' || c == '\t' || c == '\n' || c == '\r' || c == '\U{0B}' || c == '\U{0C}'
  }

  predicate IsUpper(c: char) { 'A' <= c <= 'Z' }

  predicate IsLower(c: char) { 'a' <= c <= 'z' }

  /** Membership in `string.ascii_letters`, the class `[a-zA-Z]`. */
  predicate IsLetter(c: char) { IsUpper(c) || IsLower(c) }

  predicate IsDigit(c: char) { '0' <= c <= '9' }

  predicate AllSpace(s: string) {
    forall i :: 0 <= i < |s| ==> IsSpace(s[i])
  }

  predicate AllLetters(s: string) {
    forall i :: 0 <= i < |s| ==> IsLetter(s[i])
  }

  predicate AllDigits(s: string) {
    forall i :: 0 <= i < |s| ==> IsDigit(s[i])
  }

  predicate HasLetter(s: string) {
    exists i :: 0 <= i < |s| && IsLetter(s[i])
  }

  // ---------------------------------------------------------------------
  // Stripping

  /** The number of whitespace characters `s` starts with. */
  function LeadingSpaces(s: string): (k: nat)
    ensures k <= |s|
    ensures forall i :: 0 <= i < k ==> IsSpace(s[i])
    ensures k < |s| ==> !IsSpace(s[k])
  {
    if s == [] || !IsSpace(s[0]) then 0
    else
      var k := LeadingSpaces(s[1..]);
      assert forall i :: 1 <= i < k + 1 ==> s[i] == s[1..][i - 1];
      k + 1
  }

  /** The length `s` has once its trailing whitespace is dropped. */
  function TrailingEnd(s: string): (m: nat)
    ensures m <= |s|
    ensures forall i :: m <= i < |s| ==> IsSpace(s[i])
    ensures m > 0 ==> !IsSpace(s[m - 1])
  {
    if s == [] || !IsSpace(s[|s| - 1]) then |s|
    else TrailingEnd(s[..|s| - 1])
  }

  /** `s.lstrip()`. */
  function LStrip(s: string): string {
    s[LeadingSpaces(s)..]
  }

  /** `s.rstrip()`. */
  function RStrip(s: string): string {
    s[..TrailingEnd(s)]
  }

  /** `s.strip()`. */
  function Strip(s: string): (r: string)
    ensures r == [] <==> AllSpace(s)
    ensures r != [] ==> !IsSpace(r[0]) && !IsSpace(r[|r| - 1])
    ensures |r| <= |s|
  {
    var k := LeadingSpaces(s);
    var l := s[k..];
    if k == |s| then
      assert AllSpace(s);
      []
    else
      assert l[0] == s[k] && !AllSpace(s);
      assert TrailingEnd(l) > 0;
      RStrip(LStrip(s))
  }

  /** Whitespace before text that starts with a non-space is exactly the
      leading whitespace. */
  lemma LeadingOfSpacesThen(w: string, x: string)
    requires AllSpace(w) && x != [] && !IsSpace(x[0])
    ensures LeadingSpaces(w + x) == |w|
  {
    var s := w + x;
    var k := LeadingSpaces(s);
    assert s[|w|] == x[0];
  }

  /** Whitespace after text that ends with a non-space is exactly the
      trailing whitespace. */
  lemma TrailingOfThenSpaces(t: string, w: string)
    requires AllSpace(w) && t != [] && !IsSpace(t[|t| - 1])
    ensures TrailingEnd(t + w) == |t|
  {
    var s := t + w;
    var m := TrailingEnd(s);
    assert s[|t| - 1] == t[|t| - 1];
  }

  /** Whitespace around a text with no whitespace at its ends is exactly
      what stripping removes.  Every text splits this way, so this pins
      `strip()` down. */
  lemma StripSurrounded(w1: string, t: string, w2: string)
    requires AllSpace(w1) && AllSpace(w2)
    requires t != [] ==> !IsSpace(t[0]) && !IsSpace(t[|t| - 1])
    ensures Strip(w1 + t + w2) == t
  {
    var s := w1 + t + w2;
    if t == [] {
      assert s == w1 + w2;
      assert AllSpace(s);
    } else {
      assert s == w1 + (t + w2);
      LeadingOfSpacesThen(w1, t + w2);
      assert s[|w1|..] == t + w2;
      TrailingOfThenSpaces(t, w2);
      assert (t + w2)[..|t|] == t;
    }
  }

  /** A string with no whitespace at either end is its own strip. */
  lemma StripNoEnds(s: string)
    requires s != [] ==> !IsSpace(s[0]) && !IsSpace(s[|s| - 1])
    ensures Strip(s) == s
  {
  }

  /** Text with no whitespace at all is unchanged by stripping. */
  lemma StripNoSpace(s: string)
    requires forall i :: 0 <= i < |s| ==> !IsSpace(s[i])
    ensures Strip(s) == s
  {
    StripNoEnds(s);
  }

  /** Stripping twice is stripping once. */
  lemma StripIdempotent(s: string)
    ensures Strip(Strip(s)) == Strip(s)
  {
    StripNoEnds(Strip(s));
  }

  /** `s.strip()` is a contiguous piece of `s`, so a character that is not
      whitespace is in it exactly when it is in `s`. */
  lemma StripKeepsNonSpace(s: string, c: char)
    requires !IsSpace(c)
    ensures c in Strip(s) <==> c in s
  {
    var k := LeadingSpaces(s);
    var l := s[k..];
    var m := TrailingEnd(l);
    assert s == s[..k] + l;
    assert l == l[..m] + l[m..];
    assert c !in s[..k];
    assert c !in l[m..];
  }

  // ---------------------------------------------------------------------
  // Case

  function UpperChar(c: char): char {
    if IsLower(c) then (c as int - 32) as char else c
  }

  function LowerChar(c: char): char {
    if IsUpper(c) then (c as int + 32) as char else c
  }

  /** `s.upper()`. */
  function Upper(s: string): (r: string)
    ensures |r| == |s|
    ensures forall i :: 0 <= i < |s| ==> r[i] == UpperChar(s[i])
  {
    if s == [] then [] else [UpperChar(s[0])] + Upper(s[1..])
  }

  /** `s.title()`: a letter becomes upper case when the character before it
      is not a letter (or it starts the string) and lower case otherwise. */
  function Title(s: string): (r: string)
    ensures |r| == |s|
  {
    TitleAfter(s, false)
  }

  function TitleAfter(s: string, afterLetter: bool): (r: string)
    ensures |r| == |s|
    ensures forall i :: 0 <= i < |s| ==> (IsLetter(r[i]) <==> IsLetter(s[i]))
    ensures forall i :: 0 <= i < |s| && !IsLetter(s[i]) ==> r[i] == s[i]
  {
    if s == [] then []
    else
      var c := s[0];
      var c' := if !IsLetter(c) then c else if afterLetter then LowerChar(c) else UpperChar(c);
      [c'] + TitleAfter(s[1..], IsLetter(c))
  }

  /** The shape of a chemical symbol after `.title()`: one capital letter
      followed by lower-case letters. */
  predicate IsTitleWord(s: string) {
    |s| > 0 && IsUpper(s[0]) && forall i :: 1 <= i < |s| ==> IsLower(s[i])
  }

  /** Title-casing the upper-case form of a title-case word gives it back. */
  lemma TitleOfUpperWord(s: string)
    requires IsTitleWord(s)
    ensures Title(Upper(s)) == s
  {
    var u := Upper(s);
    assert u[0] == s[0];
    LowerAfterLetter(u[1..], s[1..]);
  }

  /** After a letter, title-casing lower-cases the upper-case form `u` of a
      lower-case string `s` back into `s`. */
  lemma {:induction false} LowerAfterLetter(u: string, s: string)
    requires |u| == |s|
    requires forall i :: 0 <= i < |s| ==> IsLower(s[i]) && u[i] == UpperChar(s[i])
    ensures TitleAfter(u, true) == s
  {
    if s != [] {
      assert IsLetter(u[0]) && LowerChar(u[0]) == s[0];
      LowerAfterLetter(u[1..], s[1..]);
      assert s == [s[0]] + s[1..];
    }
  }

  /** Title-casing a string without letters changes nothing. */
  lemma TitleNoLetters(s: string, after: bool)
    requires !HasLetter(s)
    ensures TitleAfter(s, after) == s
  {
    if s != [] {
      assert !IsLetter(s[0]);
      assert forall i :: 0 <= i < |s[1..]| ==> s[1..][i] == s[i + 1];
      TitleNoLetters(s[1..], false);
    }
  }

  lemma UpperKeepsLetters(s: string)
    ensures HasLetter(Upper(s)) <==> HasLetter(s)
    ensures !HasLetter(s) ==> Upper(s) == s
  {
    if HasLetter(s) {
      var i :| 0 <= i < |s| && IsLetter(s[i]);
      assert IsLetter(Upper(s)[i]);
    }
    if HasLetter(Upper(s)) {
      var i :| 0 <= i < |s| && IsLetter(Upper(s)[i]);
      assert IsLetter(s[i]);
    }
  }

  lemma UpperConcat(a: string, b: string)
    ensures Upper(a + b) == Upper(a) + Upper(b)
  {
    var l := Upper(a + b);
    var r := Upper(a) + Upper(b);
    forall i | 0 <= i < |l|
      ensures l[i] == r[i]
    {
      if i < |a| {
        assert (a + b)[i] == a[i];
      } else {
        assert (a + b)[i] == b[i - |a|];
      }
    }
  }

  /** Upper-casing leaves a string without letters unchanged and keeps a
      string of letters a string of upper-case letters. */
  lemma UpperOfWord(s: string)
    requires AllLetters(s)
    ensures AllLetters(Upper(s)) && forall i :: 0 <= i < |s| ==> IsUpper(Upper(s)[i])
  {
    var u := Upper(s);
    forall i | 0 <= i < |s|
      ensures IsLetter(u[i]) && IsUpper(u[i])
    {
      UpperOfLetter(s[i]);
    }
  }

  lemma UpperOfLetter(c: char)
    requires IsLetter(c)
    ensures IsLetter(UpperChar(c)) && IsUpper(UpperChar(c))
  {
  }

  lemma UpperIdempotent(s: string)
    ensures Upper(Upper(s)) == Upper(s)
  {
  }

  // ---------------------------------------------------------------------
  // Filtering

  /** Python 2 `filter(lambda x: x in string.ascii_letters, s)`. */
  function Letters(s: string): (r: string)
    ensures AllLetters(r)
    ensures |r| <= |s|
  {
    if s == [] then []
    else (if IsLetter(s[0]) then [s[0]] else []) + Letters(s[1..])
  }

  /** Python 2 `filter(lambda x: not (x in string.ascii_letters), s)`. */
  function NonLetters(s: string): (r: string)
    ensures !HasLetter(r)
    ensures |r| <= |s|
  {
    if s == [] then []
    else (if IsLetter(s[0]) then [] else [s[0]]) + NonLetters(s[1..])
  }

  lemma LettersOfConcat(a: string, b: string)
    ensures Letters(a + b) == Letters(a) + Letters(b)
    ensures NonLetters(a + b) == NonLetters(a) + NonLetters(b)
  {
    LettersConcat(a, b);
    NonLettersConcat(a, b);
  }

  lemma {:induction false} LettersConcat(a: string, b: string)
    ensures Letters(a + b) == Letters(a) + Letters(b)
  {
    if a == [] {
      assert a + b == b;
    } else {
      var ab := a + b;
      assert ab[0] == a[0] && ab[1..] == a[1..] + b;
      LettersConcat(a[1..], b);
      var h := if IsLetter(a[0]) then [a[0]] else [];
      assert Letters(ab) == h + Letters(a[1..] + b);
      assert Letters(a) == h + Letters(a[1..]);
    }
  }

  lemma {:induction false} NonLettersConcat(a: string, b: string)
    ensures NonLetters(a + b) == NonLetters(a) + NonLetters(b)
  {
    if a == [] {
      assert a + b == b;
    } else {
      var ab := a + b;
      assert ab[0] == a[0] && ab[1..] == a[1..] + b;
      NonLettersConcat(a[1..], b);
      var g := if IsLetter(a[0]) then [] else [a[0]];
      assert NonLetters(ab) == g + NonLetters(a[1..] + b);
      assert NonLetters(a) == g + NonLetters(a[1..]);
    }
  }


  lemma LettersOfWord(s: string)
    requires AllLetters(s)
    ensures Letters(s) == s && NonLetters(s) == []
  {
  }

  lemma LettersOfNonWord(s: string)
    requires !HasLetter(s)
    ensures Letters(s) == [] && NonLetters(s) == s
  {
    if s != [] {
      assert !IsLetter(s[0]);
      assert forall i :: 0 <= i < |s[1..]| ==> s[1..][i] == s[i + 1];
      LettersOfNonWord(s[1..]);
    }
  }

  /** `s.replace(c, '')`: every `c` goes and every other character stays,
      as often as it occurs. */
  function Remove(s: string, c: char): (r: string)
    ensures c !in r
    ensures forall d :: d != c ==> (d in r <==> d in s)
    ensures multiset(r) == multiset(s)[c := 0]
  {
    if s == [] then []
    else
      var rest := Remove(s[1..], c);
      assert forall d :: d in s <==> d == s[0] || d in s[1..];
      assert s == [s[0]] + s[1..];
      if s[0] == c then rest else [s[0]] + rest
  }

  /** Removing works piece by piece, so the characters kept stay in their
      order. */
  lemma {:induction false} RemoveConcat(a: string, b: string, c: char)
    ensures Remove(a + b, c) == Remove(a, c) + Remove(b, c)
    decreases |a|
  {
    if a == [] {
      assert a + b == b;
    } else {
      assert (a + b)[0] == a[0] && (a + b)[1..] == a[1..] + b;
      RemoveConcat(a[1..], b, c);
    }
  }

  // ---------------------------------------------------------------------
  // Split and join

  function Count(s: string, c: char): nat {
    if s == [] then 0 else (if s[0] == c then 1 else 0) + Count(s[1..], c)
  }

  lemma CountZero(s: string, c: char)
    ensures Count(s, c) == 0 <==> c !in s
  {
    if s != [] {
      CountZero(s[1..], c);
      assert c in s <==> s[0] == c || c in s[1..];
    }
  }

  /** The pieces put back together with nothing between them. */
  function Concat(ps: seq<string>): string {
    if ps == [] then [] else ps[0] + Concat(ps[1..])
  }

  /** `sep.join(parts)`. */
  function Join(parts: seq<string>, sep: string): string {
    if |parts| == 0 then []
    else if |parts| == 1 then parts[0]
    else parts[0] + sep + Join(parts[1..], sep)
  }

  /** `s.split(c)` for a one-character separator. */
  function Split(s: string, c: char): (parts: seq<string>)
    ensures |parts| == Count(s, c) + 1
    ensures forall i :: 0 <= i < |parts| ==> c !in parts[i]
    ensures Join(parts, [c]) == s
  {
    if s == [] then [[]]
    else
      var rest := Split(s[1..], c);
      if s[0] == c then
        JoinAfterEmpty(rest, [c]);
        [[]] + rest
      else
        var parts := [[s[0]] + rest[0]] + rest[1..];
        JoinExtendFirst(s[0], rest, [c]);
        assert c !in parts[0];
        parts
  }

  /** Joining after an empty first piece starts with the separator. */
  lemma JoinAfterEmpty(rest: seq<string>, sep: string)
    requires |rest| >= 1
    ensures Join([[]] + rest, sep) == sep + Join(rest, sep)
  {
    assert ([[]] + rest)[1..] == rest;
  }

  /** A character put before the first piece comes first in the join. */
  lemma JoinExtendFirst(x: char, rest: seq<string>, sep: string)
    requires |rest| >= 1
    ensures Join([[x] + rest[0]] + rest[1..], sep) == [x] + Join(rest, sep)
  {
    var parts := [[x] + rest[0]] + rest[1..];
    if |rest| > 1 {
      assert parts[1..] == rest[1..];
    }
  }

  /** Splitting a joined list of separator-free pieces gives the pieces back. */
  lemma {:induction false} SplitJoin(parts: seq<string>, c: char)
    requires |parts| >= 1
    requires forall i :: 0 <= i < |parts| ==> c !in parts[i]
    ensures Split(Join(parts, [c]), c) == parts
  {
    if |parts| == 1 {
      SplitNoSeparator(parts[0], c);
    } else {
      SplitJoin(parts[1..], c);
      SplitAfterPiece(parts[0], Join(parts[1..], [c]), c);
      assert parts == [parts[0]] + parts[1..];
    }
  }

  lemma {:induction false} SplitNoSeparator(s: string, c: char)
    requires c !in s
    ensures Split(s, c) == [s]
  {
    if s != [] {
      SplitNoSeparator(s[1..], c);
    }
  }

  lemma {:induction false} SplitAfterPiece(a: string, b: string, c: char)
    requires c !in a
    ensures Split(a + [c] + b, c) == [a] + Split(b, c)
  {
    if a == [] {
      assert ([c] + b)[1..] == b;
    } else {
      assert (a + [c] + b)[1..] == a[1..] + [c] + b;
      assert (a + [c] + b)[0] == a[0];
      SplitAfterPiece(a[1..], b, c);
      assert [a[0]] + a[1..] == a;
    }
  }

  // ---------------------------------------------------------------------
  // Python slicing and prefixes

  /** `s[i:j]` for non-negative bounds: both bounds are clamped to the length. */
  function Slice(s: string, i: nat, j: nat): (r: string)
    ensures |r| <= |s|
  {
    if i >= |s| || j <= i then [] else s[i..if j <= |s| then j else |s|]
  }

  /** `s[:-k]`. */
  function DropLast(s: string, k: nat): string {
    if |s| >= k then s[..|s| - k] else []
  }

  /** `s[-k:]`. */
  function TakeLast(s: string, k: nat): string {
    if |s| >= k then s[|s| - k..] else s
  }

  /** Cutting the last `|b|` characters off `a + b`. */
  lemma DropTakeConcat(a: string, b: string)
    ensures DropLast(a + b, |b|) == a && TakeLast(a + b, |b|) == b
  {
    assert (a + b)[..|a|] == a;
    assert (a + b)[|a|..] == b;
  }

  predicate StartsWith(s: string, p: string) {
    |p| <= |s| && s[..|p|] == p
  }

  predicate EndsWith(s: string, c: char) {
    |s| > 0 && s[|s| - 1] == c
  }
}
