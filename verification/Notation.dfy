/** The interval notation, and the round trip: what is written is read back exactly. */
module Notation {
  import opened Wrappers
  import opened Decimals
  import opened DecimalKeys
  import opened Units
  import opened Profiles
  import opened Values
  import opened Support
  import opened RawParser
  import opened Normalization

  /** One interval in brackets, followed by its unit. */
  function IntervalText(i: Interval, unit: string): string {
    (if i.lowerInclusive then "[" else "(")
    + (i.lower + ("," + (i.upper + ((if i.upperInclusive then "]" else ")") + unit))))
  }

  function TailText(s: seq<Interval>, unit: string): string {
    if s == [] then "" else "," + (IntervalText(s[0], unit) + TailText(s[1..], unit))
  }

  /** Intervals in brackets, each followed by the unit, separated by commas. */
  function SetText(s: seq<Interval>, unit: string): string
    requires s != []
  {
    IntervalText(s[0], unit) + TailText(s[1..], unit)
  }

  /** What the proof needs of the letters: those of the units are, the punctuation is not. */
  ghost predicate LetterTable(letters: char -> bool) {
    && (forall c :: 'a' <= c <= 'z' || 'A' <= c <= 'Z' || c == 'Ω' ==> letters(c))
    && !letters(' ') && !letters(',') && !letters('/') && !letters(']') && !letters(')')
    && !letters('±') && !letters('%')
  }

  predicate Closes(rest: string) { rest != "" && (rest[0] == ',' || rest[0] == ']' || rest[0] == ')') }

  // ---- tokens

  /** No token starts with the character. */
  predicate NoneStarts(tokens: seq<string>,
                       c: char) { forall k :: 0 <= k < |tokens| ==> tokens[k] != "" && tokens[k][0] != c }

  lemma {:induction false} TakesNothing(rest: string, tokens: seq<string>)
    requires rest != "" && !IsSpace(rest[0]) && NoneStarts(tokens, rest[0])
    ensures TakeOne(rest, tokens) == ("", rest)
  {
    if tokens == [] {
    } else {
      TakesNothing(rest, tokens[1..]);
    }
  }

  lemma {:induction false} TakesChar(c: char, rest: string, tokens: seq<string>, k: nat)
    requires !IsSpace(c) && k < |tokens| && tokens[k] == [c] && NoneStarts(tokens[..k], c)
    ensures TakeOne([c] + rest, tokens) == ([c], rest)
  {
    if k == 0 {
    } else {
      assert tokens[..k][0] == tokens[0];
      assert tokens[1..][..k - 1] == tokens[..k][1..];
      TakesChar(c, rest, tokens[1..], k - 1);
    }
  }

  lemma {:induction false} TakesFromNothing(tokens: seq<string>)
    requires forall k :: 0 <= k < |tokens| ==> tokens[k] != ""
    ensures TakeOne("", tokens) == ("", "")
  {
    if tokens == [] {
    } else {
      TakesFromNothing(tokens[1..]);
    }
  }

  // ---- atoms

  predicate StartsNumber(c: char) { '0' <= c <= '9' || c == '+' || c == '-' || c == '.' }

  lemma NumberStart(d: Decimal)
    requires IsNumber(d)
    ensures StartsNumber(d[0]) && !IsSpace(d[0])
  {
    hide Canonical, ParseDecimal, ParseSpelling, Scan;
    ParseOfNumber(d);
    ScanIsValid(d);
    SpellingStart(Scan(d).value);
  }

  lemma SpellingStart(s: Spelling)
    requires s.Valid()
    ensures s.Render() != "" && StartsNumber(s.Render()[0]) && !IsSpace(s.Render()[0])
  {
    var body := s.whole + (s.Fraction() + s.power.Text());
    if s.whole != "" { assert body[0] == s.whole[0]; } else { assert body == s.Fraction() + s.power.Text(); }
    if s.sign.Unsigned? { assert s.Render() == body; }
  }

  lemma NoUnit(x: Lexicon, rest: string)
    requires Closes(rest) && LetterTable(x.letters)
    ensures x.UnitLength(rest) == 0 && TrimStart(rest) == rest
  {
  }

  lemma AtomReadsBack(x: Lexicon, d: Decimal, rest: string)
    requires IsNumber(d) && Closes(rest) && LetterTable(x.letters)
    ensures ReadAtom(x, d + rest) == Success((Atom(d, ""), rest))
  {
    hide Canonical, ScanPrefix, Scan, ParseDecimal, ParseSpelling, LetterTable, CanonicalShape, RoleMarker;
    hide ConditionalSuffix, Registry;
    NumberStart(d);
    ParseOfNumber(d);
    assert (d + rest)[0] == d[0];
    ScanRendered(d, rest);
    NoUnit(x, rest);
  }

  lemma ScanRendered(d: Decimal, rest: string)
    requires IsNumber(d) && EndsNumber(rest)
    ensures Scan(d).Some? && ScanPrefix(d + rest) == Some((Scan(d).value, rest)) && Scan(d).value.Render() == d
  {
    hide Canonical, ScanPrefix, Scan, ParseDecimal, ParseSpelling;
    ParseOfNumber(d);
    ScanIsValid(d);
    var s := Scan(d).value;
    ScanPrefixRender(s, rest);
  }

  // ---- units

  const CANONICAL_UNITS: set<string> := {"V", "A", "F", "Ω", "Hz", "bit", "%", "dB", "W", "m", "H", "cd", "1"}

  lemma CanonicalUnitsAre(version: string, unit: string)
    requires Registry(version, unit).Some? && Registry(version, unit).value.canonical == unit
    ensures unit in CANONICAL_UNITS
  {
    if MemoryFactor(unit) != 0 && version == CATALOG_REGISTRY {
      assert unit == "bit";
    }
  }

  lemma {:induction false} LettersRun(x: Lexicon, unit: string, rest: string)
    requires forall k :: 0 <= k < |unit| ==> x.UnitChar(unit[k])
    requires rest != "" ==> !x.UnitChar(rest[0])
    ensures x.Letters(unit + rest) == |unit|
  {
    if unit == "" {
      assert unit + rest == rest;
    } else {
      LettersRun(x, unit[1..], rest);
      assert (unit + rest)[1..] == unit[1..] + rest;
    }
  }

  /** No unit goes on where the text does. */
  predicate StopsUnit(rest: string) {
    rest != "" ==> rest[0] == ' ' || rest[0] == ',' || rest[0] == '/' || rest[0] == '±'
  }

  lemma UnitReadsBack(x: Lexicon, unit: string, rest: string)
    requires LetterTable(x.letters) && x.Known(unit) && Registry(x.version, unit).value.canonical == unit
    requires StopsUnit(rest)
    ensures unit != "" && !IsSpace(unit[0]) && !IsSpace(unit[|unit| - 1])
    ensures x.UnitLength(unit + rest) == |unit| && (unit + rest)[..|unit|] == unit && (unit + rest)[|unit|..] == rest
    ensures TrimStart(unit + rest) == unit + rest
  {
    CanonicalUnitsAre(x.version, unit);
    hide Registry;
    assert (unit + rest)[0] == unit[0];
    if unit != "1" {
      forall k | 0 <= k < |unit| ensures x.UnitChar(unit[k]) {}
      LettersRun(x, unit, rest);
    }
  }

  // ---- segments

  function SegmentOf(i: Interval, unit: string): Segment {
    Segment(Atom(i.lower, ""), Atom(i.upper, unit), true, i.lowerInclusive, i.upperInclusive)
  }

  function SegmentsOf(s: seq<Interval>, unit: string): (r: seq<Segment>)
    ensures |r| == |s| && forall k :: 0 <= k < |s| ==> r[k] == SegmentOf(s[k], unit)
  {
    seq(|s|, k requires 0 <= k < |s| => SegmentOf(s[k], unit))
  }

  ghost predicate CanonicalUnit(x: Lexicon, unit: string) {
    LetterTable(x.letters) && x.Known(unit) && Registry(x.version, unit).value.canonical == unit
  }

  lemma ClosingReadsBack(x: Lexicon, i: Interval, unit: string, opening: string, rest: string)
    requires CanonicalUnit(x, unit) && (rest != "" ==> rest[0] == ',')
    requires opening == (if i.lowerInclusive then "[" else "(")
    ensures ReadClosing(x, opening, Atom(i.lower, ""), Atom(i.upper, ""),
                        (if i.upperInclusive then "]" else ")") + (unit + rest))
            == Success((SegmentOf(i, unit), rest))
  {
    hide Registry, LetterTable;
    TakesChar(if i.upperInclusive then ']' else ')', unit + rest, ["]", ")"], if i.upperInclusive then 0 else 1);
    UnitReadsBack(x, unit, rest);
  }

  lemma SegmentReadsBack(x: Lexicon, i: Interval, unit: string, rest: string)
    requires IsNumber(i.lower) && IsNumber(i.upper) && CanonicalUnit(x, unit) && (rest != "" ==> rest[0] == ',')
    ensures ReadSegment(x, IntervalText(i, unit) + rest) == Success((SegmentOf(i, unit), rest))
  {
    hide Canonical, Registry, ReadAtom, ReadClosing, TakeOne, ParseDecimal;
    var closing := (if i.upperInclusive then "]" else ")") + (unit + rest);
    var second := i.upper + closing;
    var first := i.lower + ("," + second);
    var open := if i.lowerInclusive then '[' else '(';
    assert IntervalText(i, unit) + rest == [open] + first;
    TakesChar(open, first, ["[", "("], if i.lowerInclusive then 0 else 1);
    AtomReadsBack(x, i.lower, "," + second);
    TakesChar(',', second, Delimiters([open]), 3);
    AtomReadsBack(x, i.upper, closing);
    ClosingReadsBack(x, i, unit, [open], rest);
  }

  lemma NextSegmentReadsBack(x: Lexicon, i: Interval, unit: string, rest: string, before: seq<Segment>)
    requires IsNumber(i.lower) && IsNumber(i.upper) && CanonicalUnit(x, unit) && (rest != "" ==> rest[0] == ',')
    requires before != [] && before[0].interval && before[|before| - 1].interval
    ensures ReadSegments(x, "," + (IntervalText(i, unit) + rest), before) ==
      ReadSegments(x, rest, before + [SegmentOf(i, unit)])
  {
    hide Canonical, ReadSegment, TakeOne, IntervalText, CanonicalUnit, ParseDecimal;
    TakesChar(',', IntervalText(i, unit) + rest, [",", "/"], 0);
    SegmentReadsBack(x, i, unit, rest);
  }

  lemma {:induction false} SegmentsReadBack(x: Lexicon, s: seq<Interval>, unit: string, before: seq<Segment>)
    requires forall k :: 0 <= k < |s| ==> IsNumber(s[k].lower) && IsNumber(s[k].upper)
    requires CanonicalUnit(x, unit) && before != [] && before[0].interval && before[|before| - 1].interval
    ensures ReadSegments(x, TailText(s, unit), before) == Success((before + SegmentsOf(s, unit), ""))
    decreases |s|
  {
    hide Canonical, ReadSegments, IntervalText, CanonicalUnit, ParseDecimal, SegmentsOf;
    if s == [] {
      NothingLeftReads(x, before);
      assert SegmentsOf(s, unit) == [] && before + [] == before;
    } else {
      var first := SegmentOf(s[0], unit);
      SegmentsSplit(s, unit);
      NextSegmentReadsBack(x, s[0], unit, TailText(s[1..], unit), before);
      SegmentsReadBack(x, s[1..], unit, before + [first]);
      assert before + ([first] + SegmentsOf(s[1..], unit)) == before + [first] + SegmentsOf(s[1..], unit);
    }
  }

  lemma NothingLeftReads(x: Lexicon, before: seq<Segment>)
    requires before != []
    ensures ReadSegments(x, "", before) == Success((before, ""))
  {
    hide TakeOne, ReadSegment;
    TakesFromNothing([",", "/"]);
  }

  lemma SegmentsSplit(s: seq<Interval>, unit: string)
    requires s != []
    ensures SegmentsOf(s, unit) == [SegmentOf(s[0], unit)] + SegmentsOf(s[1..], unit)
  {
    hide SegmentOf;
  }

  // ---- the value

  lemma {:induction false} SpansReadBack(s: seq<Interval>, unit: string, p: Profile)
    requires ValidProfile(p) && unit == p.canonicalUnit && AllValid(s)
    ensures SpansOf(SegmentsOf(s, unit), unit, p) == Success(s)
  {
    hide ValidProfile, Canonical, SpanOf, SegmentOf, ValidInterval;
    if s == [] {
    } else {
      var n := |s| - 1;
      SpansReadBack(s[..n], unit, p);
      assert SegmentsOf(s, unit)[..n] == SegmentsOf(s[..n], unit);
      SpanReadsBack(s[n], unit, p);
      assert s == s[..n] + [s[n]];
    }
  }

  lemma SpanReadsBack(i: Interval, unit: string, p: Profile)
    requires ValidProfile(p) && unit == p.canonicalUnit && ValidInterval(i)
    ensures SpanOf(SegmentOf(i, unit), unit, p) == Success(i)
  {
    hide ValidProfile, Convert, Canonical, Num;
    CanonicalUnitIsIdentity(i.lower, p);
    CanonicalUnitIsIdentity(i.upper, p);
    CanonicalUnitNamed(p);
  }

  lemma CanonicalUnitNamed(p: Profile)
    requires ValidProfile(p)
    ensures p.canonicalUnit != "" && Registry(p.registryVersion, p.canonicalUnit).Some?
    ensures Registry(p.registryVersion, p.canonicalUnit).value.canonical == p.canonicalUnit
  {
    hide Registry;
    CanonicalFactor(p);
  }

  function IntervalValue(s: seq<Interval>,
                         p: Profile): Value { EmptyValue(p).(shape := IntervalSet, intervals := Some(s)) }

  lemma ReadsIntervals(x: Lexicon, s: seq<Interval>, p: Profile)
    requires ValidProfile(p) && !p.role.ErrorMagnitude? && s != [] && AllValid(s)
    requires LetterTable(x.letters) && x.version == p.registryVersion
    ensures ReadValue(x, SetText(s, p.canonicalUnit), p) == Success((IntervalValue(s, p), ""))
  {
    hide Canonical, ValidProfile, Registry, ReadSegment, ReadSegments, TakeOne, IntervalText, ParseDecimal, Num;
    hide LetterTable, SpansOf, ReadAtom;
    var unit := p.canonicalUnit;
    var text := SetText(s, unit);
    CanonicalUnitNamed(p);
    TextStart(s, unit);
    TakesNothing(text, BOUND_TOKENS);
    assert TailText(s[1..], unit) != "" ==> TailText(s[1..], unit)[0] == ',';
    SegmentReadsBack(x, s[0], unit, TailText(s[1..], unit));
    SegmentsReadBack(x, s[1..], unit, [SegmentOf(s[0], unit)]);
    SegmentsSplit(s, unit);
    SpansReadBack(s, unit, p);
  }

  lemma TextStart(s: seq<Interval>, unit: string)
    requires s != []
    ensures var text := SetText(s, unit); text != "" && (text[0] == '[' || text[0] == '(')
  {
    assert IntervalText(s[0], unit)[0] == if s[0].lowerInclusive then '[' else '(';
  }

  predicate EndsIn(text: string, c: char) { text != "" && text[|text| - 1] == c }

  lemma EndOfSum(a: string, b: string, c: char)
    ensures EndsIn(b, c) ==> EndsIn(a + b, c)
    ensures EndsIn(a, c) && b == "" ==> EndsIn(a + b, c)
  {
  }

  lemma IntervalEnd(i: Interval, unit: string, c: char)
    requires EndsIn(unit, c)
    ensures EndsIn(IntervalText(i, unit), c)
  {
    hide EndsIn;
    var bracket := if i.upperInclusive then "]" else ")";
    EndOfSum(bracket, unit, c);
    EndOfSum(i.upper, bracket + unit, c);
    EndOfSum(",", i.upper + (bracket + unit), c);
    EndOfSum(i.lower, "," + (i.upper + (bracket + unit)), c);
    EndOfSum(if i.lowerInclusive then "[" else "(", i.lower + ("," + (i.upper + (bracket + unit))), c);
  }

  lemma {:induction false} TextEnd(s: seq<Interval>, unit: string, c: char)
    requires EndsIn(unit, c) && s != []
    ensures EndsIn(SetText(s, unit), c) && EndsIn(TailText(s, unit), c)
    decreases |s|
  {
    hide EndsIn, IntervalText;
    IntervalEnd(s[0], unit, c);
    if |s| == 1 {
    } else {
      TextEnd(s[1..], unit, c);
    }
    EndOfSum(IntervalText(s[0], unit), TailText(s[1..], unit), c);
    EndOfSum(",", SetText(s, unit), c);
  }

  /** The first letter of some role marker. */
  predicate StartsMarker(c: char) { LowerCase(c) == 'a' || LowerCase(c) == 'n' || LowerCase(c) == 't' }

  lemma {:induction false} NoMarkerAt(input: string, k: nat)
    requires input == "" || !StartsMarker(input[0])
    ensures MarkerAt(input, k) == None
    decreases |MARKERS| - k
  {
    if k >= |MARKERS| {
    } else {
      assert MARKERS[k].0[0] == 'a' || MARKERS[k].0[0] == 'n' || MARKERS[k].0[0] == 't';
      assert input != "" ==> ToLower(input)[0] == LowerCase(input[0]);
      NoMarkerAt(input, k + 1);
    }
  }

  /** The text has no blanks around it and no role marker before it. */
  predicate Plain(text: string) {
    text != "" && !IsSpace(text[0]) && !StartsMarker(text[0]) && !IsSpace(text[|text| - 1])
  }

  lemma PlainIsKept(text: string)
    requires Plain(text)
    ensures Trim(text) == text && RoleMarker(text).None?
  {
    hide MarkerAt;
    NoMarkerAt(text, 0);
  }

  /** A plain text that is read to its end as a valid value is normalized to that value. */
  lemma ReadWholeIsNormalized(text: string, v: Value, p: Profile, letters: char -> bool)
    requires ValidValue(v, p) && v.context == Unconditional("") && Plain(text) && Utf8Length(text) <= MAX_INPUT
    requires ReadValue(Lexicon(p.registryVersion, letters), text, p) == Success((v, ""))
    ensures NormalizeText(text, p, letters) == Normalized(Some(v), None)
  {
    PlainIsKept(text);
    ValidProfileOf(v, p);
    NothingLeftFinishes(v, text, p);
    hide ValidProfile, ValidValue, ReadValue, Utf8Length, RoleMarker, Finish, Trim;
  }

  /** With nothing left of the text, a valid value is the result as it is. */
  lemma NothingLeftFinishes(v: Value, raw: string, p: Profile)
    requires ValidValue(v, p)
    ensures Finish(v, "", raw, p) == Normalized(Some(v), None)
  {
    ValidProfileOf(v, p);
    NoMarkerAt("", 0);
    hide ValidProfile, ValidValue, ConditionalSuffix, MarkerAt;
    assert Trim("") == "";
  }

  lemma ValidProfileOf(v: Value, p: Profile)
    requires ValidValue(v, p)
    ensures ValidProfile(p) && v.shape in p.shapes && p.shapes != [] && !p.role.OtherRole?
  {
    hide Canonical, ValidUnits, ValidPayload, CountsOnly, OnePayload;
  }

  /** Every valid interval set, written with the canonical unit after each bracket, is normalized to
      exactly those intervals: same ends, same openness, same order, unconditionally. */
  lemma IntervalSetsReadBack(s: seq<Interval>, p: Profile, letters: char -> bool)
    requires ValidValue(IntervalValue(s, p), p)
    requires Utf8Length(SetText(s, p.canonicalUnit)) <= MAX_INPUT && LetterTable(letters)
    ensures NormalizeText(SetText(s, p.canonicalUnit), p, letters) == Normalized(Some(IntervalValue(s, p)), None)
  {
    ValidSet(s, p);
    hide ValidProfile, ValidValue, ReadValue, SetText, LetterTable, Utf8Length, NormalizeText, Registry, Plain;
    hide ValidInterval, IntervalText;
    CanonicalUnitNamed(p);
    SetIsPlain(Lexicon(p.registryVersion, letters), s, p.canonicalUnit);
    ReadsIntervals(Lexicon(p.registryVersion, letters), s, p);
    ReadWholeIsNormalized(SetText(s, p.canonicalUnit), IntervalValue(s, p), p, letters);
  }

  lemma SetIsPlain(x: Lexicon, s: seq<Interval>, unit: string)
    requires CanonicalUnit(x, unit) && s != []
    ensures Plain(SetText(s, unit))
  {
    hide SetText, Registry, IsSpace;
    UnitReadsBack(x, unit, "");
    TextStart(s, unit);
    TextEnd(s, unit, unit[|unit| - 1]);
    BracketIsPlain();
  }

  lemma BracketIsPlain()
    ensures !IsSpace('[') && !IsSpace('(') && !StartsMarker('[') && !StartsMarker('(')
  {
  }

  lemma ValidSet(s: seq<Interval>, p: Profile)
    requires ValidValue(IntervalValue(s, p), p)
    ensures ValidProfile(p) && s != [] && AllValid(s) && IntervalSet in p.shapes
    ensures p.shapes != [] && !p.role.OtherRole?
  {
    hide Canonical, Registry, ValidUnits, ParseDecimal, Num, ValidInterval;
  }
}
