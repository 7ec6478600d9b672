/** Every other notation is read back too: numbers, one-sided claims, error magnitudes, tolerances and
    lists, written with the canonical unit, normalize to exactly what they say. */
module NotationLaws {
  import opened Wrappers
  import opened Decimals
  import opened DecimalKeys
  import opened Rationals
  import opened Units
  import opened Profiles
  import opened Values
  import opened Predicates
  import opened RawParser
  import opened Normalization
  import opened Notation

  /** A number, a blank, the unit, and what follows. */
  function Quantity(d: Decimal, unit: string, rest: string): string { d + (" " + (unit + rest)) }

  // ---- tokens and atoms

  lemma {:induction false} TakesToken(rest: string, tokens: seq<string>, k: nat)
    requires k < |tokens| && tokens[k] != "" && !IsSpace(tokens[k][0])
    requires forall j :: 0 <= j < k ==> !HasPrefix(tokens[k] + rest, tokens[j])
    ensures TakeOne(tokens[k] + rest, tokens) == (tokens[k], rest)
  {
    if k == 0 {
    } else {
      assert tokens[0] == tokens[..k][0];
      TakesToken(rest, tokens[1..], k - 1);
    }
  }

  lemma QuantityReadsBack(x: Lexicon, d: Decimal, unit: string, rest: string)
    requires IsNumber(d) && CanonicalUnit(x, unit) && StopsUnit(rest)
    ensures ReadAtom(x, Quantity(d, unit, rest)) == Success((Atom(d, unit), rest))
  {
    hide Canonical, ScanPrefix, Scan, ParseDecimal, ParseSpelling, LetterTable, CanonicalShape, RoleMarker;
    hide ConditionalSuffix, Registry, Lexicon.UnitLength;
    NumberStart(d);
    ParseOfNumber(d);
    var after := " " + (unit + rest);
    assert (d + after)[0] == d[0];
    ScanRendered(d, after);
    UnitReadsBack(x, unit, rest);
    assert after[1..] == unit + rest;
    assert TrimStart(after) == unit + rest;
  }

  lemma CanonicalAtomIs(d: Decimal, p: Profile)
    requires IsNumber(d) && ValidProfile(p)
    ensures p.canonicalUnit != "" && CanonicalAtom(Atom(d, p.canonicalUnit), "", p) == Success(d)
    ensures CanonicalAtom(Atom(d, p.canonicalUnit), p.canonicalUnit, p) == Success(d)
  {
    hide ValidProfile, Convert, Canonical, Num;
    CanonicalUnitIsIdentity(d, p);
    CanonicalUnitNamed(p);
  }

  lemma UnitEnds(x: Lexicon, unit: string, front: string)
    requires CanonicalUnit(x, unit)
    ensures unit != "" && (front + unit)[|front + unit| - 1] == unit[|unit| - 1] && !IsSpace(unit[|unit| - 1])
  {
    hide Registry;
    UnitReadsBack(x, unit, "");
  }

  lemma QuantityIsPlain(x: Lexicon, before: string, d: Decimal, unit: string)
    requires IsNumber(d) && CanonicalUnit(x, unit)
    requires before != "" ==> !IsSpace(before[0]) && !StartsMarker(before[0])
    ensures Plain(before + Quantity(d, unit, ""))
  {
    hide Canonical, Registry;
    NumberStart(d);
    UnitEnds(x, unit, before + (d + " "));
    assert before + Quantity(d, unit, "") == before + (d + " ") + unit;
    var first := (before + Quantity(d, unit, ""))[0];
    assert first == if before != "" then before[0] else d[0];
  }

  // ---- numbers

  function ScalarValue(d: Decimal, p: Profile): Value { EmptyValue(p).(shape := Scalar, scalar := Some(d)) }

  lemma {:induction false} NothingTaken(tokens: seq<string>, rest: string)
    requires forall k :: 0 <= k < |tokens| ==> tokens[k] != ""
    requires TrimStart(rest) != "" ==> NoneStarts(tokens, TrimStart(rest)[0])
    ensures TakeOne(rest, tokens) == ("", rest)
  {
    if tokens == [] {
    } else {
      NothingTaken(tokens[1..], rest);
    }
  }

  /** Nothing follows, or after a blank something that does not go on with the notation. */
  predicate Apart(rest: string) {
    || rest == ""
    || (|rest| > 1 && rest[0] == ' ' && !IsSpace(rest[1]) && rest[1] !in ['–', '-', '—', '±', ',', '/'])
  }

  predicate NoRange(rest: string) { rest == "" || rest[0] == ',' || rest[0] == '/' || rest[0] == '±' || Apart(rest) }

  lemma ApartTakesNothing(rest: string)
    requires Apart(rest)
    ensures TakeOne(rest, ["±"]) == ("", rest) && TakeOne(rest, [",", "/"]) == ("", rest)
    ensures StopsUnit(rest)
  {
    assert rest != "" ==> TrimStart(rest) == rest[1..];
    NothingTaken(["±"], rest);
    NothingTaken([",", "/"], rest);
  }

  lemma NoDelimiter(rest: string)
    requires NoRange(rest)
    ensures TakeOne(rest, Delimiters("")) == ("", rest) && StopsUnit(rest)
  {
    if rest != "" && rest[0] == ' ' { assert TrimStart(rest) == rest[1..]; }
    NothingTaken(Delimiters(""), rest);
  }

  /** A quantity alone is a segment without a second end. */
  lemma PointReadsBack(x: Lexicon, d: Decimal, unit: string, rest: string)
    requires IsNumber(d) && CanonicalUnit(x, unit) && NoRange(rest)
    ensures ReadSegment(x, Quantity(d, unit, rest)) ==
      Success((Segment(Atom(d, unit), NO_ATOM, false, true, true), rest))
  {
    hide Canonical, LetterTable, Registry, ReadAtom, ParseDecimal, TakeOne;
    NumberStart(d);
    assert Quantity(d, unit, rest)[0] == d[0];
    TakesNothing(Quantity(d, unit, rest), ["[", "("]);
    NoDelimiter(rest);
    QuantityReadsBack(x, d, unit, rest);
  }

  lemma OneSegmentOnly(x: Lexicon, rest: string, before: seq<Segment>)
    requires before != [] && Apart(rest)
    ensures ReadSegments(x, rest, before) == Success((before, rest))
  {
    hide TakeOne, ReadSegment;
    ApartTakesNothing(rest);
  }

  lemma ReadsScalar(x: Lexicon, d: Decimal, rest: string, p: Profile)
    requires ValidProfile(p) && !p.role.ErrorMagnitude? && IsNumber(d) && Apart(rest)
    requires LetterTable(x.letters) && x.version == p.registryVersion
    ensures ReadValue(x, Quantity(d, p.canonicalUnit, rest), p) == Success((ScalarValue(d, p), rest))
  {
    hide Canonical, LetterTable, Registry, ReadAtom, ParseDecimal, TakeOne, ValidProfile, ReadSegment, CanonicalAtom;
    hide ReadSegments, Apart;
    var text := Quantity(d, p.canonicalUnit, rest);
    CanonicalUnitNamed(p);
    NumberStart(d);
    assert text[0] == d[0];
    TakesNothing(text, BOUND_TOKENS);
    PointReadsBack(x, d, p.canonicalUnit, rest);
    ApartTakesNothing(rest);
    OneSegmentOnly(x, rest, [Segment(Atom(d, p.canonicalUnit), NO_ATOM, false, true, true)]);
    CanonicalAtomIs(d, p);
  }

  /** A number written with the canonical unit is that number. */
  lemma ScalarsReadBack(d: Decimal, p: Profile, letters: char -> bool)
    requires ValidValue(ScalarValue(d, p), p) && !p.role.ErrorMagnitude? && LetterTable(letters)
    requires Utf8Length(Quantity(d, p.canonicalUnit, "")) <= MAX_INPUT
    ensures NormalizeText(Quantity(d, p.canonicalUnit, ""), p, letters) == Normalized(Some(ScalarValue(d, p)), None)
  {
    ValidProfileOf(ScalarValue(d, p), p);
    assert IsNumber(d);
    hide ValidProfile, ValidValue, ReadValue, LetterTable, Utf8Length, NormalizeText, Registry, Plain, Canonical;
    CanonicalUnitNamed(p);
    var x := Lexicon(p.registryVersion, letters);
    ReadsScalar(x, d, "", p);
    QuantityIsPlain(x, "", d, p.canonicalUnit);
    assert "" + Quantity(d, p.canonicalUnit, "") == Quantity(d, p.canonicalUnit, "");
    ReadWholeIsNormalized(Quantity(d, p.canonicalUnit, ""), ScalarValue(d, p), p, letters);
  }

  // ---- one-sided claims

  function BoundValue(c: BoundClaim, p: Profile): Value {
    EmptyValue(p).(shape := BoundClaimShape, bound := Some(c))
  }

  /** How a one-sided claim may be introduced. */
  predicate Introduces(token: string, c: BoundClaim) {
    match c.direction
    case Lower => if c.inclusive then token == ">=" || token == "≥" else token == ">"
    case Upper => if c.inclusive then token == "<=" || token == "≤" else token == "<"
    case OtherDirection(_) => false
  }

  lemma NoTokenIsBlank()
    ensures forall c :: c in "<>≤≥±" ==> !IsSpace(c) && !StartsMarker(c)
  {
  }

  lemma IntroductionIsTaken(token: string, c: BoundClaim, rest: string)
    requires Introduces(token, c) && rest != "" && StartsNumber(rest[0])
    ensures TakeOne(token + rest, BOUND_TOKENS) == (token, rest)
    ensures token != "" && !IsSpace(token[0]) && !StartsMarker(token[0])
  {
    hide TakeOne, IsSpace;
    NoTokenIsBlank();
    var k := if token == ">=" then 0 else if token == "<=" then 1 else if token == "≥" then 2
             else if token == "≤" then 3 else if token == ">" then 4 else 5;
    assert BOUND_TOKENS[k] == token;
    assert |token| == 1 ==> (token + rest)[1] == rest[0];
    TakesToken(rest, BOUND_TOKENS, k);
  }

  lemma ReadsBound(x: Lexicon, token: string, c: BoundClaim, p: Profile)
    requires ValidProfile(p) && !p.role.ErrorMagnitude? && IsNumber(c.value) && Introduces(token, c)
    requires LetterTable(x.letters) && x.version == p.registryVersion
    ensures ReadValue(x, token + Quantity(c.value, p.canonicalUnit, ""), p) == Success((BoundValue(c, p), ""))
  {
    hide Canonical, LetterTable, Registry, ReadAtom, ParseDecimal, TakeOne, ValidProfile, CanonicalAtom;
    var text := Quantity(c.value, p.canonicalUnit, "");
    CanonicalUnitNamed(p);
    NumberStart(c.value);
    assert text[0] == c.value[0];
    IntroductionIsTaken(token, c, text);
    QuantityReadsBack(x, c.value, p.canonicalUnit, "");
    CanonicalAtomIs(c.value, p);
  }

  /** A one-sided claim reads back with its direction, its number and its openness. */
  lemma BoundsReadBack(token: string, c: BoundClaim, p: Profile, letters: char -> bool)
    requires ValidValue(BoundValue(c, p), p) && !p.role.ErrorMagnitude? && Introduces(token, c) && LetterTable(letters)
    requires Utf8Length(token + Quantity(c.value, p.canonicalUnit, "")) <= MAX_INPUT
    ensures NormalizeText(token + Quantity(c.value, p.canonicalUnit, ""), p, letters) ==
      Normalized(Some(BoundValue(c, p)), None)
  {
    ValidProfileOf(BoundValue(c, p), p);
    assert IsNumber(c.value);
    hide ValidProfile, ValidValue, ReadValue, LetterTable, Utf8Length, NormalizeText, Registry, Plain, Canonical;
    CanonicalUnitNamed(p);
    NumberStart(c.value);
    var x := Lexicon(p.registryVersion, letters);
    ReadsBound(x, token, c, p);
    assert Quantity(c.value, p.canonicalUnit, "")[0] == c.value[0];
    IntroductionIsTaken(token, c, Quantity(c.value, p.canonicalUnit, ""));
    QuantityIsPlain(x, token, c.value, p.canonicalUnit);
    ReadWholeIsNormalized(token + Quantity(c.value, p.canonicalUnit, ""), BoundValue(c, p), p, letters);
  }

  // ---- error magnitudes

  /** How an error magnitude may be introduced: only "<" excludes the number itself. */
  predicate Marks(token: string, inclusive: bool) {
    if inclusive then token == "" || token == "±" || token == "<=" || token == "≤" else token == "<"
  }

  lemma MarkIsTaken(token: string, inclusive: bool, rest: string)
    requires Marks(token, inclusive) && rest != "" && StartsNumber(rest[0]) && !IsSpace(rest[0])
    ensures TakeOne(token + rest, MAGNITUDE_TOKENS) == (token, rest)
    ensures token != "" ==> !IsSpace(token[0]) && !StartsMarker(token[0])
  {
    if token == "" {
      assert token + rest == rest;
      TakesNothing(rest, MAGNITUDE_TOKENS);
    } else {
      var k := if token == "±" then 0 else if token == "<=" then 1 else if token == "≤" then 2 else 3;
      assert MAGNITUDE_TOKENS[k] == token;
      assert |token| == 1 ==> (token + rest)[1] == rest[0];
      TakesToken(rest, MAGNITUDE_TOKENS, k);
    }
  }

  lemma ReadsMagnitude(x: Lexicon, token: string, d: Decimal, inclusive: bool, p: Profile)
    requires ValidProfile(p) && p.role.ErrorMagnitude? && IsNumber(d) && Marks(token, inclusive)
    requires LetterTable(x.letters) && x.version == p.registryVersion
    ensures ReadValue(x, token + Quantity(d, p.canonicalUnit, ""), p) ==
      Success((BoundValue(BoundClaim(Upper, d, inclusive), p), ""))
  {
    hide Canonical, LetterTable, Registry, ReadAtom, ParseDecimal, TakeOne, ValidProfile, CanonicalAtom;
    var text := Quantity(d, p.canonicalUnit, "");
    CanonicalUnitNamed(p);
    NumberStart(d);
    assert text[0] == d[0];
    MarkIsTaken(token, inclusive, text);
    QuantityReadsBack(x, d, p.canonicalUnit, "");
    CanonicalAtomIs(d, p);
  }

  /** An error magnitude is an upper claim whatever introduces it. */
  lemma MagnitudesReadBack(token: string, d: Decimal, inclusive: bool, p: Profile, letters: char -> bool)
    requires ValidValue(BoundValue(BoundClaim(Upper, d, inclusive), p), p) && p.role.ErrorMagnitude?
    requires Marks(token, inclusive) && LetterTable(letters)
    requires Utf8Length(token + Quantity(d, p.canonicalUnit, "")) <= MAX_INPUT
    ensures NormalizeText(token + Quantity(d, p.canonicalUnit, ""), p, letters) ==
      Normalized(Some(BoundValue(BoundClaim(Upper, d, inclusive), p)), None)
  {
    var v := BoundValue(BoundClaim(Upper, d, inclusive), p);
    ValidProfileOf(v, p);
    assert IsNumber(d);
    hide ValidProfile, ValidValue, ReadValue, LetterTable, Utf8Length, NormalizeText, Registry, Plain, Canonical;
    CanonicalUnitNamed(p);
    NumberStart(d);
    var x := Lexicon(p.registryVersion, letters);
    ReadsMagnitude(x, token, d, inclusive, p);
    assert Quantity(d, p.canonicalUnit, "")[0] == d[0];
    MarkIsTaken(token, inclusive, Quantity(d, p.canonicalUnit, ""));
    QuantityIsPlain(x, token, d, p.canonicalUnit);
    ReadWholeIsNormalized(token + Quantity(d, p.canonicalUnit, ""), v, p, letters);
  }

  // ---- tolerances

  function ToleranceValue(t: Tolerance, p: Profile): Value {
    EmptyValue(p).(shape := ToleranceShape, tolerance := Some(t))
  }

  lemma SpanReadsBackExactly(t: Tolerance)
    requires ValidTolerance(t)
    ensures ToleranceSpan(t.nominal, t.kind, t.amount) == Success(t)
  {
    hide Canonical, ParseDecimal, RatOf, ToleranceAmount, RatAdd, Num, RatValue, DecimalFromRat;
    var bare := Tolerance(t.nominal, t.kind, t.amount, Interval(t.nominal, t.nominal, true, true));
    SameEnds(t, bare);
    SameNumberSameDecimal(DecimalFromRat(LowerEnd(t)).value, t.interval.lower);
    SameNumberSameDecimal(DecimalFromRat(UpperEnd(t)).value, t.interval.upper);
  }

  lemma SameEnds(t: Tolerance, u: Tolerance)
    requires IsNumber(t.nominal) && IsNumber(t.amount)
    requires (t.nominal, t.kind, t.amount) == (u.nominal, u.kind, u.amount)
    ensures LowerEnd(t) == LowerEnd(u) && UpperEnd(t) == UpperEnd(u)
  {
    hide Canonical, ParseDecimal, RatOf, RatMul, RatAdd, Num, RatValue;
  }

  /** The amount: a percentage of the nominal, or a quantity of the unit itself. */
  function AmountText(t: Tolerance, unit: string): string {
    if t.kind.Relative? then t.amount + "%" else Quantity(t.amount, unit, "")
  }

  function ToleranceText(t: Tolerance, unit: string): string {
    Quantity(t.nominal, unit, "±" + AmountText(t, unit))
  }

  /** A percentage is read as its number with or without percentages being units. */
  lemma PercentageReads(x: Lexicon, d: Decimal)
    requires IsNumber(d) && LetterTable(x.letters)
    ensures ReadAtom(x, d + "%") ==
      Success(if x.Known("%") then (Atom(d, "%"), "") else (Atom(d, ""), "%"))
  {
    hide Canonical, ScanPrefix, Scan, ParseDecimal, ParseSpelling, CanonicalShape, RoleMarker;
    hide ConditionalSuffix, Registry;
    NumberStart(d);
    ParseOfNumber(d);
    assert (d + "%")[0] == d[0];
    ScanRendered(d, "%");
    assert TrimStart("%") == "%" && "%"[..1] == "%" && "%"[1..] == "";
    assert x.Letters("") == 0;
    assert x.UnitLength("%") == if x.Known("%") then 1 else 0;
  }

  /** The tolerance its parts make, once they are read. */
  lemma PartsMakeTolerance(x: Lexicon, text: string, nominal: Atom, amount: Atom, after: string, t: Tolerance,
                           p: Profile)
    requires ReadAtom(x, text) == Success((amount, after)) && CanonicalAtom(nominal, "", p) == Success(t.nominal)
    requires IsNumber(t.nominal) && IsNumber(t.amount) && ToleranceSpan(t.nominal, t.kind, t.amount) == Success(t)
    requires amount.unit == "%" || TakeOne(after, ["%"]) == (if t.kind.Relative? then ("%", "") else ("", ""))
    requires amount.unit == "%" ==> t.kind.Relative? && after == ""
    requires t.kind.Relative? ==> amount.number == t.amount && (amount.unit == "" || amount.unit == "%")
    requires !t.kind.Relative? ==> t.kind.Absolute? && CanonicalAtom(amount, "", p) == Success(t.amount)
    ensures ReadTolerance(x, text, nominal, p) == Success((t, ""))
  {
    hide ToleranceSpan, CanonicalAtom, ReadAtom, TakeOne, Canonical;
  }

  lemma ReadsTolerance(x: Lexicon, t: Tolerance, p: Profile)
    requires ValidProfile(p) && ValidTolerance(t) && LetterTable(x.letters) && x.version == p.registryVersion
    requires t.kind.Absolute? ==> p.canonicalUnit != "%"
    ensures ReadTolerance(x, AmountText(t, p.canonicalUnit), Atom(t.nominal, p.canonicalUnit), p) == Success((t, ""))
  {
    assert IsNumber(t.nominal) && IsNumber(t.amount) && !t.kind.OtherTolerance?;
    SpanReadsBackExactly(t);
    hide *;
    AmountIs(t, p.canonicalUnit);
    CanonicalAtomIs(t.nominal, p);
    var nominal := Atom(t.nominal, p.canonicalUnit);
    if t.kind.Relative? {
      PercentageReads(x, t.amount);
      PercentTaken();
      var (amount, after) := ReadAtom(x, t.amount + "%").value;
      PartsMakeTolerance(x, t.amount + "%", nominal, amount, after, t, p);
    } else {
      KnownUnit(x, p);
      StopsUnitHere();
      QuantityReadsBack(x, t.amount, p.canonicalUnit, "");
      CanonicalAtomIs(t.amount, p);
      NoPercentHere();
      PartsMakeTolerance(x, AmountText(t, p.canonicalUnit), nominal, Atom(t.amount, p.canonicalUnit), "", t, p);
    }
  }

  lemma NoPercentHere()
    ensures TakeOne("", ["%"]) == ("", "")
  {
    TakesFromNothing(["%"]);
  }

  lemma StopsUnitHere()
    ensures StopsUnit("")
  {
  }

  lemma AmountIs(t: Tolerance, unit: string)
    ensures AmountText(t, unit) == if t.kind.Relative? then t.amount + "%" else Quantity(t.amount, unit, "")
  {
    hide Quantity;
  }

  lemma PercentTaken()
    ensures TakeOne("%", ["%"]) == ("%", "")
  {
    assert "%" == ['%'] + "";
    TakesChar('%', "", ["%"], 0);
  }

  lemma KnownUnit(x: Lexicon, p: Profile)
    requires ValidProfile(p) && x.version == p.registryVersion && LetterTable(x.letters)
    ensures CanonicalUnit(x, p.canonicalUnit)
  {
    hide ValidProfile, Registry, LetterTable;
    CanonicalUnitNamed(p);
  }

  /** The value, once what it consists of is read. */
  lemma PartsMakeToleranceValue(x: Lexicon, input: string, first: Segment, rest: string, after: string, t: Tolerance,
                                p: Profile)
    requires !p.role.ErrorMagnitude? && TakeOne(input, BOUND_TOKENS) == ("", input)
    requires ReadSegment(x, input) == Success((first, rest)) && !first.interval
    requires TakeOne(rest, ["±"]) == ("±", after)
    requires ReadTolerance(x, after, first.lower, p) == Success((t, ""))
    ensures ReadValue(x, input, p) == Success((ToleranceValue(t, p), ""))
  {
    hide ReadTolerance, ReadSegment, TakeOne, Canonical, ReadSegments, WithSegments, ReadAtom, CanonicalAtom;
  }

  lemma ReadsToleranceValue(x: Lexicon, t: Tolerance, p: Profile)
    requires ValidProfile(p) && !p.role.ErrorMagnitude? && ValidTolerance(t)
    requires LetterTable(x.letters) && x.version == p.registryVersion
    requires t.kind.Absolute? ==> p.canonicalUnit != "%"
    ensures ReadValue(x, ToleranceText(t, p.canonicalUnit), p) == Success((ToleranceValue(t, p), ""))
  {
    assert IsNumber(t.nominal);
    hide *;
    var unit := p.canonicalUnit;
    var amount := AmountText(t, unit);
    KnownUnit(x, p);
    ToleranceStart(t, unit, amount);
    PointReadsBack(x, t.nominal, unit, "±" + amount);
    ReadsTolerance(x, t, p);
    PartsMakeToleranceValue(x, ToleranceText(t, unit), Segment(Atom(t.nominal, unit), NO_ATOM, false, true, true),
                            "±" + amount, amount, t, p);
  }

  lemma ToleranceStart(t: Tolerance, unit: string, amount: string)
    requires IsNumber(t.nominal) && amount == AmountText(t, unit)
    ensures ToleranceText(t, unit) == Quantity(t.nominal, unit, "±" + amount)
    ensures TakeOne(ToleranceText(t, unit), BOUND_TOKENS) == ("", ToleranceText(t, unit))
    ensures StopsUnit("±" + amount) && TakeOne("±" + amount, ["±"]) == ("±", amount)
  {
    hide Canonical, TakeOne;
    NumberStart(t.nominal);
    assert ToleranceText(t, unit)[0] == t.nominal[0];
    TakesNothing(ToleranceText(t, unit), BOUND_TOKENS);
    TakesChar('±', amount, ["±"], 0);
  }

  lemma ToleranceIsPlain(x: Lexicon, t: Tolerance, unit: string)
    requires IsNumber(t.nominal) && IsNumber(t.amount) && CanonicalUnit(x, unit)
    ensures Plain(ToleranceText(t, unit))
  {
    hide Canonical, Registry;
    NumberStart(t.nominal);
    var front := t.nominal + (" " + (unit + "±"));
    assert ToleranceText(t, unit) == front + AmountText(t, unit);
    assert (front + AmountText(t, unit))[0] == t.nominal[0];
    if t.kind.Relative? {
    } else {
      assert AmountText(t, unit) == t.amount + " " + unit;
      UnitEnds(x, unit, front + (t.amount + " "));
      assert front + AmountText(t, unit) == front + (t.amount + " ") + unit;
    }
  }

  /** A tolerance reads back with its nominal, its amount, its kind and its exact interval; an
      absolute one must not be in percent, because a percent sign makes it relative. */
  lemma TolerancesReadBack(t: Tolerance, p: Profile, letters: char -> bool)
    requires ValidValue(ToleranceValue(t, p), p) && !p.role.ErrorMagnitude? && LetterTable(letters)
    requires t.kind.Absolute? ==> p.canonicalUnit != "%"
    requires Utf8Length(ToleranceText(t, p.canonicalUnit)) <= MAX_INPUT
    ensures NormalizeText(ToleranceText(t, p.canonicalUnit), p, letters) ==
      Normalized(Some(ToleranceValue(t, p)), None)
  {
    ValidProfileOf(ToleranceValue(t, p), p);
    assert ValidTolerance(t) && IsNumber(t.nominal) && IsNumber(t.amount);
    hide ValidProfile, ValidValue, ReadValue, LetterTable, Utf8Length, NormalizeText, Registry, Plain, Canonical;
    hide ValidTolerance, ToleranceText;
    CanonicalUnitNamed(p);
    var x := Lexicon(p.registryVersion, letters);
    ReadsToleranceValue(x, t, p);
    ToleranceIsPlain(x, t, p.canonicalUnit);
    ReadWholeIsNormalized(ToleranceText(t, p.canonicalUnit), ToleranceValue(t, p), p, letters);
  }

  // ---- lists

  function ListValue(s: seq<Decimal>, p: Profile): Value {
    EmptyValue(p).(shape := DiscreteSet, values := Some(s))
  }

  /** Quantities separated by commas or slashes. */
  function ListText(s: seq<Decimal>, unit: string, separator: char): (text: string)
    decreases |s|, 0
  {
    if s == [] then "" else Quantity(s[0], unit, AfterText(s[1..], unit, separator))
  }

  function AfterText(s: seq<Decimal>, unit: string, separator: char): (text: string)
    decreases |s|, 1
  {
    if s == [] then "" else [separator] + ListText(s, unit, separator)
  }

  function PointAt(unit: string, d: Decimal): Segment { Segment(Atom(d, unit), NO_ATOM, false, true, true) }

  function Points(s: seq<Decimal>, unit: string): (r: seq<Segment>)
    ensures |r| == |s| && forall k :: 0 <= k < |s| ==> r[k] == PointAt(unit, s[k])
  {
    seq(|s|, k requires 0 <= k < |s| => PointAt(unit, s[k]))
  }

  lemma {:induction false} PointsReadBack(x: Lexicon, s: seq<Decimal>, unit: string, separator: char,
                                          before: seq<Segment>)
    requires AllNumbers(s) && CanonicalUnit(x, unit) && (separator == ',' || separator == '/')
    requires before != [] && !before[0].interval && !before[|before| - 1].interval
    requires before[|before| - 1].lower.unit != ""
    ensures ReadSegments(x, AfterText(s, unit, separator), before) == Success((before + Points(s, unit), ""))
    decreases |s|
  {
    hide Canonical, CanonicalUnit, ParseDecimal, Points, TakeOne, ReadSegment, Quantity;
    if s == [] {
      NothingLeftReads(x, before);
      assert before + Points(s, unit) == before;
    } else {
      var rest := AfterText(s[1..], unit, separator);
      var text := ListText(s, unit, separator);
      TakesChar(separator, text, [",", "/"], if separator == ',' then 0 else 1);
      PointReadsBack(x, s[0], unit, rest);
      UnitEnds(x, unit, "");
      PointsReadBack(x, s[1..], unit, separator, before + [PointAt(unit, s[0])]);
      assert Points(s, unit) == [PointAt(unit, s[0])] + Points(s[1..], unit);
      assert before + Points(s, unit) == before + [PointAt(unit, s[0])] + Points(s[1..], unit);
    }
  }

  predicate AllNumbers(s: seq<Decimal>) { forall k :: 0 <= k < |s| ==> IsNumber(s[k]) }

  lemma {:induction false} NumbersReadBack(s: seq<Decimal>, p: Profile)
    requires ValidProfile(p) && AllNumbers(s)
    ensures PointsOf(Points(s, p.canonicalUnit), p.canonicalUnit, p) == Success(s)
  {
    hide ValidProfile, Canonical, CanonicalAtom;
    if s == [] {
    } else {
      var n := |s| - 1;
      NumbersReadBack(s[..n], p);
      assert Points(s, p.canonicalUnit)[..n] == Points(s[..n], p.canonicalUnit);
      CanonicalAtomIs(s[n], p);
      assert s == s[..n] + [s[n]];
    }
  }

  lemma ReadsList(x: Lexicon, s: seq<Decimal>, separator: char, p: Profile)
    requires ValidProfile(p) && !p.role.ErrorMagnitude? && |s| > 1 && AllNumbers(s)
    requires LetterTable(x.letters) && x.version == p.registryVersion && (separator == ',' || separator == '/')
    ensures ReadValue(x, ListText(s, p.canonicalUnit, separator), p) == Success((ListValue(s, p), ""))
  {
    hide Canonical, LetterTable, Registry, ReadAtom, ParseDecimal, TakeOne, ValidProfile, ReadSegment, CanonicalAtom;
    hide ReadSegments, PointsOf, Points;
    var unit := p.canonicalUnit;
    var rest := AfterText(s[1..], unit, separator);
    CanonicalUnitNamed(p);
    NumberStart(s[0]);
    assert ListText(s, unit, separator)[0] == s[0][0];
    TakesNothing(ListText(s, unit, separator), BOUND_TOKENS);
    PointReadsBack(x, s[0], unit, rest);
    TakesNothing(rest, ["±"]);
    PointsReadBack(x, s[1..], unit, separator, [PointAt(unit, s[0])]);
    assert [PointAt(unit, s[0])] + Points(s[1..], unit) == Points(s, unit);
    NumbersReadBack(s, p);
  }

  lemma {:induction false} ListEnds(x: Lexicon, s: seq<Decimal>, unit: string, separator: char)
    requires s != [] && CanonicalUnit(x, unit)
    ensures EndsIn(ListText(s, unit, separator), unit[|unit| - 1])
    decreases |s|
  {
    hide CanonicalUnit;
    UnitEnds(x, unit, "");
    var last := unit[|unit| - 1];
    var after := AfterText(s[1..], unit, separator);
    if |s| == 1 {
      assert unit + after == unit;
      assert EndsIn(unit, last);
    } else {
      ListEnds(x, s[1..], unit, separator);
      EndOfSum([separator], ListText(s[1..], unit, separator), last);
      EndOfSum(unit, after, last);
    }
    EndOfSum(" ", unit + after, last);
    EndOfSum(s[0], " " + (unit + after), last);
  }

  lemma ListIsPlain(x: Lexicon, s: seq<Decimal>, unit: string, separator: char)
    requires s != [] && AllNumbers(s) && CanonicalUnit(x, unit)
    ensures Plain(ListText(s, unit, separator))
  {
    hide Canonical, CanonicalUnit;
    NumberStart(s[0]);
    UnitEnds(x, unit, "");
    ListEnds(x, s, unit, separator);
    assert ListText(s, unit, separator)[0] == s[0][0];
  }

  /** Two numbers or more, each with its unit, are the list of those numbers in that order. */
  lemma ListsReadBack(s: seq<Decimal>, separator: char, p: Profile, letters: char -> bool)
    requires ValidValue(ListValue(s, p), p) && |s| > 1 && !p.role.ErrorMagnitude? && LetterTable(letters)
    requires separator == ',' || separator == '/'
    requires Utf8Length(ListText(s, p.canonicalUnit, separator)) <= MAX_INPUT
    ensures NormalizeText(ListText(s, p.canonicalUnit, separator), p, letters) ==
      Normalized(Some(ListValue(s, p)), None)
  {
    ValidProfileOf(ListValue(s, p), p);
    assert AllNumbers(s);
    hide ValidProfile, ValidValue, ReadValue, LetterTable, Utf8Length, NormalizeText, Registry, Plain, Canonical;
    hide ListText;
    CanonicalUnitNamed(p);
    var x := Lexicon(p.registryVersion, letters);
    ReadsList(x, s, separator, p);
    ListIsPlain(x, s, p.canonicalUnit, separator);
    ReadWholeIsNormalized(ListText(s, p.canonicalUnit, separator), ListValue(s, p), p, letters);
  }

  // ---- commas that could be anything

  lemma BareCommaFails(x: Lexicon, d: Decimal, rest: string, p: Profile)
    requires IsNumber(d) && LetterTable(x.letters) && !p.role.ErrorMagnitude? && !HasPrefix(rest, " ")
    ensures ReadValue(x, d + ("," + rest), p) == Failure(Ambiguous)
  {
    hide Canonical, LetterTable, Registry, ReadAtom, ParseDecimal, TakeOne, CanonicalAtom, WithSegments;
    var after := "," + rest;
    var text := d + after;
    NumberStart(d);
    assert text[0] == d[0];
    TakesNothing(text, BOUND_TOKENS);
    TakesNothing(text, ["[", "("]);
    AtomReadsBack(x, d, after);
    TakesNothing(after, Delimiters(""));
    TakesNothing(after, ["±"]);
    TakesChar(',', rest, [",", "/"], 0);
    assert !HasPrefix(after, " ");
  }

  /** A comma right between a bare number and what follows could be a decimal or a grouping mark, so
      the text is refused, whatever follows. */
  lemma BareCommaIsAmbiguous(d: Decimal, rest: string, p: Profile, letters: char -> bool)
    requires IsNumber(d) && LetterTable(letters) && ValidProfile(p) && p.shapes != [] && p.role != OtherRole("")
    requires !p.role.ErrorMagnitude? && rest != "" && !HasPrefix(rest, " ") && !IsSpace(rest[|rest| - 1])
    requires Utf8Length(d + ("," + rest)) <= MAX_INPUT
    ensures NormalizeText(d + ("," + rest), p, letters) == Normalized(None, Some(Ambiguous))
  {
    var text := d + ("," + rest);
    NumberStart(d);
    assert text[0] == d[0] && text[|text| - 1] == rest[|rest| - 1];
    assert Plain(text);
    PlainIsKept(text);
    BareCommaFails(Lexicon(p.registryVersion, letters), d, rest, p);
    hide ValidProfile, ReadValue, Utf8Length, RoleMarker, Finish, Trim, Plain, Canonical, LetterTable;
  }

  // ---- role markers

  /** The words that name a role. */
  predicate Names(word: string, role: Role) {
    match role
    case AbsoluteMaximum => word == "absolute maximum"
    case Nominal => word == "nominal"
    case Typical => word == "typical" || word == "typ."
    case _ => false
  }

  /** The text is small letters, blanks and other characters that have no capitals. */
  predicate SmallAscii(s: string) { forall k :: 0 <= k < |s| ==> s[k] < '\U{80}' && !('A' <= s[k] <= 'Z') }

  lemma {:induction false} SmallIsShort(s: string)
    requires SmallAscii(s)
    ensures Utf8Length(s) == |s|
  {
    if s == "" {
    } else {
      SmallIsShort(s[1..]);
    }
  }

  lemma SmallPrefix(word: string, rest: string)
    requires SmallAscii(word)
    ensures ToLower(word + rest)[..|word|] == word && (word + rest)[..|word|] == word
    ensures HasPrefix(ToLower(word + rest), word)
  {
    forall k | 0 <= k < |word| ensures ToLower(word + rest)[k] == word[k] { assert (word + rest)[k] == word[k]; }
  }

  /** Different words of the table differ within both. */
  predicate Differ(a: string, b: string) { exists k :: 0 <= k < |a| && k < |b| && a[k] != b[k] }

  lemma NotPrefixed(input: string, word: string, other: string)
    requires HasPrefix(ToLower(input), word) && Differ(word, other)
    ensures !HasPrefix(ToLower(input), other)
  {
  }

  lemma {:induction false} MarkerFound(word: string, rest: string, k: nat, n: nat)
    requires SmallAscii(word) && rest != "" && IsSpace(rest[0]) && k <= n < |MARKERS| && MARKERS[n].0 == word
    requires forall j :: k <= j < n ==> Differ(word, MARKERS[j].0)
    ensures MarkerAt(word + rest, k) == Some((Trim(rest), MARKERS[n].1))
    decreases n - k
  {
    hide Trim, Differ;
    SmallPrefix(word, rest);
    if k == n {
      SmallIsShort(word);
      assert (word + rest)[|word|..] == rest;
    } else {
      NotPrefixed(word + rest, word, MARKERS[k].0);
      MarkerFound(word, rest, k + 1, n);
    }
  }

  /** Where a word stands in the table, and that no word before it could be taken for it. */
  lemma MarkerPlace(word: string, role: Role) returns (n: nat)
    requires Names(word, role)
    ensures n < |MARKERS| && MARKERS[n] == (word, role) && SmallAscii(word)
    ensures word != "" && !IsSpace(word[0]) && forall j :: 0 <= j < n ==> Differ(word, MARKERS[j].0)
  {
    n := if word == "absolute maximum" then 0 else if word == "nominal" then 1 else if word == "typical" then 2 else 3;
    assert n > 0 ==> word[0] != MARKERS[0].0[0];
    assert n > 1 ==> word[0] != MARKERS[1].0[0];
    assert n > 2 ==> word[3] != MARKERS[2].0[3];
  }

  lemma MarkerIsRead(word: string, role: Role, text: string)
    requires Names(word, role) && Plain(text)
    ensures RoleMarker(word + (" " + text)) == Some((text, role))
    ensures Trim(word + (" " + text)) == word + (" " + text)
  {
    var n := MarkerPlace(word, role);
    BlankIsTrimmed(text);
    MarkedEnds(word, text);
    NothingToTrim(word + (" " + text));
    hide Differ, MarkerAt, SmallAscii, Names, Trim, IsSpace;
    assert (" " + text)[0] == ' ' && IsSpace(' ') by { BlankIsSpace(); }
    MarkerFound(word, " " + text, 0, n);
  }

  lemma BlankIsSpace()
    ensures IsSpace(' ')
  {
  }

  lemma MarkedEnds(word: string, text: string)
    requires word != "" && text != ""
    ensures var whole := word + (" " + text);
      whole != "" && whole[0] == word[0] && whole[|whole| - 1] == text[|text| - 1]
  {
  }

  lemma BlankIsTrimmed(text: string)
    requires text != "" && !IsSpace(text[0]) && !IsSpace(text[|text| - 1])
    ensures Trim(" " + text) == text
  {
    var blank := " " + text;
    assert IsSpace(blank[0]) && blank[1..] == text;
    assert TrimStart(blank) == TrimStart(text) == text;
    NothingToTrim(text);
  }

  lemma NothingToTrim(s: string)
    requires s != "" && !IsSpace(s[0]) && !IsSpace(s[|s| - 1])
    ensures Trim(s) == s
  {
    assert TrimStart(s) == s;
    assert TrimEnd(s) == s;
  }

  /** A marker that names the configured role changes nothing; one that names another refuses the
      text, because markers never redefine the role. */
  lemma MarkersAgree(word: string, role: Role, text: string, v: Value, p: Profile, letters: char -> bool)
    requires Names(word, role) && ValidValue(v, p) && v.context == Unconditional("") && Plain(text)
    requires Utf8Length(word + (" " + text)) <= MAX_INPUT
    requires ReadValue(Lexicon(p.registryVersion, letters), text, p) == Success((v, ""))
    ensures NormalizeText(word + (" " + text), p, letters) ==
      if role == p.role then Normalized(Some(v), None) else Normalized(None, Some(Ambiguous))
  {
    MarkerIsRead(word, role, text);
    MarkedStart(word, role, text);
    hide *;
    MarkedIsValue(word + (" " + text), role, text, v, p, letters);
  }

  lemma MarkedStart(word: string, role: Role, text: string)
    requires Names(word, role)
    ensures word + (" " + text) != ""
  {
  }

  lemma MarkedIsValue(raw: string, role: Role, text: string, v: Value, p: Profile, letters: char -> bool)
    requires Trim(raw) == raw && raw != "" && RoleMarker(raw) == Some((text, role)) && Utf8Length(raw) <= MAX_INPUT
    requires ReadValue(Lexicon(p.registryVersion, letters), text, p) == Success((v, ""))
    requires ValidValue(v, p) && v.context == Unconditional("")
    ensures NormalizeText(raw, p, letters) ==
      if role == p.role then Normalized(Some(v), None) else Normalized(None, Some(Ambiguous))
  {
    ValidProfileOf(v, p);
    NothingLeftFinishes(v, raw, p);
    hide ValidProfile, ValidValue, ReadValue, Utf8Length, RoleMarker, Finish, Trim;
  }

  // ---- conditions

  const CONDITIONS: seq<string> := ["@", "at ", "when ", "if ", "under ", "with ", "depends on "]

  /** A condition: one of the introducing words, and the rest of it. */
  predicate IsCondition(s: string) {
    && (exists k :: 0 <= k < |CONDITIONS| && HasPrefix(s, CONDITIONS[k]))
    && !IsSpace(s[|s| - 1])
  }

  lemma ConditionHead(s: string)
    requires IsCondition(s)
    ensures ConditionalSuffix(s) && s[0] in "@awiud" && (s[0] == 'a' ==> |s| > 1 && s[1] == 't')
  {
    var k :| 0 <= k < |CONDITIONS| && HasPrefix(s, CONDITIONS[k]);
    var word := CONDITIONS[k];
    assert s == word + s[|word|..];
    SmallPrefix(word, s[|word|..]);
    assert s[0] == word[0];
  }

  lemma ConditionStart(s: string)
    requires IsCondition(s)
    ensures ConditionalSuffix(s) && RoleMarker(s).None? && Trim(" " + s) == s && Apart(" " + s)
  {
    ConditionHead(s);
    BlankIsTrimmed(s);
    hide ConditionalSuffix, MarkerAt, IsCondition, Trim;
    if s[0] == 'a' {
      AtIsNoMarker(s, 0);
    } else {
      NoMarkerAt(s, 0);
    }
  }

  lemma {:induction false} AtIsNoMarker(s: string, k: nat)
    requires |s| > 1 && s[0] == 'a' && s[1] == 't'
    ensures MarkerAt(s, k) == None
    decreases |MARKERS| - k
  {
    if k >= |MARKERS| {
    } else {
      assert ToLower(s)[0] == 'a' && ToLower(s)[1] == 't';
      assert MARKERS[k].0[0] != 'a' || MARKERS[k].0[1] != 't';
      AtIsNoMarker(s, k + 1);
    }
  }

  /** A number under a condition keeps the whole text as its context, and is never unconditional. */
  lemma ConditionsAreKept(d: Decimal, condition: string, p: Profile, letters: char -> bool)
    requires !p.role.ErrorMagnitude? && IsCondition(condition) && LetterTable(letters) && IsNumber(d)
    requires Utf8Length(Quantity(d, p.canonicalUnit, " " + condition)) <= MAX_INPUT
    requires var text := Quantity(d, p.canonicalUnit, " " + condition);
      ValidValue(ScalarValue(d, p).(context := Conditional(text)), p)
    ensures var text := Quantity(d, p.canonicalUnit, " " + condition);
      NormalizeText(text, p, letters) ==
        Normalized(Some(ScalarValue(d, p).(context := Conditional(text))), Some(ContextRequired))
  {
    var text := Quantity(d, p.canonicalUnit, " " + condition);
    var x := Lexicon(p.registryVersion, letters);
    ValidProfileOf(ScalarValue(d, p).(context := Conditional(text)), p);
    hide *;
    ConditionIsPlain(d, p.canonicalUnit, condition);
    PlainIsKept(text);
    ConditionStart(condition);
    PlainIsSome(text);
    ReadsScalar(x, d, " " + condition, p);
    SuffixIsContext(ScalarValue(d, p), condition, text, p, letters);
  }

  lemma PlainIsSome(text: string)
    requires Plain(text)
    ensures text != ""
  {
  }

  /** What is read before a condition is a value in that context. */
  lemma SuffixIsContext(v: Value, condition: string, text: string, p: Profile, letters: char -> bool)
    requires Trim(text) == text && text != "" && RoleMarker(text).None? && Utf8Length(text) <= MAX_INPUT
    requires ReadValue(Lexicon(p.registryVersion, letters), text, p) == Success((v, " " + condition))
    requires Trim(" " + condition) == condition && RoleMarker(condition).None? && ConditionalSuffix(condition)
    requires ValidValue(v.(context := Conditional(text)), p)
    ensures NormalizeText(text, p, letters) == Normalized(Some(v.(context := Conditional(text))), Some(ContextRequired))
  {
    ValidProfileOf(v.(context := Conditional(text)), p);
    NoCondition();
    hide ValidProfile, ValidValue, ReadValue, Utf8Length, ConditionalSuffix, RoleMarker, Trim;
  }

  lemma NoCondition()
    ensures !ConditionalSuffix("")
  {
  }

  lemma ConditionIsPlain(d: Decimal, unit: string, condition: string)
    requires IsNumber(d) && IsCondition(condition)
    ensures Plain(Quantity(d, unit, " " + condition))
  {
    hide Canonical;
    NumberStart(d);
    var text := Quantity(d, unit, " " + condition);
    assert text == d + (" " + (unit + " ")) + condition;
    assert text[0] == d[0] && text[|text| - 1] == condition[|condition| - 1];
  }
}
