/** Normalizing raw text into a candidate value under a profile, and reading back what is written. */
module Normalization {
  import opened Wrappers
  import opened Decimals
  import opened Rationals
  import opened Profiles
  import opened Values
  import opened RawParser

  // ---- numbers in canonical units

  lemma ConvertedIsNumber(value: Decimal, unit: string, p: Profile)
    requires Convert(value, unit, p).Success?
    ensures IsNumber(Convert(value, unit, p).value)
  {
    hide Canonical, ValidProfile, ProfileFactor, RatMul, RatValue, DecimalFromRat, Num, RatOf, ParseDecimal;
    ConvertIsExact(value, unit, p, Convert(value, unit, p).value);
  }

  /** The atom in canonical units; its own unit wins over the shared one. */
  function CanonicalAtom(atom: Atom, shared: string, p: Profile): (r: Result<Decimal, Reason>)
    ensures r.Success? ==> IsNumber(r.value)
  {
    var unit := if atom.unit == "" then shared else atom.unit;
    if unit == "" && p.declaredInputUnit == "" then Failure(MissingUnit)
    else match Convert(atom.number, unit, p)
      case Success(d) =>
        ConvertedIsNumber(atom.number, unit, p);
        Success(d)
      case Failure(e) => Failure(if e.Precision? then UnsupportedPrecisions else UnsupportedUnits)
  }

  // ---- segments

  /** The unit of the last segment, which the others share. */
  function SharedUnit(segments: seq<Segment>): string
    requires segments != []
  {
    var last := segments[|segments| - 1];
    if last.interval then last.upper.unit else if |segments| > 1 then last.lower.unit else ""
  }

  function PointOf(s: Segment, shared: string, p: Profile): (r: Result<Decimal, Reason>)
    ensures r.Success? ==> IsNumber(r.value)
  {
    CanonicalAtom(s.lower, if s.interval && s.upper.unit != "" then s.upper.unit else shared, p)
  }

  function SpanOf(s: Segment, shared: string, p: Profile): Result<Interval, Reason> {
    var lower :- PointOf(s, shared, p);
    var upper :- CanonicalAtom(s.upper, shared, p);
    var interval := Interval(lower, upper, s.lowerInclusive, s.upperInclusive);
    if ValidInterval(interval) then Success(interval) else Failure(InvalidInterval)
  }

  function PointsOf(segments: seq<Segment>, shared: string, p: Profile): Result<seq<Decimal>, Reason> {
    if segments == [] then Success([])
    else
      var before :- PointsOf(segments[..|segments| - 1], shared, p);
      var point :- PointOf(segments[|segments| - 1], shared, p);
      Success(before + [point])
  }

  function SpansOf(segments: seq<Segment>, shared: string, p: Profile): Result<seq<Interval>, Reason> {
    if segments == [] then Success([])
    else
      var before :- SpansOf(segments[..|segments| - 1], shared, p);
      var span :- SpanOf(segments[|segments| - 1], shared, p);
      Success(before + [span])
  }

  /** The value with the payload the segments stand for. */
  function WithSegments(v: Value, segments: seq<Segment>, p: Profile): Result<Value, Reason>
    requires segments != []
  {
    if segments[|segments| - 1].interval then
      var spans :- SpansOf(segments, SharedUnit(segments), p);
      Success(v.(shape := IntervalSet, intervals := Some(spans)))
    else if |segments| > 1 then
      var points :- PointsOf(segments, SharedUnit(segments), p);
      Success(v.(shape := DiscreteSet, values := Some(points)))
    else
      var point :- PointOf(segments[0], SharedUnit(segments), p);
      Success(v.(shape := Scalar, scalar := Some(point)))
  }

  lemma {:induction false} EarlierFailureStays(segments: seq<Segment>, n: nat, shared: string, p: Profile)
    requires n <= |segments|
    ensures PointsOf(segments[..n], shared, p).Failure? ==>
      PointsOf(segments, shared, p) == PointsOf(segments[..n], shared, p)
    ensures SpansOf(segments[..n], shared, p).Failure? ==>
      SpansOf(segments, shared, p) == SpansOf(segments[..n], shared, p)
    decreases |segments| - n
  {
    hide PointOf, SpanOf;
    if n == |segments| {
      assert segments[..n] == segments;
    } else {
      EarlierFailureStays(segments, n + 1, shared, p);
      assert segments[..n + 1][..n] == segments[..n];
    }
  }

  method SetSegments(v: Value, segments: seq<Segment>, p: Profile) returns (r: Result<Value, Reason>)
    requires segments != []
    ensures r == WithSegments(v, segments, p)
  {
    hide PointOf, SpanOf;
    var shared := SharedUnit(segments);
    var interval := segments[|segments| - 1].interval;
    var points: seq<Decimal> := [];
    var spans: seq<Interval> := [];
    if !interval && |segments| == 1 {
      var point :- PointOf(segments[0], shared, p);
      return Success(v.(shape := Scalar, scalar := Some(point)));
    }
    for n := 0 to |segments|
      invariant interval ==> SpansOf(segments[..n], shared, p) == Success(spans)
      invariant !interval ==> PointsOf(segments[..n], shared, p) == Success(points)
    {
      assert segments[..n + 1][..n] == segments[..n];
      EarlierFailureStays(segments, n + 1, shared, p);
      if interval {
        var span :- SpanOf(segments[n], shared, p);
        spans := spans + [span];
      } else {
        var point :- PointOf(segments[n], shared, p);
        points := points + [point];
      }
    }
    assert segments[..|segments|] == segments;
    return Success(if interval then v.(shape := IntervalSet, intervals := Some(spans))
                   else v.(shape := DiscreteSet, values := Some(points)));
  }

  // ---- tolerances

  /** The ends of nominal +/- amount, when both are decimals. */
  function ToleranceSpan(nominal: Decimal, kind: ToleranceType, amount: Decimal): Result<Tolerance, Reason>
    requires IsNumber(nominal) && IsNumber(amount)
  {
    var t := Tolerance(nominal, kind, amount, Interval(nominal, nominal, true, true));
    if RatOf(amount).num < 0 then Failure(UnsupportedShape)
    else match DecimalFromRat(LowerEnd(t))
      case Failure(e) => Failure(DecimalReason(e))
      case Success(lower) =>
        match DecimalFromRat(UpperEnd(t))
        case Failure(e) => Failure(DecimalReason(e))
        case Success(upper) => Success(t.(interval := Interval(lower, upper, true, true)))
  }

  function ReadTolerance(x: Lexicon, rest: string, nominalAtom: Atom, p: Profile): Result<(Tolerance, string), Reason> {
    var amount :- ReadAtom(x, rest);
    var nominal :- CanonicalAtom(nominalAtom, "", p);
    var (percent, after) := if amount.0.unit == "%" then ("%", amount.1) else TakeOne(amount.1, ["%"]);
    if percent != "" then
      if amount.0.unit != "" && amount.0.unit != "%" then Failure(UnsupportedShape)
      else
        var t :- ToleranceSpan(nominal, Relative, amount.0.number);
        Success((t, after))
    else
      var number :- CanonicalAtom(amount.0, "", p);
      var t :- ToleranceSpan(nominal, Absolute, number);
      Success((t, after))
  }

  // ---- the value

  function EmptyValue(p: Profile): Value {
    Value(p.schemaVersion, p.quantity, p.role, OtherShape(""), p.canonicalUnit, p.registryVersion,
          None, None, None, None, None, Unconditional(""))
  }

  const MAGNITUDE_TOKENS: seq<string> := ["±", "<=", "≤", "<"]
  const BOUND_TOKENS: seq<string> := [">=", "<=", "≥", "≤", ">", "<"]

  function WithBound(v: Value, direction: Direction, number: Decimal, inclusive: bool): Value {
    v.(shape := BoundClaimShape, bound := Some(BoundClaim(direction, number, inclusive)))
  }

  /** The value the text starts with, and what follows it. */
  function ReadValue(x: Lexicon, input: string, p: Profile): Result<(Value, string), Reason> {
    if p.role.ErrorMagnitude? then
      var (marker, start) := TakeOne(input, MAGNITUDE_TOKENS);
      var atom :- ReadAtom(x, start);
      var number :- CanonicalAtom(atom.0, "", p);
      Success((WithBound(EmptyValue(p), Upper, number, marker != "<"), atom.1))
    else
      var (operator, start) := TakeOne(input, BOUND_TOKENS);
      if operator != "" then
        var atom :- ReadAtom(x, start);
        var number :- CanonicalAtom(atom.0, "", p);
        var direction := if operator == ">=" || operator == "≥" || operator == ">" then Lower else Upper;
        Success((WithBound(EmptyValue(p), direction, number, operator != ">" && operator != "<"), atom.1))
      else
        var first :- ReadSegment(x, start);
        var (plusMinus, after) := if first.0.interval then ("", first.1) else TakeOne(first.1, ["±"]);
        if plusMinus != "" then
          var t :- ReadTolerance(x, after, first.0.lower, p);
          Success((EmptyValue(p).(shape := ToleranceShape, tolerance := Some(t.0)), t.1))
        else
          var segments :- ReadSegments(x, first.1, [first.0]);
          var v :- WithSegments(EmptyValue(p), segments.0, p);
          Success((v, segments.1))
  }

  function Refused(reason: Reason): Normalized { Normalized(None, Some(reason)) }

  /** Checks the value and what is left of the text. */
  function Finish(v: Value, rest: string, raw: string, p: Profile): Normalized {
    if v.shape !in p.shapes then Refused(if v.shape.Scalar? then Ambiguous else UnsupportedShape)
    else
      var marker := RoleMarker(Trim(rest));
      if marker.Some? && marker.value.1 != p.role then Refused(Ambiguous)
      else
        var remainder := Trim(if marker.Some? then marker.value.0 else rest);
        if remainder != "" && !ConditionalSuffix(remainder) then Refused(UnsupportedShape)
        else
          var result := if remainder == "" then v else v.(context := Conditional(raw));
          if !ValidValue(result, p) then Refused(UnsupportedShape)
          else Normalized(Some(result), if remainder == "" then None else Some(ContextRequired))
  }

  function NormalizeText(raw: string, p: Profile, letters: char -> bool): Normalized {
    var input := Trim(raw);
    var marker := RoleMarker(input);
    if Utf8Length(raw) > MAX_INPUT then Refused(UnsupportedInputSize)
    else if input == "" then Refused(Missing)
    else if p.role == OtherRole("") || p.shapes == [] then Refused(Ambiguous)
    else if !ValidProfile(p) then Refused(UnsupportedProfile)
    else if marker.Some? && marker.value.1 != p.role then Refused(Ambiguous)
    else match ReadValue(Lexicon(p.registryVersion, letters), if marker.Some? then marker.value.0 else input, p)
      case Failure(reason) => Refused(reason)
      case Success((v, rest)) => Finish(v, rest, raw, p)
  }

  /** A candidate is always a valid value, and one without a reason is unconditional. */
  lemma CandidatesAreValid(raw: string, p: Profile, letters: char -> bool)
    ensures var r := NormalizeText(raw, p, letters);
      && (r.candidate.Some? ==> ValidValue(r.candidate.value, p))
      && (r.candidate.None? ==> r.reason.Some?)
      && (r.candidate.Some? && r.reason.None? ==> r.candidate.value.context.Unconditional?)
      && (r.candidate.Some? && r.reason.Some? ==>
            r.reason.value.ContextRequired? && r.candidate.value.context == Conditional(raw))
  {
    hide ValidValue, ValidProfile, ReadValue, RoleMarker, ConditionalSuffix, Trim, Utf8Length;
    var input := Trim(raw);
    var marker := RoleMarker(input);
    var read := ReadValue(Lexicon(p.registryVersion, letters), if marker.Some? then marker.value.0 else input, p);
    if read.Success? {
      ReadIsUnconditional(Lexicon(p.registryVersion, letters), if marker.Some? then marker.value.0 else input, p);
    }
  }

  lemma ReadIsUnconditional(x: Lexicon, input: string, p: Profile)
    requires ReadValue(x, input, p).Success?
    ensures ReadValue(x, input, p).value.0.context == Unconditional("")
  {
    hide ReadAtom, ReadSegment, ReadSegments, CanonicalAtom, TakeOne, ReadTolerance, PointsOf, SpansOf, PointOf;
  }

  // ---- the parser at work

  method TakeTolerance(parser: Parser, nominalAtom: Atom, p: Profile) returns (r: Result<Tolerance, Reason>)
    modifies parser
    ensures var spec := ReadTolerance(parser.lexicon, old(parser.rest), nominalAtom, p);
      if spec.Failure? then r == Failure(spec.error) else r == Success(spec.value.0) && parser.rest == spec.value.1
  {
    hide ReadAtom, CanonicalAtom, ToleranceSpan, TakeOne;
    var amount :- parser.TakeAtom();
    var nominal :- CanonicalAtom(nominalAtom, "", p);
    var percent := "%";
    if amount.unit != "%" { percent := parser.Take(["%"]); }
    if percent != "" {
      if amount.unit != "" && amount.unit != "%" { return Failure(UnsupportedShape); }
      r := ToleranceSpan(nominal, Relative, amount.number);
    } else {
      var number :- CanonicalAtom(amount, "", p);
      r := ToleranceSpan(nominal, Absolute, number);
    }
  }

  method TakeBound(parser: Parser, p: Profile) returns (r: Result<Decimal, Reason>)
    modifies parser
    ensures var atom := ReadAtom(parser.lexicon, old(parser.rest));
      if atom.Failure? then r == Failure(atom.error)
      else r == CanonicalAtom(atom.value.0, "", p) && (r.Success? ==> parser.rest == atom.value.1)
  {
    hide ReadAtom, CanonicalAtom;
    var atom :- parser.TakeAtom();
    r := CanonicalAtom(atom, "", p);
  }

  method TakeValue(parser: Parser, p: Profile) returns (r: Result<Value, Reason>)
    modifies parser
    ensures var spec := ReadValue(parser.lexicon, old(parser.rest), p);
      if spec.Failure? then r == Failure(spec.error) else r == Success(spec.value.0) && parser.rest == spec.value.1
  {
    hide ReadAtom, CanonicalAtom, ReadSegment, ReadSegments, ReadTolerance, TakeOne, WithSegments;
    var v := EmptyValue(p);
    if p.role.ErrorMagnitude? {
      var marker := parser.Take(MAGNITUDE_TOKENS);
      var number :- TakeBound(parser, p);
      return Success(WithBound(v, Upper, number, marker != "<"));
    }
    var operator := parser.Take(BOUND_TOKENS);
    if operator != "" {
      var number :- TakeBound(parser, p);
      var direction := if operator == ">=" || operator == "≥" || operator == ">" then Lower else Upper;
      return Success(WithBound(v, direction, number, operator != ">" && operator != "<"));
    }
    var first :- parser.TakeSegment();
    var plusMinus := "";
    if !first.interval { plusMinus := parser.Take(["±"]); }
    if plusMinus != "" {
      var t :- TakeTolerance(parser, first.lower, p);
      return Success(v.(shape := ToleranceShape, tolerance := Some(t)));
    }
    var segments :- parser.TakeSegments(first);
    r := SetSegments(v, segments, p);
  }

  method Normalize(raw: string, p: Profile, letters: char -> bool) returns (r: Normalized)
    ensures r == NormalizeText(raw, p, letters)
  {
    hide ValidProfile, ValidValue, ReadValue, RoleMarker, ConditionalSuffix, Trim, Utf8Length, Finish;
    if Utf8Length(raw) > MAX_INPUT { return Refused(UnsupportedInputSize); }
    var input := Trim(raw);
    if input == "" { return Refused(Missing); }
    if p.role == OtherRole("") || p.shapes == [] { return Refused(Ambiguous); }
    if !ValidProfile(p) { return Refused(UnsupportedProfile); }
    var marker := RoleMarker(input);
    if marker.Some? {
      if marker.value.1 != p.role { return Refused(Ambiguous); }
      input := marker.value.0;
    }
    var parser := new Parser(input, Lexicon(p.registryVersion, letters));
    var v := TakeValue(parser, p);
    if v.Failure? { return Refused(v.error); }
    return Finish(v.value, parser.rest, raw, p);
  }
}
