/** Reading a value from raw text under a profile, by a parser that consumes what it recognises. */
module RawParser {
  import opened Wrappers
  import opened Decimals
  import opened Units
  import opened Profiles
  import opened Values

  datatype Reason =
    | UnsupportedProfile | UnsupportedShape | UnsupportedUnits | UnsupportedPrecisions | Ambiguous
    | ContextRequired | Missing | MissingUnit | InvalidInterval | UnsupportedInputSize

  datatype Normalized = Normalized(candidate: Option<Value>, reason: Option<Reason>)

  const MAX_INPUT := 65536

  function Utf8Length(s: string): nat {
    if s == "" then 0
    else
      var first := if s[0] < '\U{80}' then 1 else if s[0] < '\U{800}' then 2 else if s[0] < '\U{10000}' then 3 else 4;
      first + Utf8Length(s[1..])
  }

  // ---- text

  function TrimStart(s: string): (r: string)
    ensures |r| <= |s| && (r != "" ==> !IsSpace(r[0]))
  {
    if s != "" && IsSpace(s[0]) then TrimStart(s[1..]) else s
  }

  function TrimEnd(s: string): (r: string)
    ensures |r| <= |s|
  {
    if s != "" && IsSpace(s[|s| - 1]) then TrimEnd(s[..|s| - 1]) else s
  }

  function Trim(s: string): string { TrimEnd(TrimStart(s)) }

  predicate HasPrefix(s: string, prefix: string) { prefix <= s }

  /** A character as comparisons with ASCII words see it in lower case: besides the ASCII letters
      only the dotted capital I and the Kelvin sign have an ASCII lower case. */
  function LowerCase(c: char): char {
    if 'A' <= c <= 'Z' then (c as int + 32) as char
    else if c == '\U{130}' then 'i'
    else if c == '\U{212A}' then 'k'
    else c
  }

  function ToLower(s: string): (r: string)
    ensures |r| == |s| && forall i :: 0 <= i < |s| ==> r[i] == LowerCase(s[i])
  {
    seq(|s|, i requires 0 <= i < |s| => LowerCase(s[i]))
  }

  const MARKERS: seq<(string, Role)> :=
    [("absolute maximum", AbsoluteMaximum), ("nominal", Nominal), ("typical", Typical), ("typ.", Typical)]

  function MarkerAt(input: string, k: nat): (r: Option<(string, Role)>)
    decreases |MARKERS| - k
  {
    if k >= |MARKERS| then None
    else
      var text := MARKERS[k].0;
      // The marker is cut off by its length in bytes, which falls inside the word when one of its
      // letters was not ASCII.
      if HasPrefix(ToLower(input), text) && Utf8Length(input[..|text|]) == |text|
         && (|input| == |text| || IsSpace(input[|text|]))
      then Some((Trim(input[|text|..]), MARKERS[k].1))
      else MarkerAt(input, k + 1)
  }

  /** A leading role marker and what follows it. */
  function RoleMarker(input: string): Option<(string, Role)> { MarkerAt(input, 0) }

  predicate ConditionalSuffix(input: string) {
    var lower := ToLower(input);
    || HasPrefix(lower, "@") || HasPrefix(lower, "at ") || HasPrefix(lower, "when ") || HasPrefix(lower, "if ")
    || HasPrefix(lower, "under ") || HasPrefix(lower, "with ") || HasPrefix(lower, "depends on ")
  }

  // ---- the notation

  datatype Atom = Atom(number: Decimal, unit: string)

  datatype Segment = Segment(lower: Atom, upper: Atom, interval: bool, lowerInclusive: bool, upperInclusive: bool)

  const NO_ATOM := Atom("", "")

  function DecimalReason(e: DecimalError): Reason {
    if e.UnsupportedPrecision? then UnsupportedPrecisions else UnsupportedShape
  }

  /** The first token that starts the trimmed input, and what follows it; nothing is consumed
      without one. */
  function TakeOne(rest: string, tokens: seq<string>): (r: (string, string))
    ensures |r.1| + |r.0| <= |rest| && (r.0 != "" ==> r.0 in tokens)
    ensures r.0 == "" && "" !in tokens ==> r.1 == rest
  {
    if tokens == [] then ("", rest)
    else if HasPrefix(TrimStart(rest), tokens[0]) then (tokens[0], TrimStart(rest)[|tokens[0]|..])
    else TakeOne(rest, tokens[1..])
  }

  /** The registry in use, and which characters are letters. */
  datatype Lexicon = Lexicon(version: string, letters: char -> bool)
  {
    predicate Known(unit: string) { Registry(version, unit).Some? }

    predicate UnitChar(c: char) { letters(c) || (Known("%") && c == '%') }

    function Letters(rest: string): (n: nat)
      ensures n <= |rest|
    {
      if rest != "" && UnitChar(rest[0]) then 1 + Letters(rest[1..]) else 0
    }

    function UnitLength(rest: string): (n: nat)
      ensures n <= |rest|
    {
      if Known("1") && HasPrefix(rest, "1") then 1 else Letters(rest)
    }
  }

  /** A number and, when a registered unit follows, that unit. */
  function ReadAtom(x: Lexicon, rest: string): (r: Result<(Atom, string), Reason>)
    ensures r.Success? ==> |r.value.1| < |rest| && IsNumber(r.value.0.number)
  {
    match ScanPrefix(TrimStart(rest))
    case None => Failure(UnsupportedShape)
    case Some((spelling, after)) =>
      ScanPrefixSplits(TrimStart(rest));
      match ParseNumber(spelling.Render())
      case Failure(e) => Failure(DecimalReason(e))
      case Success(number) =>
        var unitRest := TrimStart(after);
        var end := x.UnitLength(unitRest);
        if end == 0 then Success((Atom(number, ""), after))
        else if x.Known(unitRest[..end]) then Success((Atom(number, unitRest[..end]), unitRest[end..]))
        else if !ConditionalSuffix(unitRest) && RoleMarker(unitRest).None? then Failure(UnsupportedUnits)
        else Success((Atom(number, ""), after))
  }

  function Delimiters(opening: string): (r: seq<string>)
    ensures "" !in r
  { ["–", "-", "—"] + if opening != "" then [","] else [] }

  /** A unit after a closing bracket applies to both ends. */
  function ReadClosing(x: Lexicon, opening: string, lower: Atom, upper: Atom,
                       rest: string): (r: Result<(Segment, string), Reason>)
    ensures r.Success? ==> |r.value.1| <= |rest| && r.value.0.interval
  {
    var (closing, after) := TakeOne(rest, ["]", ")"]);
    if closing == "" then Failure(UnsupportedShape)
    else
      var segment := Segment(lower, upper, true, opening == "[", closing == "]");
      var unitRest := TrimStart(after);
      var end := x.UnitLength(unitRest);
      if end > 0 && x.Known(unitRest[..end]) then
        if lower.unit != "" || upper.unit != "" then Failure(Ambiguous)
        else Success((segment.(upper := upper.(unit := unitRest[..end])), unitRest[end..]))
      else Success((segment, after))
  }

  function ReadSegment(x: Lexicon, rest: string): (r: Result<(Segment, string), Reason>)
    ensures r.Success? ==> |r.value.1| < |rest|
  {
    var (opening, start) := TakeOne(rest, ["[", "("]);
    var lower :- ReadAtom(x, start);
    var (delimiter, after) := TakeOne(lower.1, Delimiters(opening));
    if delimiter == "" then
      if opening != "" then Failure(UnsupportedShape)
      else Success((Segment(lower.0, NO_ATOM, false, true, true), lower.1))
    else
      var upper :- ReadAtom(x, after);
      if opening == "" then Success((Segment(lower.0, upper.0, true, true, true), upper.1))
      else ReadClosing(x, opening, lower.0, upper.0, upper.1)
  }

  /** The comma between bare numbers could be a decimal or grouping mark. */
  predicate AmbiguousComma(separator: string, last: Segment, before: string, after: string) {
    separator == "," && !last.interval && last.lower.unit == "" && !HasPrefix(before, " ") && !HasPrefix(after, " ")
  }

  /** The segments after the first, each one shortening what is left. */
  function ReadSegments(x: Lexicon, rest: string, segments: seq<Segment>): (r: Result<(seq<Segment>, string), Reason>)
    requires segments != []
    ensures r.Success? ==> r.value.0 != [] && |r.value.1| <= |rest|
    decreases |rest|
  {
    var (separator, after) := TakeOne(rest, [",", "/"]);
    if separator == "" then Success((segments, rest))
    else if AmbiguousComma(separator, segments[|segments| - 1], rest, after) then Failure(Ambiguous)
    else
      var next :- ReadSegment(x, after);
      if next.0.interval != segments[0].interval then Failure(UnsupportedShape)
      else ReadSegments(x, next.1, segments + [next.0])
  }

  /** A parser over the input it has not consumed yet. */
  class Parser {
    var rest: string
    const lexicon: Lexicon

    constructor (rest: string, lexicon: Lexicon)
      ensures this.rest == rest && this.lexicon == lexicon
    {
      this.rest, this.lexicon := rest, lexicon;
    }

    method Take(tokens: seq<string>) returns (token: string)
      modifies this
      ensures (token, rest) == TakeOne(old(rest), tokens)
    {
      var trimmed := TrimStart(rest);
      assert tokens[0..] == tokens;
      for k := 0 to |tokens|
        invariant rest == old(rest) && TakeOne(rest, tokens) == TakeOne(rest, tokens[k..])
      {
        assert tokens[k..][1..] == tokens[k + 1..];
        if HasPrefix(trimmed, tokens[k]) {
          rest := trimmed[|tokens[k]|..];
          return tokens[k];
        }
      }
      return "";
    }

    method TakeAtom() returns (r: Result<Atom, Reason>)
      modifies this
      ensures r.Success? <==> ReadAtom(lexicon, old(rest)).Success?
      ensures r.Success? ==> (r.value, rest) == ReadAtom(lexicon, old(rest)).value
      ensures r.Failure? ==> r.error == ReadAtom(lexicon, old(rest)).error
    {
      hide ScanPrefix, ParseNumber, RoleMarker, ConditionalSuffix;
      var scanned := ScanPrefix(TrimStart(rest));
      if scanned.None? { return Failure(UnsupportedShape); }
      var number := ParseNumber(scanned.value.0.Render());
      if number.Failure? { return Failure(DecimalReason(number.error)); }
      var after := scanned.value.1;
      var unitRest := TrimStart(after);
      var end := lexicon.UnitLength(unitRest);
      var unit := unitRest[..end];
      if unit != "" {
        if lexicon.Known(unit) {
          after := unitRest[end..];
        } else if !ConditionalSuffix(unitRest) && RoleMarker(unitRest).None? {
          return Failure(UnsupportedUnits);
        } else {
          unit := "";
        }
      }
      rest := after;
      return Success(Atom(number.value, unit));
    }

    method TakeSegment() returns (r: Result<Segment, Reason>)
      modifies this
      ensures r.Success? <==> ReadSegment(lexicon, old(rest)).Success?
      ensures r.Success? ==> (r.value, rest) == ReadSegment(lexicon, old(rest)).value
      ensures r.Failure? ==> r.error == ReadSegment(lexicon, old(rest)).error
    {
      hide ReadAtom, TakeOne;
      var opening := Take(["[", "("]);
      var lower :- TakeAtom();
      var segment := Segment(lower, NO_ATOM, false, true, true);
      var delimiter := Take(Delimiters(opening));
      if delimiter == "" {
        if opening != "" { return Failure(UnsupportedShape); }
        return Success(segment);
      }
      var upper :- TakeAtom();
      segment := segment.(interval := true, upper := upper);
      if opening != "" {
        var closing := Take(["]", ")"]);
        if closing == "" { return Failure(UnsupportedShape); }
        segment := segment.(lowerInclusive := opening == "[", upperInclusive := closing == "]");
        var unitRest := TrimStart(rest);
        var end := lexicon.UnitLength(unitRest);
        if end > 0 && lexicon.Known(unitRest[..end]) {
          if segment.lower.unit != "" || segment.upper.unit != "" { return Failure(Ambiguous); }
          segment := segment.(upper := segment.upper.(unit := unitRest[..end]));
          rest := unitRest[end..];
        }
      }
      return Success(segment);
    }

    method TakeSegments(first: Segment) returns (r: Result<seq<Segment>, Reason>)
      modifies this
      ensures r.Success? <==> ReadSegments(lexicon, old(rest), [first]).Success?
      ensures r.Success? ==> (r.value, rest) == ReadSegments(lexicon, old(rest), [first]).value
      ensures r.Failure? ==> r.error == ReadSegments(lexicon, old(rest), [first]).error
    {
      hide ReadSegment, TakeOne;
      var segments := [first];
      while true
        invariant segments != [] && segments[0] == first
        invariant ReadSegments(lexicon, rest, segments) == ReadSegments(lexicon, old(rest), [first])
        decreases |rest|
      {
        var before := rest;
        var separator := Take([",", "/"]);
        if separator == "" { return Success(segments); }
        if AmbiguousComma(separator, segments[|segments| - 1], before, rest) { return Failure(Ambiguous); }
        var next :- TakeSegment();
        if next.interval != first.interval { return Failure(UnsupportedShape); }
        segments := segments + [next];
      }
    }
  }
}
