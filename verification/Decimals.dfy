/** Exact decimals: the number grammar, the bounded parser and what a decimal text denotes.
    A char stands for one character; strings compare in the order of their UTF-8 bytes. */
module Decimals {
  import opened Digits
  import opened Wrappers

  datatype DecimalError = InvalidDecimal | UnsupportedPrecision

  // ---- the grammar  [+-]? (digits [. digits*] | . digits) ([eE] [+-]? digits)?

  datatype Sign = Unsigned | Plus | Minus
  {
    function Text(): string { match this case Unsigned => "" case Plus => "+" case Minus => "-" }
  }

  function Signed(negative: bool, n: int): int { if negative then -n else n }

  lemma SignedShift(negative: bool, n: int, k: nat)
    ensures Signed(negative, Shift(n, k)) == Shift(Signed(negative, n), k)
  {
    ShiftLinear(n, 0, k);
  }

  predicate IsMark(c: char) { c == 'e' || c == 'E' }

  datatype Power = NoPower | Power(mark: char, sign: Sign, digits: string)
  {
    predicate Valid() { Power? ==> IsMark(mark) && AllDigits(digits) && digits != "" }

    function Text(): string { if NoPower? then "" else [mark] + sign.Text() + digits }

    function Exponent(): int
      requires Valid()
    {
      if NoPower? then 0 else Signed(sign.Minus?, Val(digits))
    }
  }

  datatype Spelling = Spelling(sign: Sign, whole: string, point: bool, frac: string, power: Power)
  {
    predicate Valid() {
      && AllDigits(whole) && AllDigits(frac) && power.Valid()
      && (whole != "" || frac != "")
      && (!point ==> frac == "")
    }

    function Fraction(): string { FractionText(point, frac) }

    function Render(): string { sign.Text() + (whole + (Fraction() + power.Text())) }

    /** The number the spelling denotes. */
    function Value(): real
      requires Valid()
    {
      Scale(Signed(sign.Minus?, Val(whole + frac)) as real, power.Exponent() - |frac|)
    }
  }

  function FractionText(point: bool, frac: string): string { if point then "." + frac else "" }

  /** How many digits the text starts with. */
  function DigitRun(s: string): (n: nat)
    ensures n <= |s|
  {
    if s == "" || !IsDigit(s[0]) then 0 else 1 + DigitRun(s[1..])
  }

  lemma {:induction false} DigitRunDigits(s: string)
    ensures AllDigits(s[..DigitRun(s)]) && s == s[..DigitRun(s)] + s[DigitRun(s)..]
  {
    if s == "" || !IsDigit(s[0]) {
    } else {
      DigitRunDigits(s[1..]);
    }
  }

  function ScanSign(s: string): (Sign, string) {
    if s != "" && s[0] == '+' then (Plus, s[1..]) else if s != "" && s[0] == '-' then (Minus, s[1..]) else (Unsigned, s)
  }

  lemma ScanSignSplits(s: string)
    ensures s == ScanSign(s).0.Text() + ScanSign(s).1
  {
  }

  function ScanFraction(s: string): (bool, string, string) {
    if s != "" && s[0] == '.' then
      var n := DigitRun(s[1..]);
      (true, s[1..][..n], s[1..][n..])
    else (false, "", s)
  }

  lemma ScanFractionSplits(s: string)
    ensures var (point, frac, tail) := ScanFraction(s);
      AllDigits(frac) && (!point ==> frac == "") && s == FractionText(point, frac) + tail
  {
    if s != "" && s[0] == '.' {
      DigitRunDigits(s[1..]);
      assert s == [s[0]] + s[1..];
    }
  }

  lemma JoinPower(s: string, sign: Sign, digits: string, rest: string)
    requires s != "" && s[1..] == sign.Text() + (digits + rest)
    ensures s == [s[0]] + sign.Text() + digits + rest
  {
    assert s == [s[0]] + s[1..];
  }

  function ScanPower(s: string): (Power, string) {
    if s != "" && IsMark(s[0]) then
      var (sign, rest) := ScanSign(s[1..]);
      var n := DigitRun(rest);
      if n == 0 then (NoPower, s) else (Power(s[0], sign, rest[..n]), rest[n..])
    else (NoPower, s)
  }

  lemma ScanPowerSplits(s: string)
    ensures ScanPower(s).0.Valid() && s == ScanPower(s).0.Text() + ScanPower(s).1
  {
    if s != "" && IsMark(s[0]) {
      var (sign, rest) := ScanSign(s[1..]);
      ScanSignSplits(s[1..]);
      DigitRunDigits(rest);
      JoinPower(s, sign, rest[..DigitRun(rest)], rest[DigitRun(rest)..]);
    }
  }

  datatype Mantissa = Mantissa(whole: string, point: bool, frac: string, tail: string)

  function ScanMantissa(body: string): Option<Mantissa> {
    var n := DigitRun(body);
    var (point, frac, tail) := ScanFraction(body[n..]);
    if n == 0 && frac == "" then None else Some(Mantissa(body[..n], point, frac, tail))
  }

  lemma ScanMantissaSplits(body: string)
    requires ScanMantissa(body).Some?
    ensures var m := ScanMantissa(body).value;
      && AllDigits(m.whole) && AllDigits(m.frac) && (m.whole != "" || m.frac != "") && (!m.point ==> m.frac == "")
      && body == m.whole + (FractionText(m.point, m.frac) + m.tail)
  {
    DigitRunDigits(body);
    ScanFractionSplits(body[DigitRun(body)..]);
  }

  lemma Regroup(a: string, b: string, c: string, d: string, e: string)
    ensures a + (b + (c + (d + e))) == a + (b + (c + d)) + e
  {
    assert c + (d + e) == (c + d) + e;
    assert b + (c + (d + e)) == (b + (c + d)) + e;
  }

  /** The longest prefix that is a number, split into its parts, and what follows it. */
  function ScanPrefix(text: string): Option<(Spelling, string)> {
    var (sign, body) := ScanSign(text);
    match ScanMantissa(body)
    case None => None
    case Some(m) =>
      var (power, rest) := ScanPower(m.tail);
      Some((Spelling(sign, m.whole, m.point, m.frac, power), rest))
  }

  /** What is scanned is a valid spelling, and it starts the text. */
  lemma ScanPrefixSplits(text: string)
    requires ScanPrefix(text).Some?
    ensures var (s, rest) := ScanPrefix(text).value;
      s.Valid() && text == s.Render() + rest && |rest| < |text|
  {
    hide ScanSign, ScanMantissa, ScanPower;
    var (sign, body) := ScanSign(text);
    var m := ScanMantissa(body).value;
    var (power, rest) := ScanPower(m.tail);
    var s := Spelling(sign, m.whole, m.point, m.frac, power);
    ScanSignSplits(text);
    ScanMantissaSplits(body);
    ScanPowerSplits(m.tail);
    Regroup(sign.Text(), m.whole, s.Fraction(), power.Text(), rest);
  }

  function Scan(text: string): Option<Spelling> {
    match ScanPrefix(text)
    case None => None
    case Some((spelling, rest)) => if rest == "" then Some(spelling) else None
  }

  lemma ScanIsValid(text: string)
    requires Scan(text).Some?
    ensures Scan(text).value.Valid() && Scan(text).value.Render() == text
  {
    hide ScanPrefix;
    ScanPrefixSplits(text);
    var s := ScanPrefix(text).value.0;
    assert s.Render() + "" == s.Render();
  }

  lemma {:induction false} DigitRunIs(d: string, rest: string)
    requires AllDigits(d) && (rest != "" ==> !IsDigit(rest[0]))
    ensures DigitRun(d + rest) == |d| && (d + rest)[..|d|] == d && (d + rest)[|d|..] == rest
  {
    if d == "" {
      assert d + rest == rest;
    } else {
      DigitRunIs(d[1..], rest);
      assert (d + rest)[1..] == d[1..] + rest;
    }
  }

  lemma ScanSignIs(sign: Sign, rest: string)
    requires rest != "" ==> rest[0] != '+' && rest[0] != '-'
    ensures ScanSign(sign.Text() + rest) == (sign, rest)
  {
    if sign.Unsigned? {
      assert "" + rest == rest;
    } else {
      assert (sign.Text() + rest)[1..] == rest;
    }
  }

  predicate EndsNumber(rest: string) {
    rest != "" ==> !IsDigit(rest[0]) && rest[0] != '.' && !IsMark(rest[0])
  }

  lemma ScanPowerIs(p: Power, rest: string)
    requires p.Valid() && EndsNumber(rest)
    ensures ScanPower(p.Text() + rest) == (p, rest)
  {
    if p.Power? {
      var after := p.digits + rest;
      var text := p.Text() + rest;
      assert text[1..] == p.sign.Text() + after;
      assert after[0] == p.digits[0];
      ScanSignIs(p.sign, after);
      DigitRunIs(p.digits, rest);
      assert text[0] == p.mark;
    } else {
      assert "" + rest == rest;
    }
  }

  lemma ScanFractionIs(s: Spelling, tail: string)
    requires s.Valid() && (tail != "" ==> !IsDigit(tail[0]) && tail[0] != '.')
    ensures ScanFraction(s.Fraction() + tail) == (s.point, s.frac, tail)
  {
    if s.point {
      DigitRunIs(s.frac, tail);
      assert (s.Fraction() + tail)[1..] == s.frac + tail;
    } else {
      assert "" + tail == tail;
    }
  }

  lemma ScanMantissaIs(s: Spelling, tail: string)
    requires s.Valid() && (tail != "" ==> !IsDigit(tail[0]) && tail[0] != '.')
    ensures ScanMantissa(s.whole + (s.Fraction() + tail)) == Some(Mantissa(s.whole, s.point, s.frac, tail))
  {
    var dotted := s.Fraction() + tail;
    assert dotted != "" ==> !IsDigit(dotted[0]) by { if !s.point { assert dotted == tail; } }
    DigitRunIs(s.whole, dotted);
    ScanFractionIs(s, tail);
  }

  /** A valid spelling is read back whole, whatever follows that cannot continue it. */
  lemma ScanPrefixRender(s: Spelling, rest: string)
    requires s.Valid() && EndsNumber(rest)
    ensures ScanPrefix(s.Render() + rest) == Some((s, rest))
  {
    var tail := s.power.Text() + rest;
    var body := s.whole + (s.Fraction() + tail);
    Regroup(s.sign.Text(), s.whole, s.Fraction(), s.power.Text(), rest);
    assert body[0] == '.' || IsDigit(body[0]) by {
      if s.whole != "" { assert body[0] == s.whole[0]; } else { assert body == s.Fraction() + tail; }
    }
    ScanSignIs(s.sign, body);
    ScanMantissaIs(s, tail);
    ScanPowerIs(s.power, rest);
  }

  lemma ScanRender(s: Spelling)
    requires s.Valid()
    ensures Scan(s.Render()) == Some(s)
  {
    ScanPrefixRender(s, "");
    assert s.Render() + "" == s.Render();
  }

  /** The recogniser accepts exactly the texts the grammar generates. */
  lemma ScanIsGrammar(text: string)
    ensures Scan(text).Some? <==> exists s: Spelling :: s.Valid() && s.Render() == text
  {
    forall s: Spelling | s.Valid() && s.Render() == text
      ensures Scan(text) == Some(s)
    {
      ScanRender(s);
    }
    if Scan(text).Some? {
      ScanIsValid(text);
      assert Scan(text).value.Render() == text;
    }
  }

  predicate WellFormed(text: string) { Scan(text).Some? }

  lemma NothingIsNoNumber()
    ensures !WellFormed("")
  {
  }

  /** The spelling of a well-formed text. */
  function Spelled(text: string): (s: Spelling)
    requires WellFormed(text)
    ensures s.Valid()
  {
    ScanIsValid(text);
    Scan(text).value
  }

  /** The number a well-formed text denotes. */
  function TextValue(text: string): real
    requires WellFormed(text)
  {
    Spelled(text).Value()
  }

  // ---- the parser

  const MAX_TEXT := 256
  const MAX_DIGITS := 34
  const MAX_ORDER := 24

  predicate FitsInt32(n: int) { -0x8000_0000 <= n < 0x8000_0000 }

  /** The canonical text of digits * 10^exponent, for digits without outer zeros. */
  function CanonicalSpelling(negative: bool, digits: string, exponent: int): Spelling {
    var point := |digits| + exponent;
    var sign := if negative then Minus else Unsigned;
    if point <= 0 then
      Spelling(sign, "0", true, Zeros(-point) + digits, NoPower)
    else if point >= |digits| then
      Spelling(sign, digits + Zeros(point - |digits|), false, "", NoPower)
    else
      Spelling(sign, digits[..point], true, digits[point..], NoPower)
  }

  /** The digits of a nonzero spelling once stripped, with the exponent that keeps its value. */
  function StrippedDigits(s: Spelling): string { TrimRight(TrimLeft(s.whole + s.frac)) }

  function StrippedExponent(s: Spelling): int
    requires s.Valid()
  {
    s.power.Exponent() - |s.frac| + |TrimLeft(s.whole + s.frac)| - |StrippedDigits(s)|
  }

  /** The canonical text of a spelling, or the reason it is out of bounds. */
  function ParseSpelling(s: Spelling): Result<string, DecimalError>
    requires s.Valid()
  {
    if !FitsInt32(s.power.Exponent()) then Failure(UnsupportedPrecision)
    else
      if TrimLeft(s.whole + s.frac) == "" then Success("0")
      else
        var trimmed := StrippedDigits(s);
        var exponent := StrippedExponent(s);
        var order := |trimmed| - 1 + exponent;
        if |trimmed| > MAX_DIGITS || order < -MAX_ORDER || order > MAX_ORDER then Failure(UnsupportedPrecision)
        else Success(CanonicalSpelling(s.sign.Minus?, trimmed, exponent).Render())
  }

  function ParseDecimal(text: string): Result<string, DecimalError> {
    if |text| > MAX_TEXT then Failure(UnsupportedPrecision)
    else match Scan(text)
      case None => Failure(InvalidDecimal)
      case Some(s) =>
        ScanIsValid(text);
        ParseSpelling(s)
  }

  // ---- normal forms: an integer not divisible by ten, shifted

  /** Digits without outer zeros, within the supported precision and magnitude. */
  predicate Normal(digits: string, exponent: int) {
    && AllDigits(digits) && digits != "" && digits[0] != '0' && digits[|digits| - 1] != '0'
    && |digits| <= MAX_DIGITS
    && -MAX_ORDER <= |digits| - 1 + exponent <= MAX_ORDER
  }

  function SignedValue(negative: bool, digits: string, exponent: int): real
    requires AllDigits(digits)
  {
    Scale(Signed(negative, Val(digits)) as real, exponent)
  }

  lemma ScaleOfShift(n: int, k: nat, e: int)
    ensures Scale(Shift(n, k) as real, e) == Scale(n as real, e + k)
  {
    ScaleShift(n, k);
    ScaleAdd(n as real, k, e);
  }

  /** The digits of a canonical spelling: the normal digits with zeros on one side. */
  lemma CanonicalDigits(negative: bool, digits: string, exponent: int)
    requires Normal(digits, exponent)
    ensures var s := CanonicalSpelling(negative, digits, exponent); var point := |digits| + exponent;
      && s.Valid() && s.power.NoPower?
      && |s.Render()| <= 61 && |s.frac| <= 57 && |s.whole| <= 25
      && s.whole + s.frac ==
         Zeros(if point <= 0 then 1 - point else 0) + digits + Zeros(if exponent > 0 then exponent else 0)
      && |s.frac| == if exponent < 0 then -exponent else 0
  {
    var s := CanonicalSpelling(negative, digits, exponent);
    var point := |digits| + exponent;
    if point <= 0 {
      assert s.whole + s.frac == Zeros(1 - point) + digits + Zeros(0);
    } else if point >= |digits| {
      assert s.whole + s.frac == Zeros(0) + digits + Zeros(exponent);
    } else {
      assert s.whole + s.frac == Zeros(0) + digits + Zeros(0);
    }
  }

  lemma PaddedVal(j: nat, digits: string, k: nat)
    requires AllDigits(digits)
    ensures AllDigits(Zeros(j) + digits + Zeros(k)) && Val(Zeros(j) + digits + Zeros(k)) == Shift(Val(digits), k)
  {
    LeadingZeros(j, digits);
    ValConcat(Zeros(j) + digits, Zeros(k));
    ValZeros(k);
  }

  lemma CanonicalSpellingValue(negative: bool, digits: string, exponent: int)
    requires Normal(digits, exponent)
    ensures var s := CanonicalSpelling(negative, digits, exponent);
      s.Valid() && s.Value() == SignedValue(negative, digits, exponent)
  {
    var s := CanonicalSpelling(negative, digits, exponent);
    CanonicalDigits(negative, digits, exponent);
    var point := |digits| + exponent;
    var k := if exponent > 0 then exponent else 0;
    PaddedVal(if point <= 0 then 1 - point else 0, digits, k);
    SignedShift(negative, Val(digits), k);
    ScaleOfShift(Signed(negative, Val(digits)), k, -|s.frac|);
  }

  lemma CanonicalSpellingScans(negative: bool, digits: string, exponent: int)
    requires Normal(digits, exponent)
    ensures Scan(CanonicalSpelling(negative, digits, exponent).Render())
            == Some(CanonicalSpelling(negative, digits, exponent))
  {
    CanonicalDigits(negative, digits, exponent);
    ScanRender(CanonicalSpelling(negative, digits, exponent));
  }

  lemma StripVal(all: string)
    requires AllDigits(all)
    ensures var left := TrimLeft(all); var d := TrimRight(left);
      && AllDigits(d) && |d| <= |left| && Val(all) == Shift(Val(d), |left| - |d|)
      && (d == "" <==> left == "")
      && (d != "" ==> d[0] != '0' && d[|d| - 1] != '0')
  {
    TrimLeftSplit(all);
    TrimLeftVal(all);
    TrimRightVal(TrimLeft(all));
  }

  lemma StrippedKeepsValue(s: Spelling)
    requires s.Valid()
    ensures var d := StrippedDigits(s);
      && AllDigits(d) && s.Value() == SignedValue(s.sign.Minus?, d, StrippedExponent(s))
      && (d == "" <==> TrimLeft(s.whole + s.frac) == "")
      && (d != "" ==> d[0] != '0' && d[|d| - 1] != '0')
  {
    StripVal(s.whole + s.frac);
    var d := StrippedDigits(s);
    var k := |TrimLeft(s.whole + s.frac)| - |d|;
    SignedShift(s.sign.Minus?, Val(d), k);
    ScaleOfShift(Signed(s.sign.Minus?, Val(d)), k, s.power.Exponent() - |s.frac|);
  }

  lemma StripPadded(j: nat, digits: string, k: nat)
    requires digits != "" && digits[0] != '0' && digits[|digits| - 1] != '0'
    ensures TrimLeft(Zeros(j) + digits + Zeros(k)) == digits + Zeros(k)
    ensures TrimRight(digits + Zeros(k)) == digits
  {
    assert Zeros(j) + digits + Zeros(k) == Zeros(j) + (digits + Zeros(k));
    TrimLeftZeros(j, digits + Zeros(k));
    TrimRightZeros(digits, k);
  }

  /** Stripping the digits of a canonical spelling gives them back. */
  lemma StripCanonical(negative: bool, digits: string, exponent: int)
    requires Normal(digits, exponent)
    ensures var s := CanonicalSpelling(negative, digits, exponent);
      s.Valid() && StrippedDigits(s) == digits && StrippedExponent(s) == exponent
      && TrimLeft(s.whole + s.frac) != ""
  {
    CanonicalDigits(negative, digits, exponent);
    var point := |digits| + exponent;
    StripPadded(if point <= 0 then 1 - point else 0, digits, if exponent > 0 then exponent else 0);
  }

  lemma {:induction false} TrimLeftZeros(n: nat, d: string)
    requires d != "" && d[0] != '0'
    ensures TrimLeft(Zeros(n) + d) == d
  {
    if n == 0 {
      assert Zeros(0) + d == d;
    } else {
      TrimLeftZeros(n - 1, d);
      assert (Zeros(n) + d)[1..] == Zeros(n - 1) + d;
    }
  }

  lemma {:induction false} TrimRightZeros(d: string, n: nat)
    requires d != "" && d[|d| - 1] != '0'
    ensures TrimRight(d + Zeros(n)) == d
  {
    if n == 0 {
      assert d + Zeros(0) == d;
    } else {
      TrimRightZeros(d, n - 1);
      var s := d + Zeros(n);
      assert s[..|s| - 1] == d + Zeros(n - 1);
    }
  }

  // ---- theorems about the parser

  /** What an accepted spelling becomes. */
  lemma ParsedForm(s: Spelling)
    requires s.Valid() && ParseSpelling(s).Success?
    ensures var d, x := StrippedDigits(s), StrippedExponent(s);
      if d == "" then ParseSpelling(s) == Success("0") && s.Value() == 0.0
      else Normal(d, x) && ParseSpelling(s) == Success(CanonicalSpelling(s.sign.Minus?, d, x).Render())
           && s.Value() == SignedValue(s.sign.Minus?, d, x)
  {
    StrippedKeepsValue(s);
    ScaleMono(0.0, 0.0, StrippedExponent(s));
  }

  lemma CanonicalSpellingParses(negative: bool, digits: string, exponent: int)
    requires Normal(digits, exponent)
    ensures var s := CanonicalSpelling(negative, digits, exponent);
      s.Valid() && ParseSpelling(s) == Success(s.Render()) && |s.Render()| <= MAX_TEXT
  {
    hide TrimLeft, TrimRight, StrippedDigits, StrippedExponent;
    CanonicalDigits(negative, digits, exponent);
    StripCanonical(negative, digits, exponent);
  }

  lemma ParseCanonical(negative: bool, digits: string, exponent: int)
    requires Normal(digits, exponent)
    ensures var s := CanonicalSpelling(negative, digits, exponent);
      s.Valid() && Scan(s.Render()) == Some(s) && ParseDecimal(s.Render()) == Success(s.Render())
  {
    hide Scan, ParseSpelling, CanonicalSpelling, Normal;
    CanonicalSpellingParses(negative, digits, exponent);
    CanonicalSpellingScans(negative, digits, exponent);
  }

  /** The shape of a canonical text: no exponent, at most 25 digits before the point and 57 after. */
  predicate CanonicalShape(c: string) {
    Scan(c).Some? && Scan(c).value.power.NoPower? && |Scan(c).value.whole| <= 25 && |Scan(c).value.frac| <= 57
  }

  /** An accepted text and its canonical text denote the same number, the canonical text is
      a fixed point of the parser, and it has at most 57 fractional places. */
  lemma ParseKeepsValue(text: string)
    requires ParseDecimal(text).Success?
    ensures var c := ParseDecimal(text).value;
      && WellFormed(text) && WellFormed(c)
      && TextValue(c) == TextValue(text)
      && ParseDecimal(c) == Success(c)
      && CanonicalShape(c)
  {
    var s := Spelled(text);
    ParsedForm(s);
    var d, x := StrippedDigits(s), StrippedExponent(s);
    if d == "" {
      ZeroParses();
    } else {
      ParseCanonical(s.sign.Minus?, d, x);
      CanonicalDigits(s.sign.Minus?, d, x);
      CanonicalSpellingValue(s.sign.Minus?, d, x);
    }
  }

  lemma ZeroParses()
    ensures Scan("0") == Some(Spelling(Unsigned, "0", false, "", NoPower))
    ensures ParseDecimal("0") == Success("0") && TextValue("0") == 0.0
  {
    var s := Spelling(Unsigned, "0", false, "", NoPower);
    assert s.Valid() && s.Render() == "0";
    ScanRender(s);
    assert s.whole + s.frac == "0" && "0"[..0] == "" && Val("0") == 0;
    assert TrimLeft("0") == TrimLeft("0"[1..]);
  }

  /** The numbers the type can hold: zero, or at most 34 significant digits and a leading digit
      between the 24th place after and the 25th place before the point. */
  ghost predicate Representable(v: real) {
    v == 0.0 ||
    (&& Scale(1.0, -MAX_ORDER) <= Abs(v) < Scale(1.0, MAX_ORDER + 1)
     && exists m: int, e: int {:trigger Scale(m as real, e)} ::
          -Shift(1, MAX_DIGITS) < m < Shift(1, MAX_DIGITS) && v == Scale(m as real, e))
  }

  function Abs(v: real): real { if v < 0.0 then -v else v }

  lemma SignedValueBounds(negative: bool, d: string, x: int)
    requires AllDigits(d) && d != "" && d[0] != '0'
    ensures var v := Abs(SignedValue(negative, d, x));
      Scale(1.0, |d| - 1 + x) <= v < Scale(1.0, |d| + x)
  {
    ValBound(d);
    var n := Val(d);
    ScaleLinear(n as real, 0.0, x);
    ScaleMono(0.0, n as real, x);
    ScaleOfShift(1, |d| - 1, x);
    ScaleOfShift(1, |d|, x);
    ScaleMono(n as real, Shift(1, |d| - 1) as real, x);
    ScaleMono(n as real, Shift(1, |d|) as real, x);
  }

  lemma OrderIsMagnitude(v: real, order: int)
    requires Scale(1.0, order) <= v < Scale(1.0, order + 1)
    ensures -MAX_ORDER <= order <= MAX_ORDER <==> Scale(1.0, -MAX_ORDER) <= v < Scale(1.0, MAX_ORDER + 1)
  {
    if order < -MAX_ORDER { ScaleExponentMono(order + 1, -MAX_ORDER); }
    else { ScaleExponentMono(-MAX_ORDER, order); }
    if order > MAX_ORDER { ScaleExponentMono(MAX_ORDER + 1, order); }
    else { ScaleExponentMono(order + 1, MAX_ORDER + 1); }
  }

  /** n * 10^x == m * 10^e with n not divisible by ten forces e <= x only by lengthening m. */
  lemma NormalMantissaIsLeast(n: int, x: int, m: int, e: int)
    requires n % 10 != 0 && Scale(n as real, x) == Scale(m as real, e)
    ensures e <= x && m == Shift(n, x - e)
  {
    if e <= x {
      ScaleOfShift(n, x - e, e);
      ScaleMono(Shift(n, x - e) as real, m as real, e);
    } else {
      ScaleOfShift(m, e - x, x);
      ScaleMono(Shift(m, e - x) as real, n as real, x);
    }
  }

  lemma FewDigitsIffShort(d: string)
    requires AllDigits(d) && d != "" && d[0] != '0'
    ensures |d| <= MAX_DIGITS <==> Val(d) < Shift(1, MAX_DIGITS)
  {
    ValBound(d);
    if |d| <= MAX_DIGITS { ShiftGrows(|d|, MAX_DIGITS); } else { ShiftGrows(MAX_DIGITS, |d| - 1); }
  }

  lemma RepresentableIffNormal(negative: bool, d: string, x: int)
    requires AllDigits(d) && d != "" && d[0] != '0' && d[|d| - 1] != '0'
    ensures Representable(SignedValue(negative, d, x)) <==> Normal(d, x)
  {
    var v := SignedValue(negative, d, x);
    var n := Signed(negative, Val(d));
    SignedValueBounds(negative, d, x);
    ScaleExponentMono(|d| - 1 + x, |d| - 1 + x);
    OrderIsMagnitude(Abs(v), |d| - 1 + x);
    FewDigitsIffShort(d);
    LastDigit(d);
    hide Shift, Scale, Val, AllDigits;
    if Normal(d, x) {
      assert v == Scale(n as real, x);
    }
    if Representable(v) {
      var m: int, e: int :| -Shift(1, MAX_DIGITS) < m < Shift(1, MAX_DIGITS) && v == Scale(m as real, e);
      NormalMantissaIsLeast(n, x, m, e);
      ShortMantissa(n, x - e, Shift(1, MAX_DIGITS));
    }
  }

  lemma ShortMantissa(n: int, k: nat, limit: int)
    requires -limit < Shift(n, k) < limit
    ensures -limit < n < limit
  {
    ShiftMono(n, 0, k);
    ShiftMono(0, n, k);
    ShiftLinear(n, 0, k);
    if n >= 0 { ShiftBeyond(n, k); } else { ShiftBelow(n, k); }
  }

  lemma {:induction false} ShiftBeyond(n: int, k: nat)
    requires n >= 0
    ensures Shift(n, k) >= n
  {
    if k == 0 {
    } else {
      ShiftBeyond(n, k - 1);
    }
  }

  lemma {:induction false} ShiftBelow(n: int, k: nat)
    requires n <= 0
    ensures Shift(n, k) <= n
  {
    if k == 0 {
    } else {
      ShiftBelow(n, k - 1);
    }
  }

  lemma SpellingAccepted(s: Spelling)
    requires s.Valid() && FitsInt32(s.power.Exponent())
    ensures ParseSpelling(s).Success? <==> Representable(s.Value())
    ensures ParseSpelling(s).Failure? ==> ParseSpelling(s).error.UnsupportedPrecision?
  {
    StrippedKeepsValue(s);
    var d, x := StrippedDigits(s), StrippedExponent(s);
    if d == "" {
      ScaleMono(0.0, 0.0, x);
    } else {
      RepresentableIffNormal(s.sign.Minus?, d, x);
    }
  }

  /** The parser rejects exactly the malformed texts as invalid, and accepts a well-formed text
      with a 32-bit exponent exactly when its number is representable. */
  lemma AcceptedExactly(text: string)
    requires |text| <= MAX_TEXT
    ensures ParseDecimal(text) == Failure(InvalidDecimal) <==> !WellFormed(text)
    ensures WellFormed(text) && !FitsInt32(Spelled(text).power.Exponent()) ==>
      ParseDecimal(text) == Failure(UnsupportedPrecision)
    ensures WellFormed(text) && FitsInt32(Spelled(text).power.Exponent()) ==>
              (ParseDecimal(text).Success? <==> Representable(TextValue(text)))
  {
    if WellFormed(text) && FitsInt32(Spelled(text).power.Exponent()) {
      SpellingAccepted(Spelled(text));
    }
  }

  lemma NormalMantissa(negative: bool, d: string, x: int)
    requires Normal(d, x)
    ensures Val(d) > 0 && Signed(negative, Val(d)) % 10 != 0
  {
    LastDigit(d);
    ValBound(d);
    ShiftMono(1, 0, |d| - 1);
  }

  lemma NormalFormUnique(n1: bool, d1: string, x1: int, n2: bool, d2: string, x2: int)
    requires Normal(d1, x1) && Normal(d2, x2)
    requires SignedValue(n1, d1, x1) == SignedValue(n2, d2, x2)
    ensures n1 == n2 && d1 == d2 && x1 == x2
  {
    NormalMantissa(n1, d1, x1);
    NormalMantissa(n2, d2, x2);
    var v1 := Signed(n1, Val(d1));
    var v2 := Signed(n2, Val(d2));
    NormalMantissaIsLeast(v1, x1, v2, x2);
    NormalMantissaIsLeast(v2, x2, v1, x1);
    assert Val(d1) == Val(d2);
    ValUnique(d1, d2);
  }

  lemma NonzeroNormal(negative: bool, d: string, x: int)
    requires Normal(d, x)
    ensures SignedValue(negative, d, x) != 0.0
  {
    SignedValueBounds(negative, d, x);
    ScaleExponentMono(|d| - 1 + x, |d| - 1 + x);
  }

  lemma SameSpellingResult(s: Spelling, t: Spelling)
    requires s.Valid() && t.Valid() && ParseSpelling(s).Success? && ParseSpelling(t).Success? && s.Value() == t.Value()
    ensures ParseSpelling(s) == ParseSpelling(t)
  {
    ParsedForm(s);
    ParsedForm(t);
    var d, e := StrippedDigits(s), StrippedDigits(t);
    if d != "" { NonzeroNormal(s.sign.Minus?, d, StrippedExponent(s)); }
    if e != "" { NonzeroNormal(t.sign.Minus?, e, StrippedExponent(t)); }
    if d != "" && e != "" {
      NormalFormUnique(s.sign.Minus?, d, StrippedExponent(s), t.sign.Minus?, e, StrippedExponent(t));
    }
  }

  /** Two accepted spellings get the same canonical text exactly when they denote one number. */
  lemma SameTextIffSameNumber(a: string, b: string)
    requires ParseDecimal(a).Success? && ParseDecimal(b).Success?
    ensures ParseDecimal(a) == ParseDecimal(b) <==> TextValue(a) == TextValue(b)
  {
    ParseKeepsValue(a);
    ParseKeepsValue(b);
    if TextValue(a) == TextValue(b) {
      SameSpellingResult(Spelled(a), Spelled(b));
    }
  }

  // ---- the type

  /** A canonical text: zero, or the canonical spelling of digits within bounds. */
  ghost predicate Canonical(text: string) {
    text == "0" || exists negative: bool, digits: string, exponent: int ::
      Normal(digits, exponent) && text == CanonicalSpelling(negative, digits, exponent).Render()
  }

  /** The canonical texts are exactly the fixed points of the parser. */
  lemma CanonicalIffParsesToItself(text: string)
    ensures Canonical(text) <==> ParseDecimal(text) == Success(text)
  {
    hide CanonicalSpelling, Normal, Scan, StrippedDigits, StrippedExponent;
    if Canonical(text) {
      if text == "0" {
        ZeroParses();
      } else {
        var negative: bool, digits: string, exponent: int :|
          Normal(digits, exponent) && text == CanonicalSpelling(negative, digits, exponent).Render();
        ParseCanonical(negative, digits, exponent);
      }
    }
    if ParseDecimal(text) == Success(text) { ParsedForm(Spelled(text)); }
  }

  /** Whatever the parser returns is canonical. */
  lemma ParsedIsCanonical(text: string)
    ensures ParsedCanonically(ParseDecimal(text))
  {
    hide Canonical, ParseDecimal, Scan;
    if ParseDecimal(text).Success? {
      ParseKeepsValue(text);
      CanonicalIffParsesToItself(ParseDecimal(text).value);
      NothingIsNoNumber();
    }
  }

  ghost predicate ParsedCanonically(r: Result<string,
                                    DecimalError>) { r.Success? ==> Canonical(r.value) && r.value != "" }

  /** A canonical text, or the empty text of the source's invalid zero value. */
  type Decimal = d: string | d == "" || Canonical(d) ghost witness ""

  predicate IsNumber(d: Decimal) { d != "" }

  function AsNumber(r: Result<string, DecimalError>): (n: Result<Decimal, DecimalError>)
    requires ParsedCanonically(r)
    ensures n.Success? ==> IsNumber(n.value)
  {
    match r
    case Failure(e) => Failure(e)
    case Success(c) => Success(c)
  }

  /** The number a text spells. */
  function ParseNumber(text: string): (n: Result<Decimal, DecimalError>)
    ensures n.Success? ==> IsNumber(n.value)
  {
    ParsedIsCanonical(text);
    AsNumber(ParseDecimal(text))
  }

  lemma NumberParses(d: Decimal)
    requires IsNumber(d)
    ensures WellFormed(d) && ParseDecimal(d) == Success(d) && |d| <= MAX_TEXT
  {
    hide Canonical, Scan;
    CanonicalIffParsesToItself(d);
  }

  function Num(d: Decimal): real
    requires IsNumber(d)
  {
    NumberParses(d);
    TextValue(d)
  }

  function Compare(a: Decimal, b: Decimal): int
    requires IsNumber(a) && IsNumber(b)
  {
    if Num(a) < Num(b) then -1 else if Num(a) > Num(b) then 1 else 0
  }
}
