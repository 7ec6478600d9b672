/** The 83-character index keys whose byte order is the numeric order of decimals. */
module DecimalKeys {
  import opened Ordering
  import opened Digits
  import opened Wrappers
  import opened Decimals

  const KEY_PLACES := 57
  const KEY_DIGITS := 82

  /** The digits of a spelling scaled by 10^57, without leading zeros. */
  function ScaledDigits(s: Spelling): string
    requires |s.frac| <= KEY_PLACES
  {
    TrimLeft(s.whole + s.frac + Zeros(KEY_PLACES - |s.frac|))
  }

  function SignKey(negative: bool, padded: string): string
    requires AllDigits(padded)
  {
    if negative then "0" + Complement(padded) else "1" + padded
  }

  lemma ScaledDigitsVal(s: Spelling)
    requires s.Valid() && |s.frac| <= KEY_PLACES
    ensures AllDigits(ScaledDigits(s)) && Val(ScaledDigits(s)) == Shift(Val(s.whole + s.frac), KEY_PLACES - |s.frac|)
    ensures |ScaledDigits(s)| <= |s.whole| + KEY_PLACES
  {
    var k := KEY_PLACES - |s.frac|;
    ValConcat(s.whole + s.frac, Zeros(k));
    ValZeros(k);
    TrimLeftSplit(s.whole + s.frac + Zeros(k));
    TrimLeftVal(s.whole + s.frac + Zeros(k));
  }

  /** Nine's-complements an array of digits in place. */
  method ComplementInPlace(a: array<char>)
    requires AllDigits(a[..])
    modifies a
    ensures a[..] == Complement(old(a[..]))
  {
    var i := 0;
    while i < a.Length
      invariant 0 <= i <= a.Length
      invariant forall k :: 0 <= k < i ==> a[k] == CharOf(9 - DigitOf(old(a[..])[k]))
      invariant forall k :: i <= k < a.Length ==> a[k] == old(a[..])[k]
    {
      assert IsDigit(old(a[..])[i]);
      a[i] := '9' - (a[i] - '0');
      i := i + 1;
    }
  }

  // ---- what the key of a number is

  lemma SpelledFits(d: Decimal)
    requires IsNumber(d)
    ensures WellFormed(d) && |Spelled(d).frac| <= KEY_PLACES
  {
    hide Scan, ParseSpelling, Canonical, ParseDecimal;
    NumberParses(d);
    ParseKeepsValue(d);
  }

  /** The magnitude of a decimal in units of 10^-57. */
  function Units(d: Decimal): nat
    requires IsNumber(d)
  {
    SpelledFits(d);
    SpellingMagnitude(Spelled(d))
  }

  function SpellingMagnitude(s: Spelling): nat
    requires s.Valid() && |s.frac| <= KEY_PLACES
  {
    ShiftMono(Val(s.whole + s.frac), 0, KEY_PLACES - |s.frac|);
    Shift(Val(s.whole + s.frac), KEY_PLACES - |s.frac|)
  }

  predicate Negative(d: Decimal)
    requires IsNumber(d)
  {
    SpelledFits(d);
    Spelled(d).sign.Minus?
  }

  /** A number in the type is its own parse. */
  lemma ParseOfNumber(d: Decimal)
    requires IsNumber(d)
    ensures WellFormed(d) && CanonicalShape(d) && Spelled(d).Render() == d
    ensures ParseDecimal(d) == Success(d) && ParseSpelling(Spelled(d)) == Success(d)
    ensures Num(d) == Spelled(d).Value()
  {
    hide Scan, ParseSpelling, CanonicalShape, Canonical;
    NumberParses(d);
    ParseKeepsValue(d);
    ScanIsValid(d);
  }

  /** n in exactly k digits. */
  function FixedDigits(n: nat, k: nat): string {
    if k == 0 then "" else FixedDigits(n / 10, k - 1) + [CharOf(n % 10)]
  }

  lemma {:induction false} FixedDigitsVal(n: nat, k: nat)
    requires n < Shift(1, k)
    ensures AllDigits(FixedDigits(n, k)) && |FixedDigits(n, k)| == k && Val(FixedDigits(n, k)) == n
  {
    if k == 0 {
    } else {
      FixedDigitsVal(n / 10, k - 1);
      var s := FixedDigits(n, k);
      assert s[..|s| - 1] == FixedDigits(n / 10, k - 1);
    }
  }

  /** The key of a number: its sign and the 82 digits of its magnitude in units of 10^-57, nine's
      complemented below zero. */
  function DecimalKey(value: Decimal): Result<string, DecimalError> {
    if !IsNumber(value) then Failure(InvalidDecimal)
    else
      UnitsFit(value);
      Success(SignKey(Negative(value), FixedDigits(Units(value), KEY_DIGITS)))
  }

  lemma UnitsFit(d: Decimal)
    requires IsNumber(d)
    ensures Units(d) < Shift(1, KEY_DIGITS) && AllDigits(FixedDigits(Units(d), KEY_DIGITS))
  {
    var padded := PaddedKey(d);
    FixedDigitsVal(Units(d), KEY_DIGITS);
  }

  /** The digits the source pads are those of the magnitude. */
  lemma PaddedKey(d: Decimal) returns (padded: string)
    requires IsNumber(d)
    ensures AllDigits(padded) && |padded| == KEY_DIGITS && Val(padded) == Units(d) < Shift(1, KEY_DIGITS)
    ensures WellFormed(d) && |Spelled(d).frac| <= KEY_PLACES && |ScaledDigits(Spelled(d))| <= KEY_DIGITS
    ensures padded == Zeros(KEY_DIGITS - |ScaledDigits(Spelled(d))|) + ScaledDigits(Spelled(d))
  {
    hide Canonical, ParseDecimal, Scan, ParseSpelling;
    ParseOfNumber(d);
    var s := Spelled(d);
    ScaledDigitsVal(s);
    var digits := ScaledDigits(s);
    padded := Zeros(KEY_DIGITS - |digits|) + digits;
    LeadingZeros(KEY_DIGITS - |digits|, digits);
    ValBound(padded);
  }

  lemma ParseOrNothing(value: Decimal)
    ensures ParseDecimal(value) == if IsNumber(value) then Success(value) else Failure(InvalidDecimal)
  {
    hide Canonical;
    if IsNumber(value) { NumberParses(value); } else { NothingIsNoNumber(); }
  }

  /** Parses its argument again and works on its text; it fails only without a number. */
  method SpecBleveDecimalKey(value: Decimal) returns (key: Result<string, DecimalError>)
    ensures key == DecimalKey(value)
  {
    hide Canonical, ParseDecimal, Scan, ParseSpelling, ScaledDigits, Complement, Val, AllDigits, Units, FixedDigits;
    ParseOrNothing(value);
    var parsed := ParseDecimal(value);
    if parsed.Failure? { return Failure(parsed.error); }
    ghost var expected := PaddedKey(value);
    UnitsFit(value);
    FixedDigitsVal(Units(value), KEY_DIGITS);
    ValInjective(expected, FixedDigits(Units(value), KEY_DIGITS));
    var s := Spelled(parsed.value);
    if |s.frac| > KEY_PLACES { return Failure(UnsupportedPrecision); }
    var digits := ScaledDigits(s);
    if |digits| > KEY_DIGITS { return Failure(UnsupportedPrecision); }
    var padded := Zeros(KEY_DIGITS - |digits|) + digits;
    if !s.sign.Minus? { return Success("1" + padded); }
    var complement := new char[|padded|](i requires 0 <= i < |padded| => padded[i]);
    assert complement[..] == padded;
    ComplementInPlace(complement);
    return Success("0" + complement[..]);
  }

  // ---- the key is an order isomorphism

  lemma ZeroHasNoSign(s: Spelling)
    requires s.Valid() && s.sign.Minus? && StrippedDigits(s) == ""
    ensures ParseSpelling(s) != Success(s.Render())
  {
    assert s.Render()[0] == '-';
    if ParseSpelling(s).Success? { ParsedForm(s); }
  }

  lemma NegativeIsNonzero(s: Spelling)
    requires s.Valid() && ParseSpelling(s) == Success(s.Render()) && s.sign.Minus?
    ensures Val(s.whole + s.frac) > 0
  {
    hide ParseSpelling;
    if StrippedDigits(s) == "" { ZeroHasNoSign(s); }
    StripVal(s.whole + s.frac);
    var d := StrippedDigits(s);
    ValBound(d);
    ShiftMono(1, 0, |d| - 1);
    ShiftMono(0, Val(d), |TrimLeft(s.whole + s.frac)| - |d|);
  }

  lemma SpellingUnits(s: Spelling)
    requires s.Valid() && s.power.NoPower? && |s.frac| <= KEY_PLACES
    ensures Scale(s.Value(), KEY_PLACES) ==
      Signed(s.sign.Minus?, Shift(Val(s.whole + s.frac), KEY_PLACES - |s.frac|)) as real
  {
    var m := Signed(s.sign.Minus?, Val(s.whole + s.frac));
    ScaleAdd(m as real, -|s.frac|, KEY_PLACES);
    ScaleShift(m, KEY_PLACES - |s.frac|);
    SignedShift(s.sign.Minus?, Val(s.whole + s.frac), KEY_PLACES - |s.frac|);
  }

  /** A stored decimal scaled by 10^57 is an integer, and its minus sign means below zero. */
  lemma NumberInUnits(d: Decimal)
    requires IsNumber(d)
    ensures Scale(Num(d), KEY_PLACES) == Signed(Negative(d), Units(d)) as real
    ensures Negative(d) ==> Units(d) > 0
  {
    hide Canonical, ParseDecimal, Scan, ParseSpelling;
    ParseOfNumber(d);
    var s := Spelled(d);
    SpellingUnits(s);
    if s.sign.Minus? {
      NegativeIsNonzero(s);
      ShiftMono(0, Val(s.whole + s.frac), KEY_PLACES - |s.frac|);
    }
  }

  lemma SignKeyOrder(n: bool, a: string, m: bool, b: string)
    requires AllDigits(a) && AllDigits(b) && |a| == |b|
    requires n ==> Val(a) > 0
    requires m ==> Val(b) > 0
    ensures LexLess(SignKey(n, a), SignKey(m, b)) <==> Signed(n, Val(a)) < Signed(m, Val(b))
    ensures SignKey(n, a) == SignKey(m, b) <==> Signed(n, Val(a)) == Signed(m, Val(b))
    ensures |SignKey(n, a)| == |SignKey(m, b)| == |a| + 1
  {
    var k, l := SignKey(n, a), SignKey(m, b);
    if n == m {
      ComplementVal(a);
      ComplementVal(b);
      LexIsNumeric(k[1..], l[1..]);
      if Val(a) == Val(b) { ValInjective(a, b); }
    }
  }

  /** Every number has a key of 83 characters. */
  lemma KeyLength(a: Decimal)
    requires IsNumber(a)
    ensures DecimalKey(a).Success? && |DecimalKey(a).value| == KEY_DIGITS + 1
  {
    hide Canonical, Num, Units, Negative, Val, AllDigits, FixedDigits;
    UnitsFit(a);
    FixedDigitsVal(Units(a), KEY_DIGITS);
  }

  /** The byte order of keys is numeric order for every combination of signs. */
  lemma KeyOrder(a: Decimal, b: Decimal)
    requires IsNumber(a) && IsNumber(b)
    ensures DecimalKey(a).Success? && DecimalKey(b).Success?
    ensures LexLess(DecimalKey(a).value, DecimalKey(b).value) <==> Num(a) < Num(b)
    ensures DecimalKey(a) == DecimalKey(b) <==> Num(a) == Num(b)
  {
    hide Canonical, Num, Units, Negative, Val, AllDigits, FixedDigits, SignKey;
    UnitsFit(a);
    UnitsFit(b);
    FixedDigitsVal(Units(a), KEY_DIGITS);
    FixedDigitsVal(Units(b), KEY_DIGITS);
    NumberInUnits(a);
    NumberInUnits(b);
    SignKeyOrder(Negative(a), FixedDigits(Units(a), KEY_DIGITS), Negative(b), FixedDigits(Units(b), KEY_DIGITS));
    ScaleMono(Num(a), Num(b), KEY_PLACES);
  }
}
