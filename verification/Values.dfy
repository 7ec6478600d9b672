/** Numeric facts: a tagged union of shapes, and when one is valid under a profile. */
module Values {
  import opened Wrappers
  import opened Decimals
  import opened Rationals
  import opened Profiles

  datatype Interval = Interval(lower: Decimal, upper: Decimal, lowerInclusive: bool, upperInclusive: bool)

  datatype ToleranceType = Absolute | Relative | OtherTolerance(name: string)

  datatype Tolerance = Tolerance(nominal: Decimal, kind: ToleranceType, amount: Decimal, interval: Interval)

  datatype Direction = Lower | Upper | OtherDirection(name: string)

  datatype BoundClaim = BoundClaim(direction: Direction, value: Decimal, inclusive: bool)

  datatype Context = Unconditional(raw: string) | Conditional(raw: string) | OtherContext(name: string, raw: string)

  datatype Value = Value(
    schemaVersion: int,
    quantity: string,
    role: Role,
    shape: Shape,
    unit: string,
    registryVersion: string,
    scalar: Option<Decimal>,
    values: Option<seq<Decimal>>,
    intervals: Option<seq<Interval>>,
    tolerance: Option<Tolerance>,
    bound: Option<BoundClaim>,
    context: Context)

  predicate IsSpace(c: char) {
    || '\t' <= c <= '\r' || c == ' ' || c == '\U{85}' || c == '\U{A0}' || c == '\U{1680}'
    || '\U{2000}' <= c <= '\U{200A}' || c == '\U{2028}' || c == '\U{2029}' || c == '\U{202F}'
    || c == '\U{205F}' || c == '\U{3000}'
  }

  predicate Blank(s: string) { forall c :: c in s ==> IsSpace(c) }

  predicate ValidInterval(i: Interval) {
    && IsNumber(i.lower) && IsNumber(i.upper)
    && var c := Compare(i.lower, i.upper);
       c < 0 || (c == 0 && i.lowerInclusive && i.upperInclusive)
  }

  /** The half-width of a tolerance in canonical units. */
  function ToleranceAmount(t: Tolerance): Rat
    requires IsNumber(t.nominal) && IsNumber(t.amount)
  {
    RatOfIsExact(t.amount);
    RatOfIsExact(t.nominal);
    if t.kind.Relative? then
      PercentOf(RatOf(t.amount), RatAbs(RatOf(t.nominal)));
      RatMul(RatMul(RatOf(t.amount), RatAbs(RatOf(t.nominal))), Rat(1, 100))
    else RatOf(t.amount)
  }

  predicate ValidTolerance(t: Tolerance) {
    && IsNumber(t.nominal) && IsNumber(t.amount)
    && RatOf(t.amount).num >= 0
    && !t.kind.OtherTolerance?
    && (ToleranceAmountOk(t);
        RatOfIsExact(t.nominal);
        var lower := DecimalFromRat(LowerEnd(t));
        var upper := DecimalFromRat(UpperEnd(t));
        && lower.Success? && upper.Success?
        && ValidInterval(t.interval)
        && t.interval.lowerInclusive && t.interval.upperInclusive
        && IsNumber(lower.value) && IsNumber(upper.value)
        && Compare(lower.value, t.interval.lower) == 0 && Compare(upper.value, t.interval.upper) == 0)
  }

  function LowerEnd(t: Tolerance): (r: Rat)
    requires IsNumber(t.nominal) && IsNumber(t.amount)
    ensures r.den > 0
  {
    ToleranceEnds(t);
    RatAdd(RatOf(t.nominal), RatNeg(ToleranceAmount(t)))
  }

  function UpperEnd(t: Tolerance): (r: Rat)
    requires IsNumber(t.nominal) && IsNumber(t.amount)
    ensures r.den > 0
  {
    ToleranceEnds(t);
    RatAdd(RatOf(t.nominal), ToleranceAmount(t))
  }

  function Percent(x: real, y: real): real { x * y / 100.0 }

  ghost function HalfWidth(t: Tolerance): real
    requires IsNumber(t.nominal) && IsNumber(t.amount)
  {
    if t.kind.Relative? then Percent(Num(t.amount), Abs(Num(t.nominal))) else Num(t.amount)
  }

  lemma ToleranceAmountOk(t: Tolerance)
    requires IsNumber(t.nominal) && IsNumber(t.amount)
    ensures ToleranceAmount(t).den > 0 && RatValue(ToleranceAmount(t)) == HalfWidth(t)
  {
    hide Canonical, ParseDecimal, RatOf, RatMul, Num, RatValue, Abs, Percent;
    RatOfIsExact(t.amount);
    RatOfIsExact(t.nominal);
    if t.kind.Relative? {
      var a, n := RatOf(t.amount), RatAbs(RatOf(t.nominal));
      RatSign(RatOf(t.nominal));
      PercentOf(a, n);
    }
  }

  lemma PercentOf(a: Rat, n: Rat)
    requires a.den > 0 && n.den > 0
    ensures RatMul(a, n).den > 0 && RatMul(RatMul(a, n), Rat(1, 100)).den > 0
    ensures RatValue(RatMul(RatMul(a, n), Rat(1, 100))) == Percent(RatValue(a), RatValue(n))
  {
    hide RatMul, RatValue;
    RatArithmetic(a, n);
    RatArithmetic(RatMul(a, n), Rat(1, 100));
    RatioIs(Rat(1, 100));
    Hundredth(RatValue(RatMul(a, n)), RatValue(Rat(1, 100)));
  }

  lemma Hundredth(x: real, h: real)
    requires h == 1 as real / 100 as real
    ensures x * h == x / 100.0
  {
  }

  lemma ToleranceEnds(t: Tolerance)
    requires IsNumber(t.nominal) && IsNumber(t.amount)
    ensures RatOf(t.nominal).den > 0 && ToleranceAmount(t).den > 0
    ensures RatAdd(RatOf(t.nominal), RatNeg(ToleranceAmount(t))).den > 0
    ensures RatAdd(RatOf(t.nominal), ToleranceAmount(t)).den > 0
    ensures RatValue(RatAdd(RatOf(t.nominal), RatNeg(ToleranceAmount(t)))) == Num(t.nominal) - HalfWidth(t)
    ensures RatValue(RatAdd(RatOf(t.nominal), ToleranceAmount(t))) == Num(t.nominal) + HalfWidth(t)
  {
    hide Canonical, ParseDecimal, RatOf, ToleranceAmount, RatAdd, Num, RatValue, HalfWidth;
    RatOfIsExact(t.nominal);
    ToleranceAmountOk(t);
    RatSign(ToleranceAmount(t));
    RatArithmetic(RatOf(t.nominal), RatNeg(ToleranceAmount(t)));
    RatArithmetic(RatOf(t.nominal), ToleranceAmount(t));
  }

  /** A valid tolerance states exactly the interval nominal +/- amount, both ends included. */
  lemma ToleranceIsExact(t: Tolerance)
    requires ValidTolerance(t)
    ensures Num(t.amount) >= 0.0
    ensures Num(t.interval.lower) == Num(t.nominal) - HalfWidth(t)
    ensures Num(t.interval.upper) == Num(t.nominal) + HalfWidth(t)
  {
    hide Canonical, ParseDecimal, RatOf, ToleranceAmount, RatAdd, Num, RatValue, HalfWidth, DecimalFromRat;
    RatOfIsExact(t.amount);
    RatSign(RatOf(t.amount));
    ToleranceEnds(t);
    FromRatSound(LowerEnd(t));
    FromRatSound(UpperEnd(t));
  }

  /** Exactly one payload is present. */
  predicate OnePayload(v: Value) {
    (if v.scalar.Some? then 1 else 0) + (if v.values.Some? then 1 else 0) + (if v.intervals.Some? then 1 else 0)
    + (if v.tolerance.Some? then 1 else 0) + (if v.bound.Some? then 1 else 0) == 1
  }

  predicate ValidPayload(v: Value, p: Profile) {
    match v.shape
    case Scalar => v.scalar.Some? && IsNumber(v.scalar.value)
    case DiscreteSet =>
      && v.values.Some? && v.values.value != []
      && forall k :: 0 <= k < |v.values.value| ==> IsNumber(v.values.value[k])
    case IntervalSet =>
      && v.intervals.Some? && v.intervals.value != []
      && forall i :: i in v.intervals.value ==> ValidInterval(i)
    case ToleranceShape => v.tolerance.Some? && ValidTolerance(v.tolerance.value)
    case BoundClaimShape =>
      && v.bound.Some? && IsNumber(v.bound.value.value) && !v.bound.value.direction.OtherDirection?
      && (p.role.ErrorMagnitude? ==> v.bound.value.direction.Upper? && RatOf(v.bound.value.value).num >= 0)
    case OtherShape(_) => false
  }

  predicate IsCount(d: Decimal) {
    IsNumber(d) && RatOf(d).num >= 0 && RatOf(d).den == 1
  }

  /** The numbers a count must have: every scalar, set member, interval end and bound. */
  predicate CountsOnly(v: Value) {
    match v.shape
    case Scalar => v.scalar.Some? && IsCount(v.scalar.value)
    case DiscreteSet => v.values.Some? && forall k :: 0 <= k < |v.values.value| ==> IsCount(v.values.value[k])
    case IntervalSet => v.intervals.Some? && forall i :: i in v.intervals.value ==> IsCount(i.lower) && IsCount(i.upper)
    case BoundClaimShape => v.bound.Some? && IsCount(v.bound.value.value)
    case _ => true
  }

  /** The source accepts the value under the profile. */
  predicate ValidValue(v: Value, p: Profile) {
    && ValidProfile(p)
    && v.schemaVersion == p.schemaVersion && v.quantity == p.quantity && v.role == p.role
    && v.unit == p.canonicalUnit && v.registryVersion == p.registryVersion
    && v.shape in p.shapes
    && (v.context.Unconditional? ==> v.context.raw == "")
    && (v.context.Conditional? ==> !Blank(v.context.raw))
    && !v.context.OtherContext?
    && OnePayload(v) && ValidPayload(v, p)
    && (p.quantity == "count" ==> CountsOnly(v))
  }
}
