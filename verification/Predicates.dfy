/** Search predicates: normalization to canonical units, and truth for scalar and one-sided facts. */
module Predicates {
  import opened Wrappers
  import opened Decimals
  import opened Profiles
  import opened Values

  datatype Truth = Match | NoMatch | Unknown

  datatype Predicate = Predicate(
    specID: string,
    operator: Operator,
    value: Option<Decimal>,
    lower: Option<Decimal>,
    upper: Option<Decimal>,
    unit: string)

  predicate IsRange(o: Operator) { o.Between? || o.ContainsRange? || o.OverlapsRange? }

  predicate IsSupport(o: Operator) { o.ContainsPoint? || o.ContainsRange? || o.OverlapsRange? }

  /** Exactly the operands the operator takes. */
  predicate RightOperands(p: Predicate) {
    if IsRange(p.operator) then p.value.None? && p.lower.Some? && p.upper.Some?
    else p.value.Some? && p.lower.None? && p.upper.None?
  }

  predicate Compatible(role: Role, shape: Shape, o: Operator) {
    if role.ErrorMagnitude? then shape.BoundClaimShape? && (o.Less? || o.LessEqual?)
    else if IsSupport(o) then role.OperatingSupport? && (shape.Scalar? || shape.DiscreteSet? || shape.IntervalSet?)
    else if o.OtherOperator? then false
    else
      || shape.Scalar?
      || (shape.ToleranceShape? && role.Nominal?)
      || (shape.BoundClaimShape? && (role.MinimumLimit? || role.MaximumLimit? || role.AbsoluteMaximum?))
  }

  function ConvertOperand(operand: Option<Decimal>, unit: string, p: Profile): Option<Option<Decimal>> {
    if operand.None? then Some(None)
    else match Convert(operand.value, unit, p)
      case Success(d) => Some(Some(d))
      case Failure(_) => None
  }

  /** The predicate with its operands in the profile's canonical unit, if it is valid there. */
  function NormalizePredicate(input: Predicate, p: Profile): Option<Predicate> {
    if !ValidProfile(p) || Blank(input.specID) || input.unit == "" then None
    else if input.operator !in p.operators then None
    else if !(exists s :: s in p.shapes && Compatible(p.role, s, input.operator)) then None
    else if !RightOperands(input) then None
    else
      var value := ConvertOperand(input.value, input.unit, p);
      var lower := ConvertOperand(input.lower, input.unit, p);
      var upper := ConvertOperand(input.upper, input.unit, p);
      if value.None? || lower.None? || upper.None? then None
      else
        var output := Predicate(input.specID, input.operator, value.value, lower.value, upper.value, p.canonicalUnit);
        OperandIsExact(input.lower, input.unit, p);
        OperandIsExact(input.upper, input.unit, p);
        if IsRange(input.operator) && Compare(output.lower.value, output.upper.value) > 0 then None
        else Some(output)
  }

  predicate OperandIsNumber(operand: Option<Decimal>) { operand.Some? ==> IsNumber(operand.value) }

  lemma OperandIsExact(operand: Option<Decimal>, unit: string, p: Profile)
    requires ValidProfile(p) && ConvertOperand(operand, unit, p).Some?
    ensures var converted := ConvertOperand(operand, unit, p).value;
      && OperandIsNumber(operand) && OperandIsNumber(converted)
      && (operand.Some? <==> converted.Some?)
      && (operand.Some? ==> ProfileFactor(unit, p).Some?)
      && (operand.Some? ==> Num(converted.value) == CanonicalNumber(operand.value, unit, p))
  {
    hide Canonical, ParseDecimal, Num, ValidProfile, ProfileFactor, CanonicalNumber;
    if operand.Some? {
      var c := ConvertOperand(operand, unit, p).value.value;
      ConvertIsExact(operand.value, unit, p, c);
    }
  }

  /** A normalized predicate: right operands, all numbers, ranges in order. */
  predicate WellFormedQuery(q: Predicate) {
    && RightOperands(q) && OperandIsNumber(q.value) && OperandIsNumber(q.lower) && OperandIsNumber(q.upper)
    && (IsRange(q.operator) ==> Num(q.lower.value) <= Num(q.upper.value))
  }

  lemma NormalizedIsWellFormed(input: Predicate, p: Profile)
    requires NormalizePredicate(input, p).Some?
    ensures var q := NormalizePredicate(input, p).value;
      WellFormedQuery(q) && q.operator == input.operator && q.specID == input.specID && q.unit == p.canonicalUnit
  {
    hide Canonical, ParseDecimal, Num, ValidProfile, Convert, Compatible;
    OperandIsExact(input.value, input.unit, p);
    OperandIsExact(input.lower, input.unit, p);
    OperandIsExact(input.upper, input.unit, p);
  }

  /** The operand has a number of canonical units that a decimal can be. */
  ghost predicate Convertible(operand: Option<Decimal>, unit: string, p: Profile) {
    operand.Some? ==>
      && IsNumber(operand.value) && ProfileFactor(unit, p).Some?
      && exists d: Decimal :: IsNumber(d) && Num(d) == CanonicalNumber(operand.value, unit, p)
  }

  /** An operand and what it is in canonical units. */
  ghost predicate IsInCanonicalUnits(operand: Option<Decimal>, unit: string, p: Profile, converted: Option<Decimal>) {
    && (operand.Some? <==> converted.Some?)
    && (operand.Some? ==>
          && IsNumber(operand.value) && IsNumber(converted.value) && ProfileFactor(unit, p).Some?
          && Num(converted.value) == CanonicalNumber(operand.value, unit, p))
  }

  lemma ConvertibleExactly(operand: Option<Decimal>, unit: string, p: Profile)
    requires ValidProfile(p)
    ensures ConvertOperand(operand, unit, p).Some? <==> Convertible(operand, unit, p)
    ensures ConvertOperand(operand, unit, p).Some? ==>
      IsInCanonicalUnits(operand, unit, p, ConvertOperand(operand, unit, p).value)
  {
    hide Canonical, ParseDecimal, Num, ValidProfile, ProfileFactor, CanonicalNumber;
    if ConvertOperand(operand, unit, p).Some? { OperandIsExact(operand, unit, p); }
    if operand.Some? && Convertible(operand, unit, p) {
      var d: Decimal :| IsNumber(d) && Num(d) == CanonicalNumber(operand.value, unit, p);
      ConvertIsExact(operand.value, unit, p, d);
    }
  }

  /** Each operand of the normalized predicate is the same operand of the input in canonical units,
      and nothing else but the unit changes. */
  lemma NormalizedOperands(input: Predicate, p: Profile)
    requires NormalizePredicate(input, p).Some?
    ensures var q := NormalizePredicate(input, p).value;
      && q.specID == input.specID && q.operator == input.operator && q.unit == p.canonicalUnit
      && IsInCanonicalUnits(input.value, input.unit, p, q.value)
      && IsInCanonicalUnits(input.lower, input.unit, p, q.lower)
      && IsInCanonicalUnits(input.upper, input.unit, p, q.upper)
  {
    hide Canonical, ParseDecimal, Num, ValidProfile, Compatible, IsInCanonicalUnits, ConvertOperand, Compare;
    ConvertibleExactly(input.value, input.unit, p);
    ConvertibleExactly(input.lower, input.unit, p);
    ConvertibleExactly(input.upper, input.unit, p);
  }

  /** A predicate normalizes exactly when the profile is valid, the predicate is named and has a
      unit, its operator is allowed and fits an allowed shape, its operands are the operator's and
      convert, and a range is not reversed. */
  lemma NormalizesExactly(input: Predicate, p: Profile)
    ensures NormalizePredicate(input, p).Some? <==>
      && ValidProfile(p) && !Blank(input.specID) && input.unit != ""
      && input.operator in p.operators && (exists s :: s in p.shapes && Compatible(p.role, s, input.operator))
      && RightOperands(input)
      && Convertible(input.value, input.unit, p) && Convertible(input.lower, input.unit, p)
      && Convertible(input.upper, input.unit, p)
      && (IsRange(input.operator) ==>
            CanonicalNumber(input.lower.value, input.unit, p) <= CanonicalNumber(input.upper.value, input.unit, p))
  {
    hide Canonical, ParseDecimal, Num, ValidProfile, Compatible, ConvertOperand, CanonicalNumber, ProfileFactor;
    if ValidProfile(p) {
      ConvertibleExactly(input.value, input.unit, p);
      ConvertibleExactly(input.lower, input.unit, p);
      ConvertibleExactly(input.upper, input.unit, p);
      hide Convertible;
    }
  }

  /** The same number of canonical units in two units. */
  ghost predicate SameQuantity(a: Option<Decimal>, unitA: string, b: Option<Decimal>, unitB: string, p: Profile) {
    && (a.Some? <==> b.Some?)
    && (a.Some? && IsNumber(a.value) && IsNumber(b.value)
        && ProfileFactor(unitA, p).Some? && ProfileFactor(unitB, p).Some? ==>
          CanonicalNumber(a.value, unitA, p) == CanonicalNumber(b.value, unitB, p))
  }

  ghost predicate Restates(a: Predicate, b: Predicate, p: Profile) {
    && a.specID == b.specID && a.operator == b.operator
    && SameQuantity(a.value, a.unit, b.value, b.unit, p)
    && SameQuantity(a.lower, a.unit, b.lower, b.unit, p)
    && SameQuantity(a.upper, a.unit, b.upper, b.unit, p)
  }

  lemma SameNumberSameDecimal(a: Decimal, b: Decimal)
    requires IsNumber(a) && IsNumber(b) && Num(a) == Num(b)
    ensures a == b
  {
    hide Scan, ParseSpelling;
    NumberParses(a);
    NumberParses(b);
    SameTextIffSameNumber(a, b);
  }

  lemma SameOperand(a: Option<Decimal>, unitA: string, b: Option<Decimal>, unitB: string, p: Profile)
    requires ValidProfile(p) && SameQuantity(a, unitA, b, unitB, p)
    requires ConvertOperand(a, unitA, p).Some? && ConvertOperand(b, unitB, p).Some?
    ensures ConvertOperand(a, unitA, p) == ConvertOperand(b, unitB, p)
  {
    hide Canonical, ParseDecimal, Num, ValidProfile, ProfileFactor, CanonicalNumber, Convert;
    OperandIsExact(a, unitA, p);
    OperandIsExact(b, unitB, p);
    if a.Some? {
      SameNumberSameDecimal(ConvertOperand(a, unitA, p).value.value, ConvertOperand(b, unitB, p).value.value);
    }
  }

  /** Restating a predicate in another unit changes nothing once both restatements normalize. */
  lemma RestatementNormalizesAlike(a: Predicate, b: Predicate, p: Profile)
    requires Restates(a, b, p) && NormalizePredicate(a, p).Some? && NormalizePredicate(b, p).Some?
    ensures NormalizePredicate(a, p) == NormalizePredicate(b, p)
  {
    hide Canonical, ParseDecimal, Num, ValidProfile, SameQuantity, ConvertOperand, Compatible;
    SameOperand(a.value, a.unit, b.value, b.unit, p);
    SameOperand(a.lower, a.unit, b.lower, b.unit, p);
    SameOperand(a.upper, a.unit, b.upper, b.unit, p);
  }

  // ---- scalar facts

  function TruthOf(condition: bool): Truth { if condition then Match else NoMatch }

  function EvaluateScalar(value: Decimal, q: Predicate): Truth
    requires IsNumber(value) && WellFormedQuery(q)
  {
    if q.operator.Between? then
      TruthOf(Compare(value, q.lower.value) >= 0 && Compare(value, q.upper.value) <= 0)
    else if IsRange(q.operator) then Unknown
    else
      var comparison := Compare(value, q.value.value);
      match q.operator
      case Equal => TruthOf(comparison == 0)
      case Less => TruthOf(comparison < 0)
      case LessEqual => TruthOf(comparison <= 0)
      case Greater => TruthOf(comparison > 0)
      case GreaterEqual => TruthOf(comparison >= 0)
      case _ => Unknown
  }

  /** What a number must satisfy under a comparison query. */
  predicate Satisfies(x: real, q: Predicate)
    requires WellFormedQuery(q)
  {
    match q.operator
    case Equal => x == Num(q.value.value)
    case Less => x < Num(q.value.value)
    case LessEqual => x <= Num(q.value.value)
    case Greater => x > Num(q.value.value)
    case GreaterEqual => x >= Num(q.value.value)
    case Between => Num(q.lower.value) <= x <= Num(q.upper.value)
    case _ => false
  }

  predicate IsComparison(o: Operator) {
    o.Equal? || o.Less? || o.LessEqual? || o.Greater? || o.GreaterEqual? || o.Between?
  }

  lemma ScalarIsExact(value: Decimal, q: Predicate)
    requires IsNumber(value) && WellFormedQuery(q) && IsComparison(q.operator)
    ensures EvaluateScalar(value, q) == TruthOf(Satisfies(Num(value), q))
  {
    hide Canonical, ParseDecimal, Num;
  }

  // ---- one-sided claims

  predicate DirectionFitsRole(d: Direction, role: Role) {
    && (d.Lower? ==> role.MinimumLimit?)
    && (d.Upper? ==> role.MaximumLimit? || role.AbsoluteMaximum?)
  }

  /** The operator seen from the other side of the number line. */
  function Mirror(o: Operator): Operator {
    match o
    case Less => Greater
    case LessEqual => GreaterEqual
    case Greater => Less
    case GreaterEqual => LessEqual
    case _ => o
  }

  function EvaluateBound(bound: BoundClaim, role: Role, q: Predicate): Truth
    requires IsNumber(bound.value) && WellFormedQuery(q)
  {
    if !DirectionFitsRole(bound.direction, role) then Unknown
    else if q.operator.Between? then
      var comparison := if bound.direction.Lower? then Compare(q.upper.value, bound.value)
                        else Compare(bound.value, q.lower.value);
      if comparison < 0 || (comparison == 0 && !bound.inclusive) then NoMatch else Unknown
    else if IsRange(q.operator) then Unknown
    else
      var comparison := if bound.direction.Lower? then -Compare(bound.value, q.value.value)
                        else Compare(bound.value, q.value.value);
      var operator := if bound.direction.Lower? then Mirror(q.operator) else q.operator;
      var below := comparison < 0 || (comparison == 0 && !bound.inclusive);
      match operator
      case Equal => if below then NoMatch else Unknown
      case Less => if below then Match else Unknown
      case LessEqual => if comparison <= 0 then Match else Unknown
      case Greater => if comparison <= 0 then NoMatch else Unknown
      case GreaterEqual => if below then NoMatch else Unknown
      case _ => Unknown
  }

  /** The numbers a one-sided claim leaves possible. */
  predicate Allowed(b: BoundClaim, x: real)
    requires IsNumber(b.value)
  {
    var v := Num(b.value);
    (x == v && b.inclusive) || (if b.direction.Lower? then x > v else x < v)
  }

  /** A number the claim allows and the query answers so. */
  predicate Witness(b: BoundClaim, q: Predicate, x: real, answer: bool)
    requires IsNumber(b.value) && WellFormedQuery(q)
  {
    Allowed(b, x) && Satisfies(x, q) == answer
  }

  /** An allowed witness for each answer the verdict leaves open: beyond every operand, at the
      query's near end, halfway to it, or the claimed value itself. */
  lemma BoundWitness(b: BoundClaim, role: Role, q: Predicate, answer: bool) returns (x: real)
    requires IsNumber(b.value) && !b.direction.OtherDirection? && DirectionFitsRole(b.direction, role)
    requires WellFormedQuery(q) && IsComparison(q.operator)
    requires EvaluateBound(b, role, q) != TruthOf(!answer)
    ensures Witness(b, q, x, answer)
  {
    hide Canonical, ParseDecimal, Num;
    var v := Num(b.value);
    var lo := if q.operator.Between? then Num(q.lower.value) else Num(q.value.value);
    var hi := if q.operator.Between? then Num(q.upper.value) else lo;
    var near := if b.direction.Lower? then hi else lo;
    var min := (if v < lo then v else lo) - 1.0;
    var max := (if v > hi then v else hi) + 1.0;
    var far := if b.direction.Lower? then max else min;
    if Witness(b, q, far, answer) { return far; }
    if Witness(b, q, near, answer) { return near; }
    if Witness(b, q, v, answer) { return v; }
    x := (v + near) / 2.0;
  }

  lemma BoundSound(b: BoundClaim, role: Role, q: Predicate, x: real)
    requires IsNumber(b.value) && !b.direction.OtherDirection? && WellFormedQuery(q) && IsComparison(q.operator)
    requires Allowed(b, x)
    ensures EvaluateBound(b, role, q) == Match ==> Satisfies(x, q)
    ensures EvaluateBound(b, role, q) == NoMatch ==> !Satisfies(x, q)
  {
    hide Canonical, ParseDecimal, Num;
  }

  /** A one-sided claim matches exactly when every number it allows satisfies the query, fails
      exactly when none does, and is unknown otherwise. */
  lemma BoundIsExact(b: BoundClaim, role: Role, q: Predicate)
    requires IsNumber(b.value) && !b.direction.OtherDirection? && DirectionFitsRole(b.direction, role)
    requires WellFormedQuery(q) && IsComparison(q.operator)
    ensures EvaluateBound(b, role, q) == Match <==> forall x :: Allowed(b, x) ==> Satisfies(x, q)
    ensures EvaluateBound(b, role, q) == NoMatch <==> forall x :: Allowed(b, x) ==> !Satisfies(x, q)
  {
    hide Canonical, ParseDecimal, Num;
    if EvaluateBound(b, role, q) != Match { var x := BoundWitness(b, role, q, false); }
    if EvaluateBound(b, role, q) != NoMatch { var x := BoundWitness(b, role, q, true); }
    forall x | Allowed(b, x)
      ensures EvaluateBound(b, role, q) == Match ==> Satisfies(x, q)
      ensures EvaluateBound(b, role, q) == NoMatch ==> !Satisfies(x, q)
    {
      BoundSound(b, role, q, x);
    }
  }
}
