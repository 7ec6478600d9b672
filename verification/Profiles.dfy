/** Numeric profiles: what a specification's values mean, and exact unit conversion under one. */
module Profiles {
  import opened Wrappers
  import opened Decimals
  import opened Rationals
  import opened Units

  datatype Shape = Scalar | DiscreteSet | IntervalSet | ToleranceShape | BoundClaimShape | OtherShape(name: string)

  datatype Operator =
    | ContainsPoint | ContainsRange | OverlapsRange
    | Equal | Less | LessEqual | Greater | GreaterEqual | Between
    | OtherOperator(name: string)

  datatype Role =
    | OperatingSupport | Nominal | Typical | MinimumLimit | MaximumLimit | AbsoluteMaximum | ErrorMagnitude
    | OtherRole(name: string)

  const SCHEMA_VERSION := 1
  const ELECTRICAL_PARSER := "electrical-parser-1"
  const CATALOG_PARSER := "catalog-parser-2"
  const DECIMAL_DOT := "decimal-dot"

  datatype Profile = Profile(
    quantity: string,
    role: Role,
    shapes: seq<Shape>,
    operators: seq<Operator>,
    canonicalUnit: string,
    declaredInputUnit: string,
    numericFormat: string,
    schemaVersion: int,
    parserVersion: string,
    registryVersion: string)

  predicate ValidVersions(p: Profile) {
    || (p.parserVersion == ELECTRICAL_PARSER && p.registryVersion == ELECTRICAL_REGISTRY)
    || (p.parserVersion == CATALOG_PARSER && p.registryVersion == CATALOG_REGISTRY)
  }

  predicate NoDuplicates<T(==)>(s: seq<T>) { forall i, j :: 0 <= i < j < |s| ==> s[i] != s[j] }

  /** The source accepts the profile. */
  predicate ValidProfile(p: Profile) {
    && p.schemaVersion == SCHEMA_VERSION && ValidVersions(p) && p.numericFormat == DECIMAL_DOT
    && !p.role.OtherRole?
    && (p.role.ErrorMagnitude? ==> p.parserVersion == CATALOG_PARSER && p.quantity == "ratio")
    && ValidUnits(p)
    && p.shapes != [] && p.operators != []
    && (forall s :: s in p.shapes ==> RoleAllowsShape(p, s))
    && NoDuplicates(p.shapes)
    && (forall o :: o in p.operators ==> RoleAllowsOperator(p, o))
    && NoDuplicates(p.operators)
  }

  predicate RoleAllowsShape(p: Profile, s: Shape) {
    && (p.role.ErrorMagnitude? ==> s.BoundClaimShape?)
    && !(p.quantity == "count" && s.ToleranceShape?)
    && !s.OtherShape?
  }

  predicate RoleAllowsOperator(p: Profile, o: Operator) {
    && (p.role.ErrorMagnitude? ==> o.Less? || o.LessEqual?)
    && !o.OtherOperator?
  }

  predicate ValidUnits(p: Profile) {
    var unit := Registry(p.registryVersion, p.canonicalUnit);
    && unit.Some? && unit.value.exponent == 0
    && unit.value.canonical == p.canonicalUnit && unit.value.quantity == p.quantity
    && (p.declaredInputUnit != "" ==>
          var input := Registry(p.registryVersion, p.declaredInputUnit);
          input.Some? && input.value.quantity == p.quantity)
  }

  /** The checks of the source in its order, with the entries seen so far remembered. */
  method ValidateProfile(p: Profile) returns (ok: bool)
    ensures ok <==> ValidProfile(p)
  {
    hide ValidUnits, RoleAllowsShape, RoleAllowsOperator, ValidVersions;
    if p.schemaVersion != SCHEMA_VERSION || !ValidVersions(p) || p.numericFormat != DECIMAL_DOT { return false; }
    if p.role.OtherRole? { return false; }
    if p.role.ErrorMagnitude? && (p.parserVersion != CATALOG_PARSER || p.quantity != "ratio") { return false; }
    if !ValidUnits(p) || |p.shapes| == 0 || |p.operators| == 0 { return false; }
    var shapes: set<Shape> := {};
    for n := 0 to |p.shapes|
      invariant forall s :: s in shapes <==> s in p.shapes[..n]
      invariant forall k :: 0 <= k < n ==> RoleAllowsShape(p, p.shapes[k])
      invariant NoDuplicates(p.shapes[..n])
    {
      var s := p.shapes[n];
      assert p.shapes[..n + 1] == p.shapes[..n] + [s];
      if !RoleAllowsShape(p, s) { return false; }
      if s in shapes {
        var k :| 0 <= k < n && p.shapes[..n][k] == s;
        assert p.shapes[k] == p.shapes[n];
        return false;
      }
      shapes := shapes + {s};
    }
    assert p.shapes[..|p.shapes|] == p.shapes;
    var operators: set<Operator> := {};
    for n := 0 to |p.operators|
      invariant forall o :: o in operators <==> o in p.operators[..n]
      invariant forall k :: 0 <= k < n ==> RoleAllowsOperator(p, p.operators[k])
      invariant NoDuplicates(p.operators[..n])
    {
      var o := p.operators[n];
      assert p.operators[..n + 1] == p.operators[..n] + [o];
      if !RoleAllowsOperator(p, o) { return false; }
      if o in operators {
        var k :| 0 <= k < n && p.operators[..n][k] == o;
        assert p.operators[k] == p.operators[n];
        return false;
      }
      operators := operators + {o};
    }
    assert p.operators[..|p.operators|] == p.operators;
    return true;
  }

  datatype ConversionError = InvalidProfile | InvalidNumber | UnsupportedUnit | Precision

  /** The factor of a unit the profile can convert from. */
  function ProfileFactor(unit: string, p: Profile): Option<Rat> {
    var u := if unit == "" then p.declaredInputUnit else unit;
    var definition := Registry(p.registryVersion, u);
    if definition.Some? && definition.value.quantity == p.quantity && definition.value.canonical == p.canonicalUnit
    then Some(UnitFactor(u, definition.value, p.registryVersion)) else None
  }

  /** The value in canonical units, or why it has none. */
  function Convert(value: Decimal, unit: string, p: Profile): Result<Decimal, ConversionError> {
    if !ValidProfile(p) then Failure(InvalidProfile)
    else if !IsNumber(value) then Failure(InvalidNumber)
    else
      var factor := ProfileFactor(unit, p);
      if factor.None? then Failure(UnsupportedUnit)
      else
        FactorOk(unit, p);
        RatOfIsExact(value);
        RatArithmetic(RatOf(value), factor.value);
        match DecimalFromRat(RatMul(RatOf(value), factor.value))
        case Success(d) => Success(d)
        case Failure(_) => Failure(Precision)
  }

  lemma FactorOk(unit: string, p: Profile)
    requires ProfileFactor(unit, p).Some?
    ensures var f := ProfileFactor(unit, p).value; f.den > 0 && RatValue(f) > 0.0
  {
    hide Registry;
    var u := if unit == "" then p.declaredInputUnit else unit;
    FactorIsPositive(u, Registry(p.registryVersion, u).value, p.registryVersion);
  }

  /** The number of canonical units that value units are. */
  function CanonicalNumber(value: Decimal, unit: string, p: Profile): real
    requires IsNumber(value) && ProfileFactor(unit, p).Some?
  {
    FactorOk(unit, p);
    Num(value) * RatValue(ProfileFactor(unit, p).value)
  }

  /** Conversion yields exactly the product, and fails only when no decimal is the product. */
  lemma ConvertIsExact(value: Decimal, unit: string, p: Profile, result: Decimal)
    requires ValidProfile(p) && IsNumber(value) && ProfileFactor(unit, p).Some?
    ensures Convert(value, unit, p) == Success(result) <==>
      IsNumber(result) && Num(result) == CanonicalNumber(value, unit, p)
    ensures Convert(value, unit, p).Failure? ==> Convert(value, unit, p).error.Precision?
  {
    hide Canonical, ValidProfile, ProfileFactor, RatMul, RatValue, DecimalFromRat, Num, RatOf, ParseDecimal;
    FactorOk(unit, p);
    var f := ProfileFactor(unit, p).value;
    RatOfIsExact(value);
    RatArithmetic(RatOf(value), f);
    var r := RatMul(RatOf(value), f);
    if DecimalFromRat(r).Success? { FromRatSound(r); }
    if IsNumber(result) && Num(result) == RatValue(r) { FromRatComplete(r, result); }
  }

  lemma ScalingKeepsOrder(x: real, y: real, f: real)
    requires f > 0.0
    ensures x < y <==> x * f < y * f
  {
    if x < y { assert (y - x) * f > 0.0; } else if y < x { assert (x - y) * f > 0.0; }
  }

  /** Conversion keeps strict order and equality. */
  lemma ConvertIsMonotone(v: Decimal, w: Decimal, unit: string, p: Profile)
    requires Convert(v, unit, p).Success? && Convert(w, unit, p).Success?
    ensures IsNumber(v) && IsNumber(w)
    ensures IsNumber(Convert(v, unit, p).value) && IsNumber(Convert(w, unit, p).value)
    ensures Compare(Convert(v, unit, p).value, Convert(w, unit, p).value) == Compare(v, w)
  {
    hide Canonical, ValidProfile, ProfileFactor, RatMul, RatValue, DecimalFromRat, Num, RatOf, ParseDecimal, RatNeg;
    ConvertIsExact(v, unit, p, Convert(v, unit, p).value);
    ConvertIsExact(w, unit, p, Convert(w, unit, p).value);
    FactorOk(unit, p);
    var f := RatValue(ProfileFactor(unit, p).value);
    ScalingKeepsOrder(Num(v), Num(w), f);
    ScalingKeepsOrder(Num(w), Num(v), f);
  }

  lemma CanonicalNumberOfCanonicalUnit(value: Decimal, p: Profile)
    requires ValidProfile(p) && IsNumber(value)
    ensures p.canonicalUnit != "" && ProfileFactor(p.canonicalUnit, p).Some?
    ensures CanonicalNumber(value, p.canonicalUnit, p) == Num(value)
  {
    hide Canonical, ValidProfile, ProfileFactor, Num, ParseDecimal, RatValue;
    CanonicalFactor(p);
  }

  /** The canonical unit converts every number to itself. */
  lemma CanonicalUnitIsIdentity(value: Decimal, p: Profile)
    requires ValidProfile(p) && IsNumber(value)
    ensures Convert(value, p.canonicalUnit, p) == Success(value)
  {
    hide Canonical, ValidProfile, ProfileFactor, Num, ParseDecimal, CanonicalNumber, Convert;
    CanonicalNumberOfCanonicalUnit(value, p);
    ConvertIsExact(value, p.canonicalUnit, p, value);
  }

  lemma CanonicalFactor(p: Profile)
    requires ValidProfile(p)
    ensures p.canonicalUnit != "" && ProfileFactor(p.canonicalUnit, p) == Some(Rat(1, 1)) && RatValue(Rat(1, 1)) == 1.0
  {
    CanonicalNotMultiple(p.registryVersion, p.canonicalUnit);
    hide Registry, MemoryFactor;
    UnitaryFactor(p.canonicalUnit, Registry(p.registryVersion, p.canonicalUnit).value, p.registryVersion);
  }

  lemma CanonicalNotMultiple(version: string, unit: string)
    requires Registry(version, unit).Some? && Registry(version, unit).value.canonical == unit
    ensures unit != "" && MemoryFactor(unit) <= 1
  {
    if MemoryFactor(unit) > 1 { MemoryIsNotElectrical(unit); }
    EmptyUnit(version);
  }

  lemma EmptyUnit(version: string)
    ensures Registry(version, "").None?
  {
  }

  lemma MemoryIsNotElectrical(unit: string)
    requires MemoryFactor(unit) > 1
    ensures ElectricalUnit(unit).None?
  {
  }
}
