/** What the unit tables mean: how units relate by prefixes, names and bits, and that conversion
    follows those relations. */
module UnitLaws {
  import opened Wrappers
  import opened Digits
  import opened Decimals
  import opened Rationals
  import opened Units
  import opened Profiles

  // ---- which units there are

  const ELECTRICAL_UNITS: set<string> := {
    "V", "mV", "µV", "uV", "μV", "kV", "A", "mA", "µA", "uA", "μA", "F", "mF", "µF", "uF", "μF", "nF", "pF",
    "Ω", "Ohm", "mΩ", "mOhm", "kΩ", "kOhm", "MΩ", "MOhm", "Hz", "kHz", "MHz", "GHz"
  }

  const MEMORY_UNITS: set<string> := {
    "bit", "B", "byte", "kbit", "Mbit", "Gbit", "kB", "MB", "GB", "Kibit", "Mibit", "Gibit", "KiB", "MiB", "GiB"
  }

  const OTHER_UNITS: set<string> := {
    "%", "dB", "W", "m", "H", "cd", "1", "mW", "kW", "mm", "µm", "um", "μm", "nm", "cm",
    "mH", "µH", "uH", "μH", "nH", "mcd", "count"
  }

  lemma RegisteredUnits(version: string, unit: string)
    ensures Registry(version, unit).Some? <==>
      || (version == ELECTRICAL_REGISTRY && unit in ELECTRICAL_UNITS)
      || (version == CATALOG_REGISTRY && (unit in ELECTRICAL_UNITS || unit in MEMORY_UNITS || unit in OTHER_UNITS))
  {
  }

  /** The quantity each canonical unit measures. */
  const BASES: map<string, string> := map[
    "V" := "voltage", "A" := "current", "F" := "capacitance", "Ω" := "resistance", "Hz" := "frequency",
    "%" := "ratio", "dB" := "log_gain", "bit" := "memory", "W" := "power", "m" := "length", "H" := "inductance",
    "cd" := "luminous_intensity", "1" := "count"
  ]

  ghost predicate MeasuresAsCanonical(unit: string, d: UnitDefinition) {
    && d.canonical in BASES && d.quantity == BASES[d.canonical]
    && (unit in BASES ==> d.canonical == unit && d.exponent == 0)
  }

  lemma ElectricalMeasures(unit: string)
    ensures ElectricalUnit(unit).Some? ==> MeasuresAsCanonical(unit, ElectricalUnit(unit).value)
  {
  }

  lemma CatalogMeasures(unit: string)
    ensures CatalogUnit(unit).Some? ==> MeasuresAsCanonical(unit, CatalogUnit(unit).value)
  {
    ElectricalMeasures(unit);
    MemoryUnits(unit);
    hide ElectricalUnit, MemoryFactor;
  }

  lemma MemoryUnits(unit: string)
    ensures MemoryFactor(unit) != 0 <==> unit in MEMORY_UNITS
  {
  }

  /** Every unit measures what its canonical unit measures. */
  lemma CanonicalUnits(version: string, unit: string)
    requires Registry(version, unit).Some?
    ensures MeasuresAsCanonical(unit, Registry(version, unit).value)
  {
    ElectricalMeasures(unit);
    CatalogMeasures(unit);
    hide ElectricalUnit, CatalogUnit, MeasuresAsCanonical;
  }

  // ---- prefixes

  function PrefixPower(c: char): Option<int> {
    match c
    case 'p' => Some(-12)
    case 'n' => Some(-9)
    case 'u' => Some(-6)
    case 'µ' => Some(-6)
    case 'μ' => Some(-6)
    case 'm' => Some(-3)
    case 'c' => Some(-2)
    case 'k' => Some(3)
    case 'M' => Some(6)
    case 'G' => Some(9)
    case _ => None
  }

  /** A prefix before another registered unit. */
  predicate Prefixed(version: string, unit: string) {
    && |unit| > 1 && PrefixPower(unit[0]).Some?
    && Registry(version, unit).Some? && Registry(version, unit[1..]).Some?
  }

  lemma ElectricalPrefix(unit: string)
    requires |unit| > 1 && PrefixPower(unit[0]).Some? && ElectricalUnit(unit).Some? && ElectricalUnit(unit[1..]).Some?
    ensures ElectricalUnit(unit).value.canonical == ElectricalUnit(unit[1..]).value.canonical
    ensures ElectricalUnit(unit).value.exponent == ElectricalUnit(unit[1..]).value.exponent + PrefixPower(unit[0]).value
  {
  }

  lemma MemoryPrefix(unit: string)
    requires |unit| > 1 && PrefixPower(unit[0]).Some? && MemoryFactor(unit) != 0 && MemoryFactor(unit[1..]) != 0
    ensures PrefixPower(unit[0]).value == 3 ==> MemoryFactor(unit) == 1000 * MemoryFactor(unit[1..])
    ensures PrefixPower(unit[0]).value == 6 ==> MemoryFactor(unit) == 1000000 * MemoryFactor(unit[1..])
    ensures PrefixPower(unit[0]).value == 9 ==> MemoryFactor(unit) == 1000000000 * MemoryFactor(unit[1..])
    ensures PrefixPower(unit[0]).value in {3, 6, 9}
  {
  }

  /** The units of the catalogue that are neither electrical nor of memory. */
  lemma OtherPrefix(unit: string)
    requires |unit| > 1 && PrefixPower(unit[0]).Some? && unit in OTHER_UNITS && CatalogUnit(unit[1..]).Some?
    ensures CatalogUnit(unit).Some? && CatalogUnit(unit).value.canonical == CatalogUnit(unit[1..]).value.canonical
    ensures CatalogUnit(unit).value.exponent == CatalogUnit(unit[1..]).value.exponent + PrefixPower(unit[0]).value
  {
  }

  /** So many units of a worth. */
  function Amount(x: real, worth: real): real { x * worth }

  /** What one unit is of its canonical unit, on the real line. */
  function Worth(version: string, unit: string): real
    requires Registry(version, unit).Some?
  {
    FactorIsPower(unit, Registry(version, unit).value, version);
    RatValue(UnitFactor(unit, Registry(version, unit).value, version))
  }

  lemma WorthIs(version: string, unit: string)
    requires Registry(version, unit).Some?
    ensures version == CATALOG_REGISTRY && MemoryFactor(unit) != 0 ==>
      Worth(version, unit) == MemoryFactor(unit) as real
    ensures version != CATALOG_REGISTRY || MemoryFactor(unit) == 0 ==>
      Worth(version, unit) == Scale(1.0, Registry(version, unit).value.exponent)
  {
    hide Registry, MemoryFactor;
    FactorIsPower(unit, Registry(version, unit).value, version);
  }

  /** Both measure the same quantity against the same canonical unit. */
  predicate SameMeasure(version: string, a: string, b: string) {
    && Registry(version, a).Some? && Registry(version, b).Some?
    && Registry(version, a).value.quantity == Registry(version, b).value.quantity
    && Registry(version, a).value.canonical == Registry(version, b).value.canonical
  }

  lemma MemoryPrefixStays(unit: string)
    requires |unit| > 1 && PrefixPower(unit[0]).Some? && unit in MEMORY_UNITS
    ensures unit[1..] !in ELECTRICAL_UNITS && unit[1..] !in OTHER_UNITS
  {
  }

  lemma ElectricalPrefixStays(unit: string)
    requires |unit| > 1 && PrefixPower(unit[0]).Some? && unit in ELECTRICAL_UNITS
    ensures unit[1..] !in MEMORY_UNITS && unit[1..] !in OTHER_UNITS
  {
  }

  lemma OtherPrefixStays(unit: string)
    requires |unit| > 1 && PrefixPower(unit[0]).Some? && unit in OTHER_UNITS
    ensures unit[1..] !in MEMORY_UNITS
  {
  }

  lemma UnitGroups(unit: string)
    ensures ElectricalUnit(unit).Some? <==> unit in ELECTRICAL_UNITS
    ensures MemoryFactor(unit) != 0 <==> unit in MEMORY_UNITS
    ensures CatalogUnit(unit).Some? <==> unit in ELECTRICAL_UNITS || unit in MEMORY_UNITS || unit in OTHER_UNITS
    ensures unit in MEMORY_UNITS ==> CatalogUnit(unit) == Some(UnitDefinition("memory", "bit", 0))
  {
    RegisteredUnits(ELECTRICAL_REGISTRY, unit);
    RegisteredUnits(CATALOG_REGISTRY, unit);
    MemoryUnits(unit);
    hide ElectricalUnit, MemoryFactor;
  }

  lemma ElectricalInCatalog(unit: string)
    requires unit in ELECTRICAL_UNITS
    ensures unit !in MEMORY_UNITS && CatalogUnit(unit) == ElectricalUnit(unit)
  {
  }

  /** A prefix keeps what is measured and multiplies what a unit is worth by its power of ten. */
  lemma PrefixedWorth(version: string, unit: string)
    requires Prefixed(version, unit)
    ensures SameMeasure(version, unit, unit[1..])
    ensures Worth(version, unit) == Scale(Worth(version, unit[1..]), PrefixPower(unit[0]).value)
  {
    var base, k := unit[1..], PrefixPower(unit[0]).value;
    UnitGroups(unit);
    UnitGroups(base);
    WorthIs(version, unit);
    WorthIs(version, base);
    CanonicalUnits(version, unit);
    CanonicalUnits(version, base);
    hide ElectricalUnit, CatalogUnit, MemoryFactor, Worth, PrefixPower;
    if version == ELECTRICAL_REGISTRY {
      ElectricalPrefix(unit);
      ScaleAdd(1.0, ElectricalUnit(base).value.exponent, k);
    } else if unit in MEMORY_UNITS {
      MemoryPrefixStays(unit);
      MemoryPrefix(unit);
      ScaledCount(MemoryFactor(base), k);
    } else if unit in OTHER_UNITS {
      OtherPrefixStays(unit);
      OtherPrefix(unit);
      ScaleAdd(1.0, CatalogUnit(base).value.exponent, k);
    } else {
      ElectricalPrefixStays(unit);
      ElectricalInCatalog(unit);
      ElectricalInCatalog(base);
      ElectricalPrefix(unit);
      ScaleAdd(1.0, ElectricalUnit(base).value.exponent, k);
    }
  }

  lemma ScaledCount(n: nat, k: int)
    requires k in {3, 6, 9}
    ensures k == 3 ==> (1000 * n) as real == Scale(n as real, k)
    ensures k == 6 ==> (1000000 * n) as real == Scale(n as real, k)
    ensures k == 9 ==> (1000000000 * n) as real == Scale(n as real, k)
  {
    ScaleShift(n, k);
    ShiftByThrees(n);
  }

  lemma ShiftByThrees(n: int)
    ensures Shift(n, 3) == 1000 * n && Shift(n, 6) == 1000000 * n && Shift(n, 9) == 1000000000 * n
  {
    assert Shift(n, 1) == 10 * n;
    assert Shift(n, 2) == 100 * n;
    assert Shift(n, 3) == 1000 * n;
    assert Shift(n, 4) == 10000 * n;
    assert Shift(n, 5) == 100000 * n;
    assert Shift(n, 6) == 1000000 * n;
    assert Shift(n, 7) == 10000000 * n;
    assert Shift(n, 8) == 100000000 * n;
  }

  // ---- other names, bytes and binary prefixes

  /** Two spellings of one unit. */
  predicate Alias(a: string, b: string) {
    (a == "Ohm" && b == "Ω") || (a == "byte" && b == "B") || (a == "count" && b == "1")
  }

  lemma AliasEntries(version: string, a: string, b: string)
    requires Alias(a, b)
    ensures Registry(version, a) == Registry(version, b) && MemoryFactor(a) == MemoryFactor(b)
  {
  }

  lemma AliasWorth(version: string, a: string, b: string)
    requires Alias(a, b) && Registry(version, a).Some?
    ensures SameMeasure(version, a, b) && Worth(version, a) == Worth(version, b)
  {
    AliasEntries(version, a, b);
    WorthIs(version, a);
    WorthIs(version, b);
    hide Worth, Registry, MemoryFactor;
  }

  function BinaryMultiple(prefix: char): Option<nat> {
    match prefix
    case 'K' => Some(1024)
    case 'M' => Some(1024 * 1024)
    case 'G' => Some(1024 * 1024 * 1024)
    case _ => None
  }

  /** A letter and an i before a bit or a byte. */
  predicate BinaryPrefixed(unit: string) {
    |unit| > 2 && BinaryMultiple(unit[0]).Some? && unit[1] == 'i' && (unit[2..] == "bit" || unit[2..] == "B")
  }

  lemma MemoryWorth(unit: string)
    ensures Registry(CATALOG_REGISTRY, "bit").Some? && Registry(CATALOG_REGISTRY, "B").Some?
    ensures Worth(CATALOG_REGISTRY, "bit") == 1.0 && Worth(CATALOG_REGISTRY, "B") == 8.0
    ensures SameMeasure(CATALOG_REGISTRY, "B", "bit")
    ensures BinaryPrefixed(unit) && Registry(CATALOG_REGISTRY, unit).Some? ==>
      && SameMeasure(CATALOG_REGISTRY, unit, unit[2..])
      && Worth(CATALOG_REGISTRY, unit) ==
           Amount(BinaryMultiple(unit[0]).value as real, Worth(CATALOG_REGISTRY, unit[2..]))
  {
    WorthIs(CATALOG_REGISTRY, "bit");
    WorthIs(CATALOG_REGISTRY, "B");
    hide Worth;
    if BinaryPrefixed(unit) && Registry(CATALOG_REGISTRY, unit).Some? {
      BinaryUnits(unit);
      WorthIs(CATALOG_REGISTRY, unit);
    }
  }

  lemma BinaryUnits(unit: string)
    requires BinaryPrefixed(unit) && Registry(CATALOG_REGISTRY, unit).Some?
    ensures MemoryFactor(unit) == BinaryMultiple(unit[0]).value * MemoryFactor(unit[2..])
    ensures MemoryFactor(unit) != 0 && MemoryFactor(unit[2..]) != 0
  {
  }

  lemma Tails(unit: string)
    ensures unit in {"mV", "µV", "uV", "μV", "kV"} ==> unit[1..] == "V"
    ensures unit in {"mA", "µA", "uA", "μA"} ==> unit[1..] == "A"
    ensures unit in {"mF", "µF", "uF", "μF", "nF", "pF"} ==> unit[1..] == "F"
    ensures unit in {"mΩ", "kΩ", "MΩ"} ==> unit[1..] == "Ω"
    ensures unit in {"mOhm", "kOhm", "MOhm"} ==> unit[1..] == "Ohm"
    ensures unit in {"kHz", "MHz", "GHz"} ==> unit[1..] == "Hz"
    ensures unit in {"kbit", "Mbit", "Gbit"} ==> unit[1..] == "bit"
    ensures unit in {"kB", "MB", "GB"} ==> unit[1..] == "B"
    ensures unit in {"Kibit", "Mibit", "Gibit"} ==> unit[2..] == "bit"
    ensures unit in {"KiB", "MiB", "GiB"} ==> unit[2..] == "B"
    ensures unit in {"mW", "kW"} ==> unit[1..] == "W"
    ensures unit in {"mm", "µm", "um", "μm", "nm", "cm"} ==> unit[1..] == "m"
    ensures unit in {"mH", "µH", "uH", "μH", "nH"} ==> unit[1..] == "H"
    ensures unit == "mcd" ==> unit[1..] == "cd"
  {
  }

  lemma ElectricalTails(unit: string)
    requires unit in ELECTRICAL_UNITS
    ensures unit in BASES || unit == "Ohm"
      || (|unit| > 1 && PrefixPower(unit[0]).Some? && unit[1..] in ELECTRICAL_UNITS)
  {
    Tails(unit);
  }

  lemma CatalogTails(unit: string)
    requires unit in MEMORY_UNITS || unit in OTHER_UNITS
    ensures unit in BASES || unit in {"byte", "count", "B"} || BinaryPrefixed(unit)
            || (|unit| > 1 && PrefixPower(unit[0]).Some? && (unit[1..] in MEMORY_UNITS || unit[1..] in OTHER_UNITS))
  {
    Tails(unit);
  }

  /** Nothing else is registered: every unit is canonical, prefixed, another name, or a byte or a
      binary multiple. So these laws say what every unit is worth. */
  lemma EveryUnitIsExplained(version: string, unit: string)
    requires Registry(version, unit).Some?
    ensures unit in BASES || Prefixed(version, unit) || Alias(unit, "Ω") || Alias(unit, "B") || Alias(unit, "1")
            || unit == "B" || BinaryPrefixed(unit)
  {
    RegisteredUnits(version, unit);
    if unit in ELECTRICAL_UNITS { ElectricalTails(unit); } else { CatalogTails(unit); }
    if unit != "" { RegisteredUnits(version, unit[1..]); }
    hide Registry, PrefixPower, BinaryPrefixed;
  }

  lemma BaseWorth(version: string, unit: string)
    requires Registry(version, unit).Some? && unit in BASES
    ensures Registry(version, unit).value.canonical == unit && Worth(version, unit) == 1.0
  {
    CanonicalUnits(version, unit);
    WorthIs(version, unit);
    BitIsOne(unit);
    hide Worth, Registry, MemoryFactor;
  }

  lemma BitIsOne(unit: string)
    requires unit in BASES
    ensures MemoryFactor(unit) != 0 ==> MemoryFactor(unit) == 1
  {
  }

  // ---- conversion

  /** Amounts worth the same convert to the same decimal, or neither to any. */
  lemma SameAmountConvertsAlike(v: Decimal, a: string, w: Decimal, b: string, p: Profile)
    requires ValidProfile(p) && IsNumber(v) && IsNumber(w) && a != "" && b != ""
    requires SameMeasure(p.registryVersion, a, b)
    requires Amount(Num(v), Worth(p.registryVersion, a)) == Amount(Num(w), Worth(p.registryVersion, b))
    ensures Convert(v, a, p) == Convert(w, b, p)
  {
    SupportedByMeasure(a, p);
    SupportedByMeasure(b, p);
    if ProfileFactor(a, p).Some? {
      AmountIsCanonical(v, a, p);
      AmountIsCanonical(w, b, p);
      assert CanonicalNumber(v, a, p) == CanonicalNumber(w, b, p);
      hide ValidProfile, ProfileFactor, Num, Canonical, Worth, CanonicalNumber, Registry, Convert;
      if Convert(v, a, p).Success? {
        var d := Convert(v, a, p).value;
        ConvertIsExact(v, a, p, d);
        ConvertIsExact(w, b, p, d);
      } else if Convert(w, b, p).Success? {
        var d := Convert(w, b, p).value;
        ConvertIsExact(v, a, p, d);
        ConvertIsExact(w, b, p, d);
      } else {
        ConvertIsExact(v, a, p, v);
        ConvertIsExact(w, b, p, w);
      }
    } else {
      Unsupported(v, a, p);
      Unsupported(w, b, p);
    }
  }

  lemma Unsupported(v: Decimal, unit: string, p: Profile)
    requires ValidProfile(p) && IsNumber(v) && ProfileFactor(unit, p).None?
    ensures Convert(v, unit, p) == Failure(UnsupportedUnit)
  {
    hide ValidProfile, ProfileFactor, Canonical;
  }

  /** The unit, or the declared one without a unit, is registered with the profile's canonical unit. */
  predicate Supported(unit: string, p: Profile) {
    var u := if unit == "" then p.declaredInputUnit else unit;
    Registry(p.registryVersion, u).Some? && Registry(p.registryVersion, u).value.canonical == p.canonicalUnit
  }

  lemma SupportedByMeasure(unit: string, p: Profile)
    requires ValidProfile(p)
    ensures ProfileFactor(unit, p).Some? <==> Supported(unit, p)
  {
    var u := if unit == "" then p.declaredInputUnit else unit;
    CanonicalFits(p);
    if Registry(p.registryVersion, u).Some? { CanonicalUnits(p.registryVersion, u); }
    CanonicalUnits(p.registryVersion, p.canonicalUnit);
    hide Registry, ValidProfile;
  }

  lemma CanonicalFits(p: Profile)
    requires ValidProfile(p)
    ensures Registry(p.registryVersion, p.canonicalUnit).Some?
    ensures Registry(p.registryVersion, p.canonicalUnit).value.canonical == p.canonicalUnit
    ensures Registry(p.registryVersion, p.canonicalUnit).value.quantity == p.quantity
  {
    hide Registry;
  }

  lemma AmountIsCanonical(v: Decimal, unit: string, p: Profile)
    requires IsNumber(v) && unit != "" && ProfileFactor(unit, p).Some?
    ensures Registry(p.registryVersion, unit).Some?
    ensures CanonicalNumber(v, unit, p) == Amount(Num(v), Worth(p.registryVersion, unit))
  {
    hide Registry, Num, Canonical, RatValue, UnitFactor;
  }

  /** Conversion refuses a unit exactly when it is not registered for the profile's canonical unit. */
  lemma ConvertRefusesExactly(v: Decimal, unit: string, p: Profile)
    requires ValidProfile(p) && IsNumber(v)
    ensures Convert(v, unit, p) == Failure(UnsupportedUnit) <==> !Supported(unit, p)
  {
    SupportedByMeasure(unit, p);
    hide ValidProfile, ProfileFactor, Canonical, Supported, Convert, Num;
    if ProfileFactor(unit, p).None? { Unsupported(v, unit, p); } else { ConvertIsExact(v, unit, p, v); }
  }

  /** A number without a unit is in the declared one. */
  lemma ConvertWithoutUnit(v: Decimal, p: Profile)
    ensures Convert(v, "", p) == Convert(v, p.declaredInputUnit, p)
  {
    hide ValidProfile, Registry, Canonical, UnitFactor, RatMul, RatOf, DecimalFromRat;
  }

  /** 1000 of a milli unit are one of its unit, and so for every prefix: so many of the prefixed unit
      convert to what that many times the power of ten of the plain unit do. */
  lemma ConvertPrefixed(v: Decimal, w: Decimal, unit: string, p: Profile)
    requires ValidProfile(p) && IsNumber(v) && IsNumber(w) && Prefixed(p.registryVersion, unit)
    requires Num(w) == Scale(Num(v), PrefixPower(unit[0]).value)
    ensures Convert(v, unit, p) == Convert(w, unit[1..], p)
  {
    PrefixedWorth(p.registryVersion, unit);
    hide ValidProfile, Registry, Num, Canonical, Worth, PrefixPower;
    hide Amount;
    PrefixedAmount(Num(v), Worth(p.registryVersion, unit[1..]), PrefixPower(unit[0]).value);
    SameAmountConvertsAlike(v, unit, w, unit[1..], p);
  }

  lemma {:induction false} ScaleOfProduct(x: real, y: real, k: int)
    ensures Scale(x * y, k) == x * Scale(y, k)
    decreases if k < 0 then -k else k
  {
    if k == 0 {
    } else if k > 0 {
      ScaleOfProduct(x, y, k - 1);
      TenTimesProduct(x, Scale(y, k - 1));
    } else {
      ScaleOfProduct(x, y, k + 1);
      TenthOfProduct(x, Scale(y, k + 1));
    }
  }

  lemma TenTimesProduct(x: real, z: real)
    ensures 10.0 * (x * z) == x * (10.0 * z)
  {
  }

  lemma TenthOfProduct(x: real, z: real)
    ensures (x * z) / 10.0 == x * (z / 10.0)
  {
  }

  lemma PrefixedAmount(x: real, y: real, k: int)
    ensures Amount(x, Scale(y, k)) == Amount(Scale(x, k), y)
  {
    ScaleOfProduct(x, y, k);
    ScaleOfProduct(y, x, k);
    hide Scale;
    assert x * y == y * x;
  }

  /** Two names of one unit convert alike. */
  lemma ConvertAlias(v: Decimal, a: string, b: string, p: Profile)
    requires ValidProfile(p) && IsNumber(v) && Alias(a, b) && Registry(p.registryVersion, a).Some?
    ensures Convert(v, a, p) == Convert(v, b, p)
  {
    AliasWorth(p.registryVersion, a, b);
    hide ValidProfile, Registry, Num, Canonical, Worth;
    SameAmountConvertsAlike(v, a, v, b, p);
  }

  /** Eight bits are a byte. */
  lemma ConvertBytes(v: Decimal, w: Decimal, p: Profile)
    requires ValidProfile(p) && IsNumber(v) && IsNumber(w) && p.registryVersion == CATALOG_REGISTRY
    requires Num(w) == 8.0 * Num(v)
    ensures Convert(v, "B", p) == Convert(w, "bit", p)
  {
    MemoryWorth("B");
    hide ValidProfile, Registry, Num, Canonical, Worth;
    SameAmountConvertsAlike(v, "B", w, "bit", p);
  }

  /** A kibibyte is 1024 bytes, and so on. */
  lemma ConvertBinary(v: Decimal, w: Decimal, unit: string, p: Profile)
    requires ValidProfile(p) && IsNumber(v) && IsNumber(w) && p.registryVersion == CATALOG_REGISTRY
    requires BinaryPrefixed(unit) && Registry(CATALOG_REGISTRY, unit).Some?
    requires Num(w) == Amount(Num(v), BinaryMultiple(unit[0]).value as real)
    ensures Convert(v, unit, p) == Convert(w, unit[2..], p)
  {
    MemoryWorth(unit);
    hide ValidProfile, Registry, Num, Canonical, Worth, BinaryMultiple, Amount;
    MultipleAmount(Num(v), BinaryMultiple(unit[0]).value as real, Worth(CATALOG_REGISTRY, unit[2..]));
    SameAmountConvertsAlike(v, unit, w, unit[2..], p);
  }

  lemma MultipleAmount(x: real, n: real, y: real)
    ensures Amount(x, Amount(n, y)) == Amount(Amount(x, n), y)
  {
  }
}
