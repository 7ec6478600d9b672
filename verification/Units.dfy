/** The unit registries and their exact conversion factors. */
module Units {
  import opened Digits
  import opened Wrappers
  import opened Rationals

  const ELECTRICAL_REGISTRY := "electrical-1"
  const CATALOG_REGISTRY := "catalog-units-2"

  datatype UnitDefinition = UnitDefinition(quantity: string, canonical: string, exponent: int)

  function ElectricalUnit(unit: string): Option<UnitDefinition> {
    match unit
    case "V" => Some(UnitDefinition("voltage", "V", 0))
    case "mV" => Some(UnitDefinition("voltage", "V", -3))
    case "µV" => Some(UnitDefinition("voltage", "V", -6))
    case "uV" => Some(UnitDefinition("voltage", "V", -6))
    case "μV" => Some(UnitDefinition("voltage", "V", -6))
    case "kV" => Some(UnitDefinition("voltage", "V", 3))
    case "A" => Some(UnitDefinition("current", "A", 0))
    case "mA" => Some(UnitDefinition("current", "A", -3))
    case "µA" => Some(UnitDefinition("current", "A", -6))
    case "uA" => Some(UnitDefinition("current", "A", -6))
    case "μA" => Some(UnitDefinition("current", "A", -6))
    case "F" => Some(UnitDefinition("capacitance", "F", 0))
    case "mF" => Some(UnitDefinition("capacitance", "F", -3))
    case "µF" => Some(UnitDefinition("capacitance", "F", -6))
    case "uF" => Some(UnitDefinition("capacitance", "F", -6))
    case "μF" => Some(UnitDefinition("capacitance", "F", -6))
    case "nF" => Some(UnitDefinition("capacitance", "F", -9))
    case "pF" => Some(UnitDefinition("capacitance", "F", -12))
    case "Ω" => Some(UnitDefinition("resistance", "Ω", 0))
    case "Ohm" => Some(UnitDefinition("resistance", "Ω", 0))
    case "mΩ" => Some(UnitDefinition("resistance", "Ω", -3))
    case "mOhm" => Some(UnitDefinition("resistance", "Ω", -3))
    case "kΩ" => Some(UnitDefinition("resistance", "Ω", 3))
    case "kOhm" => Some(UnitDefinition("resistance", "Ω", 3))
    case "MΩ" => Some(UnitDefinition("resistance", "Ω", 6))
    case "MOhm" => Some(UnitDefinition("resistance", "Ω", 6))
    case "Hz" => Some(UnitDefinition("frequency", "Hz", 0))
    case "kHz" => Some(UnitDefinition("frequency", "Hz", 3))
    case "MHz" => Some(UnitDefinition("frequency", "Hz", 6))
    case "GHz" => Some(UnitDefinition("frequency", "Hz", 9))
    case _ => None
  }

  /** Bits per memory unit. */
  function MemoryFactor(unit: string): (f: nat)
  {
    match unit
    case "bit" => 1
    case "B" => 8
    case "byte" => 8
    case "kbit" => 1000
    case "Mbit" => 1000000
    case "Gbit" => 1000000000
    case "kB" => 8000
    case "MB" => 8000000
    case "GB" => 8000000000
    case "Kibit" => 1024
    case "Mibit" => 1048576
    case "Gibit" => 1073741824
    case "KiB" => 8192
    case "MiB" => 8388608
    case "GiB" => 8589934592
    case _ => 0
  }

  function CatalogUnit(unit: string): Option<UnitDefinition> {
    if MemoryFactor(unit) != 0 then Some(UnitDefinition("memory", "bit", 0))
    else match unit
      case "%" => Some(UnitDefinition("ratio", "%", 0))
      case "dB" => Some(UnitDefinition("log_gain", "dB", 0))
      case "W" => Some(UnitDefinition("power", "W", 0))
      case "m" => Some(UnitDefinition("length", "m", 0))
      case "H" => Some(UnitDefinition("inductance", "H", 0))
      case "cd" => Some(UnitDefinition("luminous_intensity", "cd", 0))
      case "1" => Some(UnitDefinition("count", "1", 0))
      case "mW" => Some(UnitDefinition("power", "W", -3))
      case "kW" => Some(UnitDefinition("power", "W", 3))
      case "mm" => Some(UnitDefinition("length", "m", -3))
      case "µm" => Some(UnitDefinition("length", "m", -6))
      case "um" => Some(UnitDefinition("length", "m", -6))
      case "μm" => Some(UnitDefinition("length", "m", -6))
      case "nm" => Some(UnitDefinition("length", "m", -9))
      case "cm" => Some(UnitDefinition("length", "m", -2))
      case "mH" => Some(UnitDefinition("inductance", "H", -3))
      case "µH" => Some(UnitDefinition("inductance", "H", -6))
      case "uH" => Some(UnitDefinition("inductance", "H", -6))
      case "μH" => Some(UnitDefinition("inductance", "H", -6))
      case "nH" => Some(UnitDefinition("inductance", "H", -9))
      case "mcd" => Some(UnitDefinition("luminous_intensity", "cd", -3))
      case "count" => Some(UnitDefinition("count", "1", 0))
      case _ => ElectricalUnit(unit)
  }

  function Registry(version: string, unit: string): Option<UnitDefinition> {
    if version == ELECTRICAL_REGISTRY then ElectricalUnit(unit)
    else if version == CATALOG_REGISTRY then CatalogUnit(unit)
    else None
  }

  /** How many canonical units one of this unit is. */
  function UnitFactor(unit: string, definition: UnitDefinition, version: string): Rat {
    if version == CATALOG_REGISTRY && MemoryFactor(unit) != 0 then Rat(MemoryFactor(unit), 1)
    else if definition.exponent < 0 then Rat(1, Shift(1, -definition.exponent))
    else Rat(Shift(1, definition.exponent), 1)
  }

  lemma FactorIsPositive(unit: string, definition: UnitDefinition, version: string)
    ensures var f := UnitFactor(unit, definition, version); f.num > 0 && f.den > 0 && RatValue(f) > 0.0
  {
    hide MemoryFactor;
    var e := definition.exponent;
    ShiftGrows(0, if e < 0 then -e else e);
    var f := UnitFactor(unit, definition, version);
    PositiveRatio(f.num, f.den);
  }

  lemma PositiveRatio(a: int, b: int)
    requires a > 0 && b > 0
    ensures a as real / b as real > 0.0
  {
    var q := a as real / b as real;
    assert q * b as real == a as real;
    PositiveQuotient(q, b as real);
  }

  lemma PositiveQuotient(q: real, b: real)
    requires b > 0.0 && q * b > 0.0
    ensures q > 0.0
  {
  }

  /** A unit with exponent zero outside the memory table converts by one; so does the bit. */
  lemma UnitaryFactor(unit: string, definition: UnitDefinition, version: string)
    requires definition.exponent == 0 && MemoryFactor(unit) <= 1
    ensures UnitFactor(unit, definition, version) == Rat(1, 1) && RatValue(Rat(1, 1)) == 1.0
  {
  }

  // ---- the factors on the real line

  /** Outside the memory table a factor is a power of ten; inside it, a number of bits. */
  lemma FactorIsPower(unit: string, definition: UnitDefinition, version: string)
    ensures UnitFactor(unit, definition, version).den > 0
    ensures version != CATALOG_REGISTRY || MemoryFactor(unit) == 0 ==>
      RatValue(UnitFactor(unit, definition, version)) == Scale(1.0, definition.exponent)
    ensures version == CATALOG_REGISTRY && MemoryFactor(unit) != 0 ==>
      RatValue(UnitFactor(unit, definition, version)) == MemoryFactor(unit) as real
  {
    hide MemoryFactor;
    var e := definition.exponent;
    if version == CATALOG_REGISTRY && MemoryFactor(unit) != 0 {
      assert (MemoryFactor(unit) as real) / (1 as real) == MemoryFactor(unit) as real;
    } else if e < 0 {
      ShiftGrows(0, -e);
      ScaleOfReciprocal(-e);
    } else {
      ShiftGrows(0, e);
      ScaleShift(1, e);
    }
  }

  lemma {:induction false} ScaleOfReciprocal(k: nat)
    requires Shift(1, k) > 0
    ensures 1 as real / Shift(1, k) as real == Scale(1.0, 0 - k)
  {
    if k == 0 {
    } else {
      ShiftGrows(0, k - 1);
      ScaleOfReciprocal(k - 1);
      TenthOfReciprocal(Shift(1, k - 1));
    }
  }

  lemma TenthOfReciprocal(n: int)
    requires n > 0
    ensures 1 as real / (10 * n) as real == (1 as real / n as real) / 10.0
  {
    var q := 1 as real / n as real;
    assert q * n as real == 1.0;
    assert (q / 10.0) * (10 * n) as real == 1.0;
  }
}
