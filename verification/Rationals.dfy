/** Exact rationals in lowest terms, and turning those with a terminating expansion back into
    decimals without rounding. */
module Rationals {
  import opened Digits
  import opened Wrappers
  import opened Decimals
  import opened DecimalKeys

  function Times(q: int, g: int): int { q * g }

  ghost predicate Divides(g: int, n: int) { exists q :: Times(q, g) == n }

  datatype Rat = Rat(num: int, den: int)
  {
    /** The invariant of the source's rationals. */
    ghost predicate Lowest() {
      den > 0 && forall g :: g > 1 && Divides(g, num) ==> !Divides(g, den)
    }
  }

  function RatValue(r: Rat): real
    requires r.den > 0
  {
    r.num as real / r.den as real
  }

  function Gcd(a: nat, b: nat): nat
    decreases b
  {
    if b == 0 then a else Gcd(b, a % b)
  }

  function AbsInt(n: int): nat { if n < 0 then -n else n }

  /** n/d in lowest terms. */
  function MakeRat(n: int, d: int): (r: Rat)
    requires d > 0
  {
    GcdDivides(d, AbsInt(n));
    var g := Gcd(d, AbsInt(n));
    Rat(n / g, d / g)
  }

  lemma Associate(a: int, b: int, c: int)
    ensures Times(Times(a, b), c) == Times(a, Times(b, c))
  {
  }

  lemma LinearCombination(q: int, k: int, r: int, g: int)
    ensures Times(q * k + r, g) == Times(q, g) * k + Times(r, g)
  {
  }

  lemma DivExact(g: int, n: int)
    requires g > 0 && Divides(g, n)
    ensures Times(n / g, g) == n && n % g == 0
  {
    var q :| Times(q, g) == n;
    QuotientIs(n, g, q);
  }

  lemma QuotientIs(n: int, g: int, q: int)
    requires g > 0 && n == Times(q, g)
    ensures n / g == q && n % g == 0
  {
    var d, r := n / g, n % g;
    assert n == g * d + r;
    assert (q - d) * g == r;
    if q - d >= 1 { SmallMultiple(q - d, g); } else if q - d <= -1 { SmallMultiple(d - q, g); }
  }

  lemma PositiveFactor(k: int, g: int)
    requires g > 0 && Times(k, g) > 0
    ensures k > 0
  {
  }

  lemma SmallMultiple(k: int, g: int)
    requires k >= 1 && g > 0
    ensures k * g >= g
  {
  }

  lemma ModIsDivides(g: int, n: int)
    requires g > 0
    ensures n % g == 0 <==> Divides(g, n)
  {
    if n % g == 0 { assert Times(n / g, g) == n; } else if Divides(g, n) { DivExact(g, n); }
  }

  lemma {:induction false} GcdDivides(a: nat, b: nat)
    requires a > 0
    ensures Gcd(a, b) > 0 && Divides(Gcd(a, b), a) && Divides(Gcd(a, b), b)
    decreases b
  {
    if b == 0 {
      assert Times(1, a) == a && Times(0, a) == 0;
    } else {
      GcdDivides(b, a % b);
      var g := Gcd(b, a % b);
      var q :| Times(q, g) == b;
      var r :| Times(r, g) == a % b;
      LinearCombination(q, a / b, r, g);
      assert Times(q * (a / b) + r, g) == a;
    }
  }

  lemma {:induction false} GcdIsGreatest(a: nat, b: nat, c: int)
    requires a > 0 && Divides(c, a) && Divides(c, b)
    ensures Divides(c, Gcd(a, b))
    decreases b
  {
    if b == 0 {
    } else {
      var q :| Times(q, c) == b;
      var r :| Times(r, c) == a;
      LinearCombination(q, -(a / b), r, c);
      assert Times(q * -(a / b) + r, c) == a % b;
      GcdIsGreatest(b, a % b, c);
    }
  }

  lemma DividesNegation(g: int, n: int)
    requires Divides(g, n)
    ensures Divides(g, -n)
  {
    var q :| Times(q, g) == n;
    assert Times(-q, g) == -n;
  }

  lemma DividesAbs(g: int, n: int)
    ensures Divides(g, n) <==> Divides(g, AbsInt(n))
  {
    if Divides(g, n) { DividesNegation(g, n); }
    if Divides(g, AbsInt(n)) { DividesNegation(g, AbsInt(n)); }
  }

  lemma MakeRatMeaning(n: int, d: int)
    requires d > 0
    ensures var r := MakeRat(n, d); r.Lowest() && RatValue(r) == n as real / d as real
  {
    var m := AbsInt(n);
    GcdDivides(d, m);
    var g := Gcd(d, m);
    var r := MakeRat(n, d);
    DividesAbs(g, n);
    DivExact(g, n);
    DivExact(g, d);
    PositiveFactor(r.den, g);
    forall h | h > 1 && Divides(h, r.num) && Divides(h, r.den)
      ensures false
    {
      var x :| Times(x, h) == r.num;
      var y :| Times(y, h) == r.den;
      Associate(x, h, g);
      Associate(y, h, g);
      assert Divides(Times(h, g), n) && Divides(Times(h, g), d);
      DividesAbs(Times(h, g), n);
      GcdIsGreatest(d, m, Times(h, g));
      NoLargerDivisor(g, h);
    }
    RatioUnchanged(r.num, r.den, g);
  }

  lemma NoLargerDivisor(g: int, h: int)
    requires g > 0 && h > 1
    ensures !Divides(Times(h, g), g)
  {
    forall z ensures Times(z, Times(h, g)) != g {
      Associate(z, h, g);
      if z >= 1 {
        SmallMultiple(z, h);
        SmallMultiple(z * h - 1, g);
        assert Times(z * h, g) == (z * h - 1) * g + g;
      } else {
        SmallMultiple(1 - z, h);
        assert z * h <= 0;
        assert Times(z * h, g) <= 0;
      }
    }
  }

  lemma RatioUnchanged(a: int, b: int, g: int)
    requires b > 0 && g > 0
    ensures Times(b, g) > 0 && Times(a, g) as real / Times(b, g) as real == a as real / b as real
  {
    SmallMultiple(g, b);
    var q := a as real / b as real;
    assert a as real == q * b as real;
    assert Times(a, g) as real == a as real * g as real;
    assert Times(b, g) as real == b as real * g as real;
    assert q * (b as real * g as real) == a as real * g as real;
  }

  // ---- removing the factors two and five of a denominator

  function Pow(f: int, k: nat): int {
    if k == 0 then 1 else f * Pow(f, k - 1)
  }

  lemma SmallerQuotient(n: int, f: int)
    requires n > 0 && f > 1 && n % f == 0
    ensures n == f * (n / f) && 0 < n / f < n
  {
    ModIsDivides(f, n);
    DivExact(f, n);
    PositiveFactor(n / f, f);
    SmallMultiple(f - 1, n / f);
    assert n == (f - 1) * (n / f) + n / f;
  }

  lemma PowStep(n: int, f: int, rest: int, k: nat)
    requires f > 1 && n % f == 0 && n / f == rest * Pow(f, k)
    ensures n == rest * Pow(f, k + 1)
  {
    assert n == f * (n / f);
    assert f * (rest * Pow(f, k)) == rest * (f * Pow(f, k));
  }

  /** n with every factor f divided out, and how many there were. */
  function StripFactor(n: int, f: int): (r: (int, nat))
    requires n > 0 && f > 1
    ensures 0 < r.0 <= n && r.0 % f != 0 && n == r.0 * Pow(f, r.1)
    decreases n
  {
    if n % f != 0 then (n, 0)
    else
      SmallerQuotient(n, f);
      var (rest, count) := StripFactor(n / f, f);
      PowStep(n, f, rest, count);
      (rest, count + 1)
  }

  lemma {:induction false} PowAdd(f: int, j: nat, k: nat)
    ensures Pow(f, j + k) == Pow(f, j) * Pow(f, k)
  {
    if j == 0 {
    } else {
      PowAdd(f, j - 1, k);
    }
  }

  lemma {:induction false} TenIsTwoTimesFive(k: nat)
    ensures Shift(1, k) == Pow(2, k) * Pow(5, k)
    ensures Pow(2, k) > 0 && Pow(5, k) > 0
  {
    if k == 0 {
    } else {
      TenIsTwoTimesFive(k - 1);
    }
  }

  lemma TwosAndFivesDivideTens(a: nat, b: nat, m: nat)
    requires a <= m && b <= m
    ensures Pow(2, a) * Pow(5, b) > 0
    ensures Shift(1, m) == Pow(2, a) * Pow(5, b) * (Pow(2, m - a) * Pow(5, m - b))
  {
    TenIsTwoTimesFive(m);
    TenIsTwoTimesFive(a);
    TenIsTwoTimesFive(b);
    PowAdd(2, a, m - a);
    PowAdd(5, b, m - b);
  }

  // ---- printing with a fixed number of places

  /** num * 10^places / den, for a denominator dividing it. */
  function ScaledNumerator(r: Rat, places: nat): int
    requires r.den > 0
  {
    r.num * Shift(1, places) / r.den
  }

  lemma CutDigits(padded: string, cut: nat)
    requires AllDigits(padded) && cut <= |padded|
    ensures AllDigits(padded[..cut]) && AllDigits(padded[cut..]) && padded[..cut] + padded[cut..] == padded
  {
  }

  function PaddedDigits(n: int, places: nat): (s: string)
    ensures AllDigits(s) && |s| > places && Val(s) == AbsInt(n)
  {
    var digits := ToDigits(AbsInt(n));
    var j := if |digits| > places then 0 else places + 1 - |digits|;
    LeadingZeros(j, digits);
    Zeros(j) + digits
  }

  /** The fixed-point spelling of an integer number of units of 10^-places. */
  function FixedPoint(n: int, places: nat): Spelling {
    var padded := PaddedDigits(n, places);
    var cut := |padded| - places;
    Spelling(if n < 0 then Minus else Unsigned, padded[..cut], places > 0, padded[cut..], NoPower)
  }

  lemma FixedPointValue(n: int, places: nat)
    ensures FixedPoint(n, places).Valid() && |FixedPoint(n, places).frac| == places
    ensures FixedPoint(n, places).Value() == Scale(n as real, 0 - places)
  {
    hide PaddedDigits, Val;
    var padded := PaddedDigits(n, places);
    CutDigits(padded, |padded| - places);
    assert Signed(n < 0, AbsInt(n)) == n;
  }

  lemma FewDigits(m: nat, k: nat)
    requires m < Shift(1, k) && k > 0
    ensures |ToDigits(m)| <= k
  {
    var digits := ToDigits(m);
    if |digits| > k {
      ValBound(digits);
      ShiftGrows(k, |digits| - 1);
    }
  }

  lemma FixedPointLength(n: int, places: nat, k: nat)
    requires AbsInt(n) < Shift(1, k + places) && k > 0
    ensures |FixedPoint(n, places).Render()| <= k + places + 2
  {
    FewDigits(AbsInt(n), k + places);
  }

  /** A rational as a decimal when it is one within bounds. */
  function DecimalFromRat(r: Rat): Result<Decimal, DecimalError>
    requires r.den > 0
  {
    var (odd, twos) := StripFactor(r.den, 2);
    var (rest, fives) := StripFactor(odd, 5);
    if rest != 1 then Failure(UnsupportedPrecision)
    else
      var places := if twos < fives then fives else twos;
      ParseNumber(FixedPoint(ScaledNumerator(r, places), places).Render())
  }

  /** The source's loops over the factors two and five. */
  method DecimalFromRational(r: Rat) returns (result: Result<Decimal, DecimalError>)
    requires r.den > 0
    ensures result == DecimalFromRat(r)
  {
    hide ParseNumber, FixedPoint, ScaledNumerator;
    var denominator := r.den;
    var counts := [0, 0];
    var factors := [2, 5];
    for i := 0 to 2
      invariant |counts| == 2 && denominator > 0
      invariant i == 0 ==> denominator == r.den && counts == [0, 0]
      invariant i == 1 ==> (denominator, counts[0]) == StripFactor(r.den, 2) && counts[1] == 0
      invariant i == 2 ==>
        (StripFactor(r.den, 2).1 == counts[0] && (denominator, counts[1]) == StripFactor(StripFactor(r.den, 2).0, 5))
    {
      var before, count := denominator, 0;
      while denominator % factors[i] == 0
        invariant denominator > 0 && count >= 0
        invariant StripFactor(before, factors[i]) ==
          (StripFactor(denominator, factors[i]).0, StripFactor(denominator, factors[i]).1 + count)
        decreases denominator
      {
        SmallerQuotient(denominator, factors[i]);
        denominator := denominator / factors[i];
        count := count + 1;
      }
      counts := counts[i := count];
    }
    if denominator != 1 { return Failure(UnsupportedPrecision); }
    var places := if counts[0] < counts[1] then counts[1] else counts[0];
    var text := FixedPoint(ScaledNumerator(r, places), places).Render();
    return ParseNumber(text);
  }

  // ---- exactness

  lemma {:induction false} ScaleTimes(x: real, k: nat)
    ensures Scale(x, k) == x * Shift(1, k) as real
  {
    if k == 0 {
    } else {
      ScaleTimes(x, k - 1);
      assert 10.0 * (x * Shift(1, k - 1) as real) == x * (10.0 * Shift(1, k - 1) as real);
    }
  }

  lemma {:induction false} ShiftTimes(n: int, k: nat)
    ensures Shift(n, k) == Times(n, Shift(1, k))
  {
    if k == 0 {
    } else {
      ShiftTimes(n, k - 1);
      assert 10 * Times(n, Shift(1, k - 1)) == Times(n, 10 * Shift(1, k - 1));
    }
  }

  lemma CancelFactor(x: real, y: real, b: real)
    requires b > 0.0 && x * b == y * b
    ensures x == y
  {
    assert (x - y) * b == 0.0;
  }

  lemma CrossMultiply(x: real, a: real, b: real, t: real, m: real)
    requires b > 0.0 && x * b == a
    ensures x * t == m <==> m * b == a * t
  {
    assert x * t * b == a * t;
    if m * b == a * t { CancelFactor(x * t, m, b); }
  }

  lemma RatioTimes(r: Rat)
    requires r.den > 0
    ensures RatValue(r) * r.den as real == r.num as real
  {
  }

  lemma TimesReal(a: int, b: int)
    ensures Times(a, b) as real == a as real * b as real
  {
  }

  /** m units of 10^-p are the rational exactly when m * den == num * 10^p. */
  lemma UnitsOfRat(r: Rat, m: int, p: nat)
    requires r.den > 0
    ensures Times(m, r.den) == Times(r.num, Shift(1, p)) <==> Scale(m as real, 0 - p) == RatValue(r)
  {
    hide Times, RatValue, Shift, Scale;
    var x := RatValue(r);
    RatioTimes(r);
    ScaleTimes(x, p);
    CrossMultiply(x, r.num as real, r.den as real, Shift(1, p) as real, m as real);
    TimesReal(m, r.den);
    TimesReal(r.num, Shift(1, p));
    ScaleAdd(x, p, 0 - p);
    ScaleAdd(m as real, 0 - p, p);
    ScaleZero(x);
    ScaleZero(m as real);
  }

  lemma ScaleZero(x: real)
    ensures Scale(x, 0) == x
  {
  }

  lemma DistributeRight(q: int, k: int, h: int, r: int)
    ensures Times(q, k * h + r) == k * Times(q, h) + Times(q, r)
  {
  }

  lemma ParityFactor(c: int, q: int, h: int)
    requires c % 2 != 0 && Times(q, c) == 2 * h
    ensures q % 2 == 0
  {
    DistributeRight(q, 2, c / 2, 1);
  }

  lemma FiveFactor(c: int, q: int, h: int)
    requires c % 5 != 0 && Times(q, c) == 5 * h
    ensures q % 5 == 0
  {
    DistributeRight(q, 5, c / 5, c % 5);
    var t := Times(q, c % 5);
    assert t == 5 * (h - Times(q, c / 5));
    assert t == if c % 5 == 1 then q else if c % 5 == 2 then 2 * q else if c % 5 == 3 then 3 * q else 4 * q;
  }

  lemma TenTimes(t: int, c: int)
    ensures Times(10 * t, c) == 10 * Times(t, c)
  {
  }

  lemma BothFactors(q: int)
    requires q % 2 == 0 && q % 5 == 0
    ensures q == 10 * (q / 10)
  {
  }

  lemma TenthFactor(c: int, q: int, m: int)
    requires c % 2 != 0 && c % 5 != 0 && Times(q, c) == 10 * m
    ensures Times(q / 10, c) == m
  {
    hide Times;
    ParityFactor(c, q, 5 * m);
    FiveFactor(c, q, 2 * m);
    BothFactors(q);
    TenTimes(q / 10, c);
  }

  lemma {:induction false} CoprimeToTen(c: int, n: int, k: nat)
    requires c % 2 != 0 && c % 5 != 0 && Divides(c, Shift(n, k))
    ensures Divides(c, n)
  {
    if k == 0 {
    } else {
      var q :| Times(q, c) == Shift(n, k);
      TenthFactor(c, q, Shift(n, k - 1));
      CoprimeToTen(c, n, k - 1);
    }
  }

  lemma {:induction false} ShiftSmall(c: int, n: int, k: nat)
    requires c == 2 || c == 5
    ensures Shift(c * n, k) == c * Shift(n, k)
  {
    if k == 0 {
    } else {
      ShiftSmall(c, n, k - 1);
    }
  }

  lemma PowTimes(p: int, a: nat, q: int)
    requires a > 0
    ensures Times(Pow(p, a), q) == p * Times(Pow(p, a - 1), q)
  {
  }

  lemma SmallCofactor(p: int, n: int)
    requires (p == 2 || p == 5) && n % p != 0
    ensures (10 / p * n) % p != 0
  {
  }

  /** A power of two or five dividing n * 10^k, for n without that factor, is at most the k-th. */
  lemma {:induction false} PrimePowerBound(p: int, n: int, a: nat, k: nat, q: int)
    requires p == 2 || p == 5
    requires n % p != 0 && Shift(n, k) == Times(Pow(p, a), q)
    ensures a <= k
    decreases a
  {
    hide Times, Pow;
    if a == 0 {
    } else {
      PowTimes(p, a, q);
      if k > 0 {
        var c := 10 / p;
        ShiftSmall(c, n, k - 1);
        SmallCofactor(p, n);
        PrimePowerBound(p, c * n, a - 1, k - 1, q);
      } else {
        FactorOf(p, Times(Pow(p, a - 1), q));
      }
    }
  }

  lemma FactorOf(p: int, q: int)
    requires p == 2 || p == 5
    ensures (p * q) % p == 0
  {
  }

  lemma Commute(a: int, b: int)
    ensures Times(a, b) == Times(b, a)
  {
  }

  lemma OddCofactor(odd: int, rest: int, t: int)
    requires odd == Times(rest, t) && odd % 2 != 0
    ensures rest % 2 != 0
  {
    if rest % 2 == 0 { assert Times(rest, t) == 2 * Times(rest / 2, t); FactorOf(2, Times(rest / 2, t)); }
  }

  lemma OddPart(den: int)
    requires den > 0
    ensures var (odd, twos) := StripFactor(den, 2); var (rest, fives) := StripFactor(odd, 5);
      && rest > 0 && rest % 2 != 0 && rest % 5 != 0
      && den == Times(rest, Times(Pow(5, fives), Pow(2, twos)))
      && den == Times(Pow(2, twos), odd) && den == Times(Pow(5, fives), Times(rest, Pow(2, twos)))
  {
    var (odd, twos) := StripFactor(den, 2);
    var (rest, fives) := StripFactor(odd, 5);
    StripTimes(den, 2);
    StripTimes(odd, 5);
    hide Times, StripFactor, Pow;
    OddCofactor(odd, rest, Pow(5, fives));
    Commute(odd, Pow(2, twos));
    Associate(rest, Pow(5, fives), Pow(2, twos));
    Commute(rest, Pow(5, fives));
    Associate(Pow(5, fives), rest, Pow(2, twos));
  }

  lemma StripTimes(n: int, f: int)
    requires n > 0 && f > 1
    ensures var (rest, count) := StripFactor(n, f); n == Times(rest, Pow(f, count)) && rest > 0 && rest % f != 0
  {
  }

  lemma StrippedNotDividing(r: Rat, p: int, a: nat, cofactor: int)
    requires r.Lowest() && (p == 2 || p == 5) && a > 0 && r.den == Times(Pow(p, a), cofactor)
    ensures r.num % p != 0
  {
    PowTimes(p, a, cofactor);
    var t := Times(Pow(p, a - 1), cofactor);
    assert Times(t, p) == r.den;
    ModIsDivides(p, r.num);
  }

  lemma CommonPower(r: Rat, n: int, k: nat, p: int, a: nat, cofactor: int)
    requires r.Lowest() && (p == 2 || p == 5) && r.den == Times(Pow(p, a), cofactor)
    requires Times(n, r.den) == Shift(r.num, k)
    ensures a <= k
  {
    hide Times, Pow;
    if a > 0 {
      StrippedNotDividing(r, p, a, cofactor);
      Commute(n, r.den);
      Associate(Pow(p, a), cofactor, n);
      PrimePowerBound(p, r.num, a, k, Times(cofactor, n));
    }
  }

  /** The denominator of a rational that is an integer number of units of 10^-k has no factors
      but two and five, each at most k times. */
  lemma TerminatingDenominator(r: Rat, n: int, k: nat)
    requires r.Lowest() && Times(n, r.den) == Times(r.num, Shift(1, k))
    ensures var (odd, twos) := StripFactor(r.den, 2); var (rest, fives) := StripFactor(odd, 5);
      rest == 1 && twos <= k && fives <= k
  {
    hide Times, StripFactor, Pow, Shift;
    OddPart(r.den);
    var (odd, twos) := StripFactor(r.den, 2);
    var (rest, fives) := StripFactor(odd, 5);
    ShiftTimes(r.num, k);
    var others := Times(Pow(5, fives), Pow(2, twos));
    Commute(rest, others);
    Associate(n, others, rest);
    assert Divides(rest, r.den);
    assert Divides(rest, Shift(r.num, k));
    CoprimeToTen(rest, r.num, k);
    CommonPower(r, n, k, 2, twos, odd);
    CommonPower(r, n, k, 5, fives, Times(rest, Pow(2, twos)));
  }

  /** With that many places the fixed-point print is exact. */
  lemma PrintIsExact(r: Rat, places: nat)
    requires r.den > 0
    requires var (odd, twos) := StripFactor(r.den, 2); var (rest, fives) := StripFactor(odd, 5);
      rest == 1 && twos <= places && fives <= places
    ensures Scale(ScaledNumerator(r, places) as real, 0 - places) == RatValue(r)
  {
    var (odd, twos) := StripFactor(r.den, 2);
    var (rest, fives) := StripFactor(odd, 5);
    TensFactor(r.den, twos, fives, places);
    var k := Shift(1, places) / r.den;
    hide Times, StripFactor, Shift;
    Associate(r.num, k, r.den);
    ScaledIsQuotient(r, places, Times(r.num, k));
    UnitsOfRat(r, ScaledNumerator(r, places), places);
  }

  lemma ScaledIsQuotient(r: Rat, places: nat, q: int)
    requires r.den > 0 && Times(q, r.den) == Times(r.num, Shift(1, places))
    ensures ScaledNumerator(r, places) == q
  {
    QuotientIs(Times(r.num, Shift(1, places)), r.den, q);
  }

  lemma Reorder(p: int, q: int, k: int)
    ensures p * q * k == Times(k, q * p)
  {
    assert p * q == q * p;
  }

  lemma TensFactor(den: int, a: nat, b: nat, m: nat)
    requires den > 0 && den == Pow(5, b) * Pow(2, a) && a <= m && b <= m
    ensures Shift(1, m) == Times(Shift(1, m) / den, den)
  {
    TwosAndFivesDivideTens(a, b, m);
    hide Pow, Shift;
    var k := Pow(2, m - a) * Pow(5, m - b);
    Reorder(Pow(2, a), Pow(5, b), k);
    QuotientIs(Shift(1, m), den, k);
  }

  lemma FixedPointText(n: int, places: nat)
    ensures var text := FixedPoint(n, places).Render();
      WellFormed(text) && TextValue(text) == Scale(n as real, 0 - places) && Spelled(text).power.NoPower?
  {
    FixedPointValue(n, places);
    ScanRender(FixedPoint(n, places));
  }

  /** No rounding: a decimal that comes back is the rational. */
  lemma FromRatSound(r: Rat)
    requires r.den > 0 && DecimalFromRat(r).Success?
    ensures IsNumber(DecimalFromRat(r).value) && Num(DecimalFromRat(r).value) == RatValue(r)
  {
    hide Scan, ParseSpelling, StripFactor, FixedPoint, ScaledNumerator, RatValue, TextValue, Spelled;
    var (odd, twos) := StripFactor(r.den, 2);
    var (rest, fives) := StripFactor(odd, 5);
    var places := if twos < fives then fives else twos;
    PrintIsExact(r, places);
    var n := ScaledNumerator(r, places);
    FixedPointText(n, places);
    ParseKeepsValue(FixedPoint(n, places).Render());
    NothingIsNoNumber();
  }

  lemma NumberBound(d: Decimal)
    requires IsNumber(d)
    ensures WellFormed(d) && ParseDecimal(d) == Success(d) && Representable(Num(d))
    ensures Abs(Num(d)) < Scale(1.0, MAX_ORDER + 1)
  {
    hide ParseSpelling, Scan, Canonical, ParseDecimal;
    NumberParses(d);
    AcceptedExactly(d);
    ScaleExponentMono(0, MAX_ORDER + 1);
  }

  lemma UnitsBound(m: int, places: nat, d: Decimal)
    requires IsNumber(d) && Scale(m as real, 0 - places) == Num(d)
    ensures AbsInt(m) < Shift(1, MAX_ORDER + 1 + places)
  {
    hide Canonical, ParseDecimal, Scan, TextValue;
    NumberBound(d);
    ScaleLinear(m as real, 0.0, 0 - places);
    ScaleAdd(1.0, MAX_ORDER + 1 + places, 0 - places);
    ScaleMono(m as real, Scale(1.0, MAX_ORDER + 1 + places), 0 - places);
    ScaleMono(-m as real, Scale(1.0, MAX_ORDER + 1 + places), 0 - places);
    ScaleShift(1, MAX_ORDER + 1 + places);
  }

  /** Every decimal is recovered from its rational. */
  lemma FromRatComplete(r: Rat, d: Decimal)
    requires r.Lowest() && IsNumber(d) && Num(d) == RatValue(r)
    ensures DecimalFromRat(r) == Success(d)
  {
    hide Canonical, Scan, ParseSpelling, ParseDecimal, TextValue, StripFactor, FixedPoint, Representable;
    NumberInUnits(d);
    var u := Signed(Negative(d), Units(d));
    ScaleAdd(Num(d), KEY_PLACES, 0 - KEY_PLACES);
    UnitsOfRat(r, u, KEY_PLACES);
    TerminatingDenominator(r, u, KEY_PLACES);
    var (odd, twos) := StripFactor(r.den, 2);
    var (rest, fives) := StripFactor(odd, 5);
    var places := if twos < fives then fives else twos;
    PrintIsExact(r, places);
    var n := ScaledNumerator(r, places);
    var text := FixedPoint(n, places).Render();
    FixedPointText(n, places);
    UnitsBound(n, places, d);
    FixedPointLength(n, places, MAX_ORDER + 1);
    NumberBound(d);
    AcceptedExactly(text);
    SameTextIffSameNumber(text, d);
  }

  /** The rational of a decimal. */
  function RatOf(d: Decimal): Rat
    requires IsNumber(d)
  {
    SpelledFits(d);
    var s := Spelled(d);
    ShiftGrows(0, |s.frac|);
    MakeRat(Signed(s.sign.Minus?, Val(s.whole + s.frac)), Shift(1, |s.frac|))
  }

  lemma RatOfUnits(m: int, p: nat)
    ensures Shift(1, p) > 0 && MakeRat(m, Shift(1, p)).Lowest()
    ensures RatValue(MakeRat(m, Shift(1, p))) == Scale(m as real, 0 - p)
  {
    ShiftGrows(0, p);
    MakeRatMeaning(m, Shift(1, p));
    UnitsOfRat(Rat(m, Shift(1, p)), m, p);
  }

  lemma RatOfIsExact(d: Decimal)
    requires IsNumber(d)
    ensures RatOf(d).Lowest() && RatValue(RatOf(d)) == Num(d)
    ensures DecimalFromRat(RatOf(d)) == Success(d)
  {
    hide Canonical, ParseDecimal, ParseSpelling, Scan, MakeRat, RatValue, DecimalFromRat, TrimLeft, TrimRight;
    ParseOfNumber(d);
    var s := Spelled(d);
    RatOfUnits(Signed(s.sign.Minus?, Val(s.whole + s.frac)), |s.frac|);
    FromRatComplete(RatOf(d), d);
  }

  // ---- arithmetic

  function RatMul(a: Rat, b: Rat): Rat
    requires a.den > 0 && b.den > 0
  {
    PositiveProduct(a.den, b.den);
    MakeRat(Times(a.num, b.num), Times(a.den, b.den))
  }

  function RatAdd(a: Rat, b: Rat): Rat
    requires a.den > 0 && b.den > 0
  {
    PositiveProduct(a.den, b.den);
    MakeRat(Times(a.num, b.den) + Times(b.num, a.den), Times(a.den, b.den))
  }

  function RatNeg(a: Rat): Rat { Rat(-a.num, a.den) }

  function RatAbs(a: Rat): Rat { Rat(AbsInt(a.num), a.den) }

  lemma PositiveProduct(a: int, b: int)
    requires a > 0 && b > 0
    ensures Times(a, b) > 0
  {
  }

  lemma QuotientOfProducts(a: real, b: real, c: real, d: real)
    requires b > 0.0 && d > 0.0
    ensures b * d > 0.0 && (a * c) / (b * d) == a / b * (c / d)
    ensures (a * d + c * b) / (b * d) == a / b + c / d
  {
    var x, y := a / b, c / d;
    assert x * b == a && y * d == c;
    assert (x * y) * (b * d) == a * c by { assert (x * y) * (b * d) == (x * b) * (y * d); }
    assert (x + y) * (b * d) == a * d + c * b by { assert (x + y) * (b * d) == (x * b) * d + (y * d) * b; }
    QuotientFrom(a * c, b * d, x * y);
    QuotientFrom(a * d + c * b, b * d, x + y);
  }

  lemma QuotientFrom(n: real, d: real, q: real)
    requires d > 0.0 && q * d == n
    ensures n / d == q
  {
  }

  lemma RatArithmetic(a: Rat, b: Rat)
    requires a.den > 0 && b.den > 0
    ensures RatMul(a, b).Lowest() && RatValue(RatMul(a, b)) == RatValue(a) * RatValue(b)
    ensures RatAdd(a, b).Lowest() && RatValue(RatAdd(a, b)) == RatValue(a) + RatValue(b)
  {
    hide Times, MakeRat, RatValue;
    PositiveProduct(a.den, b.den);
    MakeRatMeaning(Times(a.num, b.num), Times(a.den, b.den));
    MakeRatMeaning(Times(a.num, b.den) + Times(b.num, a.den), Times(a.den, b.den));
    TimesReal(a.num, b.num);
    TimesReal(a.den, b.den);
    TimesReal(a.num, b.den);
    TimesReal(b.num, a.den);
    QuotientOfProducts(a.num as real, a.den as real, b.num as real, b.den as real);
    RatioIs(a);
    RatioIs(b);
  }

  lemma RatioIs(a: Rat)
    requires a.den > 0
    ensures RatValue(a) == a.num as real / a.den as real
  {
  }

  lemma RatSign(a: Rat)
    requires a.den > 0
    ensures RatValue(RatNeg(a)) == -RatValue(a)
    ensures RatValue(a) < 0.0 <==> a.num < 0
    ensures RatValue(RatAbs(a)) == Abs(RatValue(a))
  {
    QuotientFrom(-a.num as real, a.den as real, -RatValue(a));
  }
}
