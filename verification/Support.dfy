/** Operating-support queries over unions of intervals and points, and the whole exact oracle. */
module Support {
  import opened Wrappers
  import opened Ordering
  import opened Decimals
  import opened Profiles
  import opened Values
  import opened Predicates

  /** The interval holds the real number. */
  predicate Holds(i: Interval, x: real)
    requires ValidInterval(i)
  {
    && (Num(i.lower) < x || (Num(i.lower) == x && i.lowerInclusive))
    && (x < Num(i.upper) || (x == Num(i.upper) && i.upperInclusive))
  }

  predicate AllValid(s: seq<Interval>) { forall k :: 0 <= k < |s| ==> ValidInterval(s[k]) }

  /** Some interval of the list holds the number. */
  ghost predicate Covered(s: seq<Interval>, x: real)
    requires AllValid(s)
  {
    exists k :: 0 <= k < |s| && Holds(s[k], x)
  }

  function PointInterval(d: Decimal): Interval { Interval(d, d, true, true) }

  predicate IsSupportValue(v: Value) {
    match v.shape
    case Scalar => v.scalar.Some? && IsNumber(v.scalar.value) && v.intervals.None?
    case DiscreteSet =>
      && v.values.Some? && v.intervals.None?
      && (forall k :: 0 <= k < |v.values.value| ==> IsNumber(v.values.value[k]))
    case IntervalSet => v.intervals.Some? && AllValid(v.intervals.value) && v.values.None?
    case _ => false
  }

  function Points(v: Value): seq<Decimal> {
    if v.shape.Scalar? && v.scalar.Some? then [v.scalar.value]
    else if v.values.Some? then v.values.value
    else []
  }

  /** The intervals and points a support value states, points as closed intervals. */
  function Spans(v: Value): (s: seq<Interval>)
    requires IsSupportValue(v)
    ensures AllValid(s)
  {
    var points := Points(v);
    (if v.intervals.Some? then v.intervals.value else [])
    + seq(|points|, k requires 0 <= k < |points| => PointInterval(points[k]))
  }

  /** The meaning of a support query over the real line. */
  ghost predicate Supports(s: seq<Interval>, q: Predicate)
    requires AllValid(s) && WellFormedQuery(q)
  {
    match q.operator
    case ContainsPoint => Covered(s, Num(q.value.value))
    case ContainsRange => forall x :: Num(q.lower.value) <= x <= Num(q.upper.value) ==> Covered(s, x)
    case OverlapsRange => exists x :: Num(q.lower.value) <= x <= Num(q.upper.value) && Covered(s, x)
    case _ => false
  }

  predicate IntervalContains(i: Interval, point: Decimal)
    requires ValidInterval(i) && IsNumber(point)
  {
    var lower, upper := Compare(point, i.lower), Compare(point, i.upper);
    (lower > 0 || (lower == 0 && i.lowerInclusive)) && (upper < 0 || (upper == 0 && i.upperInclusive))
  }

  lemma IntervalContainsIsHolds(i: Interval, point: Decimal)
    requires ValidInterval(i) && IsNumber(point)
    ensures IntervalContains(i, point) <==> Holds(i, Num(point))
  {
    hide Canonical, ParseDecimal, Num;
  }

  // ---- sorting by lower end

  /** The source's comparison: by lower end, inclusive before exclusive. */
  predicate Before(a: Interval, b: Interval)
    requires ValidInterval(a) && ValidInterval(b)
  {
    var comparison := Compare(a.lower, b.lower);
    if comparison == 0 then a.lowerInclusive && !b.lowerInclusive else comparison < 0
  }

  ghost predicate Sorted(s: seq<Interval>)
    requires AllValid(s)
  {
    forall i, j :: 0 <= i < j < |s| ==> !Before(s[j], s[i])
  }

  predicate InOrder(a: Interval, b: Interval) { ValidInterval(a) && ValidInterval(b) ==> !Before(b, a) }

  lemma BeforeOrders(a: Interval, b: Interval)
    requires ValidInterval(a) && ValidInterval(b)
    ensures if Before(a, b) then InOrder(a, b) else InOrder(b, a)
  {
    hide Canonical, ParseDecimal, Num;
  }

  lemma InOrderTransitive(a: Interval, b: Interval, c: Interval)
    requires ValidInterval(a) && ValidInterval(b) && ValidInterval(c) && InOrder(a, b) && InOrder(b, c)
    ensures InOrder(a, c)
  {
    hide Canonical, ParseDecimal, Num;
  }

  /** Where x goes: before everything it is before. */
  method InsertionPoint(r: seq<Interval>, x: Interval) returns (k: nat)
    requires AllValid(r) && ValidInterval(x) && StrictlySorted(InOrder, r)
    ensures k <= |r|
    ensures forall j :: 0 <= j < k ==> InOrder(r[j], x)
    ensures forall j :: k <= j < |r| ==> InOrder(x, r[j])
  {
    hide Canonical, ParseDecimal, Num, ValidInterval, Before, InOrder;
    k := |r|;
    while k > 0 && Before(x, r[k - 1])
      invariant 0 <= k <= |r|
      invariant forall j :: k <= j < |r| ==> InOrder(x, r[j])
    {
      BeforeOrders(x, r[k - 1]);
      k := k - 1;
    }
    if k > 0 {
      BeforeOrders(x, r[k - 1]);
      forall j | 0 <= j < k ensures InOrder(r[j], x) {
        if j < k - 1 { InOrderTransitive(r[j], r[k - 1], x); }
      }
    }
  }

  method SortByLower(s: seq<Interval>) returns (r: seq<Interval>)
    requires AllValid(s)
    ensures AllValid(r) && Sorted(r) && multiset(r) == multiset(s)
  {
    hide Canonical, ParseDecimal, Num, ValidInterval, InOrder;
    r := [];
    for n := 0 to |s|
      invariant AllValid(r) && StrictlySorted(InOrder, r) && multiset(r) == multiset(s[..n])
    {
      var x := s[n];
      var k := InsertionPoint(r, x);
      Splice(InOrder, r, k, x);
      assert r == r[..k] + r[k..];
      r := r[..k] + [x] + r[k..];
      assert s[..n + 1] == s[..n] + [x];
    }
    assert s[..|s|] == s;
    SortedIs(r);
  }

  lemma SortedIs(s: seq<Interval>)
    requires AllValid(s) && StrictlySorted(InOrder, s)
    ensures Sorted(s)
  {
    hide ValidInterval, Before;
  }

  // ---- the sweep

  lemma SameMembers(s: seq<Interval>, r: seq<Interval>)
    requires AllValid(s) && multiset(s) == multiset(r)
    ensures AllValid(r) && forall x :: Covered(s, x) <==> Covered(r, x)
  {
    forall i ensures i in s <==> i in r {
      assert i in s <==> i in multiset(s);
      assert i in r <==> i in multiset(r);
    }
    forall k | 0 <= k < |r| ensures ValidInterval(r[k]) { assert r[k] in s; }
    forall x ensures Covered(s, x) <==> Covered(r, x) {
      if Covered(s, x) { var k :| 0 <= k < |s| && Holds(s[k], x); assert s[k] in r; }
      if Covered(r, x) { var k :| 0 <= k < |r| && Holds(r[k], x); assert r[k] in s; }
    }
  }

  /** What the sweep knows after the first n sorted intervals: its covered stretch starts at or
      before the query's lower end, is covered throughout from there, and nothing seen reaches
      further. */
  ghost predicate Swept(s: seq<Interval>, n: nat, covered: Option<Interval>, low: real)
    requires AllValid(s) && n <= |s| && (covered.Some? ==> ValidInterval(covered.value))
  {
    match covered
    case None => forall j :: 0 <= j < n ==> !Holds(s[j], low)
    case Some(c) =>
      && Holds(c, low)
      && (forall x :: x >= low && Holds(c, x) ==> Covered(s, x))
      && (forall j, x :: 0 <= j < n && x >= low && Holds(s[j], x) ==> Holds(c, x))
  }

  /** The stretch after one more connected interval. */
  function Extend(c: Interval, i: Interval): Interval
    requires ValidInterval(c) && ValidInterval(i)
  {
    var end := Compare(i.upper, c.upper);
    if end > 0 then c.(upper := i.upper, upperInclusive := i.upperInclusive)
    else if end == 0 then c.(upperInclusive := c.upperInclusive || i.upperInclusive)
    else c
  }

  predicate Disconnected(c: Interval, i: Interval)
    requires ValidInterval(c) && ValidInterval(i)
  {
    var connection := Compare(i.lower, c.upper);
    connection > 0 || (connection == 0 && !i.lowerInclusive && !c.upperInclusive)
  }

  lemma ExtendIsUnion(c: Interval, i: Interval, low: real)
    requires ValidInterval(c) && ValidInterval(i) && Holds(c, low) && !Disconnected(c, i)
    ensures var e := Extend(c, i);
      && ValidInterval(e) && Holds(e, low)
      && forall x :: x >= low ==> (Holds(e, x) <==> Holds(c, x) || (Holds(i, x) && x >= low))
  {
    hide Canonical, ParseDecimal, Num;
  }

  lemma SweepExtends(s: seq<Interval>, n: nat, c: Interval, low: real)
    requires AllValid(s) && n < |s| && ValidInterval(c) && Swept(s, n, Some(c), low) && !Disconnected(c, s[n])
    ensures ValidInterval(Extend(c, s[n])) && Swept(s, n + 1, Some(Extend(c, s[n])), low)
  {
    hide Canonical, ParseDecimal, Num, Holds, Extend, Disconnected, ValidInterval;
    ExtendIsUnion(c, s[n], low);
  }

  /** At a gap the query's range has an uncovered number. */
  lemma GapIsUncovered(s: seq<Interval>, n: nat, c: Interval, low: real, high: real) returns (x: real)
    requires AllValid(s) && Sorted(s) && n < |s| && ValidInterval(c)
    requires Swept(s, n, Some(c), low) && low <= high && !Holds(c, high) && Disconnected(c, s[n])
    ensures low <= x <= high && !Covered(s, x)
  {
    hide Canonical, ParseDecimal, Num;
    var end, next := Num(c.upper), Num(s[n].lower);
    x := if !c.upperInclusive then end else if next > high then high else (end + next) / 2.0;
    assert low <= x <= high && !Holds(c, x);
    forall k | 0 <= k < |s|
      ensures !Holds(s[k], x)
    {
      if k > n { assert !Before(s[k], s[n]); }
    }
  }

  lemma StretchIsCovered(s: seq<Interval>, n: nat, c: Interval, low: real, high: real)
    requires AllValid(s) && n <= |s| && ValidInterval(c) && Swept(s, n, Some(c), low) && Holds(c, high)
    ensures forall x :: low <= x <= high ==> Covered(s, x)
  {
    hide Canonical, ParseDecimal, Num, Covered;
    forall x | low <= x <= high
      ensures Covered(s, x)
    {
      assert Holds(c, x);
    }
  }

  lemma EndUncovered(s: seq<Interval>, covered: Option<Interval>, low: real, high: real)
    requires AllValid(s) && (covered.Some? ==> ValidInterval(covered.value) && !Holds(covered.value, high))
    requires Swept(s, |s|, covered, low) && low <= high
    ensures !forall x :: low <= x <= high ==> Covered(s, x)
  {
    hide Canonical, ParseDecimal, Num, Holds, ValidInterval;
    assert low <= low <= high && low <= high <= high;
    if covered.None? { assert !Covered(s, low); } else { assert !Covered(s, high); }
  }

  /** The union sweep: whether the closed range is covered without a gap. */
  method CoversRange(intervals: seq<Interval>, lower: Decimal, upper: Decimal) returns (r: bool)
    requires AllValid(intervals) && IsNumber(lower) && IsNumber(upper) && Num(lower) <= Num(upper)
    ensures r <==> forall x :: Num(lower) <= x <= Num(upper) ==> Covered(intervals, x)
  {
    hide Canonical, ParseDecimal, Num, Covered, Holds, ValidInterval, Compare;
    var s := SortByLower(intervals);
    SameMembers(intervals, s);
    ghost var low, high := Num(lower), Num(upper);
    var covered: Option<Interval> := None;
    var n := 0;
    while n < |s|
      invariant 0 <= n <= |s|
      invariant covered.Some? ==> ValidInterval(covered.value) && !Holds(covered.value, high)
      invariant Swept(s, n, covered, low)
    {
      var interval := s[n];
      if covered.None? {
        IntervalContainsIsHolds(interval, lower);
        if IntervalContains(interval, lower) {
          FirstStretch(s, n, low);
          covered := Some(interval);
        }
      } else {
        if Disconnected(covered.value, interval) {
          var x := GapIsUncovered(s, n, covered.value, low, high);
          return false;
        }
        SweepExtends(s, n, covered.value, low);
        covered := Some(Extend(covered.value, interval));
      }
      n := n + 1;
      if covered.Some? {
        IntervalContainsIsHolds(covered.value, upper);
        if IntervalContains(covered.value, upper) {
          StretchIsCovered(s, n, covered.value, low, high);
          return true;
        }
      }
    }
    EndUncovered(s, covered, low, high);
    return false;
  }

  /** The first interval holding the lower end starts the stretch: no earlier one reaches it. */
  lemma FirstStretch(s: seq<Interval>, n: nat, low: real)
    requires AllValid(s) && n < |s| && Swept(s, n, None, low) && Sorted(s) && Holds(s[n], low)
    ensures Swept(s, n + 1, Some(s[n]), low)
  {
    hide Canonical, ParseDecimal, Num;
    forall j, x | 0 <= j < n && x >= low
      ensures !Holds(s[j], x)
    {
      assert !Before(s[n], s[j]) && !Holds(s[j], low);
    }
  }

  /** The overlap test of one interval and the range, by their ends alone. */
  predicate Overlaps(i: Interval, lower: Decimal, upper: Decimal)
    requires ValidInterval(i) && IsNumber(lower) && IsNumber(upper)
  {
    var l, u := Compare(i.upper, lower), Compare(i.lower, upper);
    (l > 0 || (l == 0 && i.upperInclusive)) && (u < 0 || (u == 0 && i.lowerInclusive))
  }

  lemma OverlapsIsMeeting(i: Interval, lower: Decimal, upper: Decimal)
    requires ValidInterval(i) && IsNumber(lower) && IsNumber(upper) && Num(lower) <= Num(upper)
    ensures Overlaps(i, lower, upper) <==> exists x :: Num(lower) <= x <= Num(upper) && Holds(i, x)
  {
    hide Canonical, ParseDecimal, Num;
    var a := if Num(lower) < Num(i.lower) then Num(i.lower) else Num(lower);
    var b := if Num(upper) < Num(i.upper) then Num(upper) else Num(i.upper);
    var mid := (a + b) / 2.0;
    if Overlaps(i, lower, upper) { assert Num(lower) <= mid <= Num(upper) && Holds(i, mid); }
  }

  /** The truth of a support query over a value's intervals and points. */
  method EvaluateSupport(value: Value, q: Predicate) returns (truth: Truth)
    requires IsSupportValue(value) && WellFormedQuery(q) && IsSupport(q.operator)
    ensures truth == if Supports(Spans(value), q) then Match else NoMatch
  {
    hide Canonical, ParseDecimal, Num, Holds, ValidInterval, Compare, IsSupportValue, Spans;
    var intervals := Spans(value);
    if q.operator.ContainsPoint? {
      for k := 0 to |intervals|
        invariant forall j :: 0 <= j < k ==> !Holds(intervals[j], Num(q.value.value))
      {
        IntervalContainsIsHolds(intervals[k], q.value.value);
        if IntervalContains(intervals[k], q.value.value) { return Match; }
      }
      return NoMatch;
    }
    if q.operator.OverlapsRange? {
      for k := 0 to |intervals|
        invariant forall j, x :: 0 <= j < k && Num(q.lower.value) <= x <= Num(q.upper.value) ==> !Holds(intervals[j], x)
      {
        OverlapsIsMeeting(intervals[k], q.lower.value, q.upper.value);
        if Overlaps(intervals[k], q.lower.value, q.upper.value) {
          ghost var x :| Num(q.lower.value) <= x <= Num(q.upper.value) && Holds(intervals[k], x);
          assert Covered(intervals, x);
          return Match;
        }
      }
      return NoMatch;
    }
    var covers := CoversRange(intervals, q.lower.value, q.upper.value);
    return TruthOf(covers);
  }

  // ---- the oracle

  /** The exact truth of a predicate for a fact, given its meaning over the real line. */
  ghost function Verdict(value: Option<Value>, p: Profile, asked: Predicate): Truth {
    if value.None? || !ValidValue(value.value, p) || !value.value.context.Unconditional?
       || !Compatible(p.role, value.value.shape, asked.operator) then Unknown
    else
      var query := NormalizePredicate(asked, p);
      if query.None? then Unknown
      else
        NormalizedIsWellFormed(asked, p);
        FactVerdict(value.value, p, query.value)
  }

  /** The truth of a normalized query for a valid fact of a compatible shape. */
  ghost function FactVerdict(v: Value, p: Profile, q: Predicate): Truth
    requires ValidValue(v, p) && WellFormedQuery(q) && Compatible(p.role, v.shape, q.operator)
  {
    if p.role.ErrorMagnitude? then EvaluateScalar(v.bound.value.value, q)
    else if IsSupport(q.operator) then
      SupportShape(v, p);
      TruthOf(Supports(Spans(v), q))
    else match v.shape
      case Scalar => EvaluateScalar(v.scalar.value, q)
      case ToleranceShape =>
        NominalIsNumber(v.tolerance.value);
        EvaluateScalar(v.tolerance.value.nominal, q)
      case BoundClaimShape => EvaluateBound(v.bound.value, p.role, q)
      case _ => Unknown
  }

  lemma SupportShape(v: Value, p: Profile)
    requires ValidValue(v, p) && (v.shape.Scalar? || v.shape.DiscreteSet? || v.shape.IntervalSet?)
    ensures IsSupportValue(v)
  {
    hide Canonical, ParseDecimal, Num, ValidProfile, ValidTolerance, CountsOnly, ValidInterval;
  }

  /** The source's oracle. */
  method Evaluate(value: Option<Value>, p: Profile, asked: Predicate) returns (truth: Truth)
    ensures truth == Verdict(value, p, asked)
  {
    hide Canonical, ParseDecimal, Num, ValidProfile, ValidTolerance, CountsOnly, ValidInterval, NormalizePredicate;
    hide Supports, Spans, IsSupportValue;
    if value.None? || !ValidValue(value.value, p) || !value.value.context.Unconditional?
       || !Compatible(p.role, value.value.shape, asked.operator) {
      return Unknown;
    }
    var v := value.value;
    var normalized := NormalizePredicate(asked, p);
    if normalized.None? { return Unknown; }
    NormalizedIsWellFormed(asked, p);
    var query := normalized.value;
    if p.role.ErrorMagnitude? {
      return EvaluateScalar(v.bound.value.value, query);
    }
    if IsSupport(query.operator) {
      SupportShape(v, p);
      truth := EvaluateSupport(v, query);
      return;
    }
    match v.shape {
      case Scalar => return EvaluateScalar(v.scalar.value, query);
      case ToleranceShape =>
        NominalIsNumber(v.tolerance.value);
        return EvaluateScalar(v.tolerance.value.nominal, query);
      case BoundClaimShape => return EvaluateBound(v.bound.value, p.role, query);
      case _ => return Unknown;
    }
  }

  lemma NominalIsNumber(t: Tolerance)
    requires ValidTolerance(t)
    ensures IsNumber(t.nominal)
  {
  }

  // ---- what the oracle answers, by role, shape and operator

  /** The facts the oracle judges: valid, unconditional, under a predicate that normalizes. */
  ghost predicate Judged(v: Value, p: Profile, asked: Predicate) {
    ValidValue(v, p) && v.context.Unconditional? && NormalizePredicate(asked, p).Some?
  }

  /** The normalized query. */
  ghost function QueryOf(p: Profile, asked: Predicate): (q: Predicate)
    requires NormalizePredicate(asked, p).Some?
    ensures WellFormedQuery(q) && q.operator == asked.operator
  {
    NormalizedIsWellFormed(asked, p);
    NormalizePredicate(asked, p).value
  }

  /** The combinations a judged fact can be decided in. */
  predicate Judgeable(role: Role, shape: Shape, o: Operator) {
    || (role.ErrorMagnitude? && shape.BoundClaimShape? && o in {Less, LessEqual})
    || (role.OperatingSupport? && shape in {Scalar, DiscreteSet, IntervalSet}
        && o in {ContainsPoint, ContainsRange, OverlapsRange})
    || (!role.ErrorMagnitude? && shape.Scalar? && o in {Equal, Less, LessEqual, Greater, GreaterEqual, Between})
    || (role.Nominal? && shape.ToleranceShape? && o in {Equal, Less, LessEqual, Greater, GreaterEqual, Between})
    || (role in {MinimumLimit, MaximumLimit, AbsoluteMaximum} && shape.BoundClaimShape?
        && o in {Equal, Less, LessEqual, Greater, GreaterEqual, Between})
  }

  /** Without a judged fact of such a combination the answer is unknown; with one, only a one-sided
      claim can leave it open. */
  lemma UnknownExactly(value: Option<Value>, p: Profile, asked: Predicate)
    ensures value.None? ==> Verdict(value, p, asked) == Unknown
    ensures value.Some? && !(Judged(value.value, p, asked) && Judgeable(p.role, value.value.shape, asked.operator)) ==>
      Verdict(value, p, asked) == Unknown
    ensures value.Some? && Judged(value.value, p, asked) && Judgeable(p.role, value.value.shape, asked.operator)
              && (value.value.shape.BoundClaimShape? ==> p.role.ErrorMagnitude?) ==>
      Verdict(value, p, asked) != Unknown
  {
    hide Canonical, ParseDecimal, Num, ValidProfile, ValidTolerance, CountsOnly, ValidInterval, NormalizePredicate;
    hide Supports, Spans, EvaluateScalar;
    if value.Some? && Judged(value.value, p, asked) {
      NormalizedIsWellFormed(asked, p);
      var v, q := value.value, QueryOf(p, asked);
      if IsComparison(asked.operator) {
        if v.scalar.Some? && IsNumber(v.scalar.value) { ScalarIsExact(v.scalar.value, q); }
        if v.bound.Some? && IsNumber(v.bound.value.value) { ScalarIsExact(v.bound.value.value, q); }
        if v.shape.ToleranceShape? {
          NominalIsNumber(v.tolerance.value);
          ScalarIsExact(v.tolerance.value.nominal, q);
        }
      }
    }
  }

  lemma ScalarPayload(v: Value, p: Profile)
    requires ValidValue(v, p)
    ensures v.shape.Scalar? ==> v.scalar.Some? && IsNumber(v.scalar.value)
    ensures v.shape.ToleranceShape? ==> v.tolerance.Some? && IsNumber(v.tolerance.value.nominal)
    ensures v.shape.BoundClaimShape? ==>
      v.bound.Some? && IsNumber(v.bound.value.value) && !v.bound.value.direction.OtherDirection?
  {
    hide Canonical, ParseDecimal, ValidProfile, CountsOnly, ValidInterval;
  }

  /** A scalar under a comparison matches exactly when its number satisfies the query. */
  lemma ScalarVerdict(v: Value, p: Profile, asked: Predicate)
    requires Judged(v, p, asked) && v.shape.Scalar? && IsComparison(asked.operator) && !p.role.ErrorMagnitude?
    ensures v.scalar.Some? && IsNumber(v.scalar.value)
    ensures Verdict(Some(v), p, asked) == TruthOf(Satisfies(Num(v.scalar.value), QueryOf(p, asked)))
  {
    hide Canonical, ParseDecimal, Num, ValidValue, NormalizePredicate, EvaluateScalar, Satisfies;
    ScalarPayload(v, p);
    NormalizedIsWellFormed(asked, p);
    ScalarIsExact(v.scalar.value, QueryOf(p, asked));
  }

  /** A tolerance of a nominal value is judged by its nominal number. */
  lemma ToleranceVerdict(v: Value, p: Profile, asked: Predicate)
    requires Judged(v, p, asked) && v.shape.ToleranceShape? && IsComparison(asked.operator) && p.role.Nominal?
    ensures v.tolerance.Some? && IsNumber(v.tolerance.value.nominal)
    ensures Verdict(Some(v), p, asked) == TruthOf(Satisfies(Num(v.tolerance.value.nominal), QueryOf(p, asked)))
  {
    hide Canonical, ParseDecimal, Num, ValidValue, NormalizePredicate, EvaluateScalar, Satisfies, ValidTolerance;
    ScalarPayload(v, p);
    NormalizedIsWellFormed(asked, p);
    ScalarIsExact(v.tolerance.value.nominal, QueryOf(p, asked));
  }

  /** An error magnitude is judged by the maximum it claims. */
  lemma ErrorVerdict(v: Value, p: Profile, asked: Predicate)
    requires Judged(v, p, asked) && v.shape.BoundClaimShape? && asked.operator in {Less, LessEqual}
    requires p.role.ErrorMagnitude?
    ensures v.bound.Some? && IsNumber(v.bound.value.value)
    ensures Verdict(Some(v), p, asked) == TruthOf(Satisfies(Num(v.bound.value.value), QueryOf(p, asked)))
  {
    hide Canonical, ParseDecimal, Num, ValidValue, NormalizePredicate, EvaluateScalar, Satisfies;
    ScalarPayload(v, p);
    NormalizedIsWellFormed(asked, p);
    ScalarIsExact(v.bound.value.value, QueryOf(p, asked));
  }

  /** A one-sided claim is never promoted to a value: it matches exactly when every number it allows
      satisfies the query, fails exactly when none does, and in the wrong direction tells nothing. */
  lemma BoundVerdict(v: Value, p: Profile, asked: Predicate)
    requires Judged(v, p, asked) && v.shape.BoundClaimShape? && IsComparison(asked.operator)
    requires p.role in {MinimumLimit, MaximumLimit, AbsoluteMaximum}
    ensures v.bound.Some? && IsNumber(v.bound.value.value)
    ensures v.bound.value.direction.Lower? != p.role.MinimumLimit? ==> Verdict(Some(v), p, asked) == Unknown
    ensures v.bound.value.direction.Lower? == p.role.MinimumLimit? ==>
      (Verdict(Some(v), p, asked) == Match <==>
        forall x :: Allowed(v.bound.value, x) ==> Satisfies(x, QueryOf(p, asked)))
    ensures v.bound.value.direction.Lower? == p.role.MinimumLimit? ==>
      (Verdict(Some(v), p, asked) == NoMatch <==>
        forall x :: Allowed(v.bound.value, x) ==> !Satisfies(x, QueryOf(p, asked)))
  {
    ScalarPayload(v, p);
    BoundIsJudged(v, p, asked);
    hide Canonical, ParseDecimal, Num, ValidValue, NormalizePredicate, EvaluateBound, Satisfies, Allowed, Verdict;
    var b, q := v.bound.value, QueryOf(p, asked);
    if b.direction.Lower? == p.role.MinimumLimit? { BoundIsExact(b, p.role, q); }
  }

  lemma BoundIsJudged(v: Value, p: Profile, asked: Predicate)
    requires Judged(v, p, asked) && v.shape.BoundClaimShape? && IsComparison(asked.operator)
    requires p.role in {MinimumLimit, MaximumLimit, AbsoluteMaximum}
    requires v.bound.Some? && IsNumber(v.bound.value.value) && !v.bound.value.direction.OtherDirection?
    ensures v.bound.value.direction.Lower? == p.role.MinimumLimit? <==>
      DirectionFitsRole(v.bound.value.direction, p.role)
    ensures Verdict(Some(v), p, asked) ==
            if DirectionFitsRole(v.bound.value.direction, p.role)
            then EvaluateBound(v.bound.value, p.role, QueryOf(p, asked))
            else Unknown
  {
    hide Canonical, ParseDecimal, Num, ValidValue, NormalizePredicate, Compare;
    NormalizedIsWellFormed(asked, p);
  }

  /** The fact's set of numbers has x: its scalar, one of its values, or a point of one of its
      intervals, ends as they are stated. */
  ghost predicate States(v: Value, x: real)
    requires IsSupportValue(v)
  {
    match v.shape
    case Scalar => x == Num(v.scalar.value)
    case DiscreteSet => exists k :: 0 <= k < |v.values.value| && Num(v.values.value[k]) == x
    case IntervalSet =>
      exists k :: 0 <= k < |v.intervals.value| && Within(v.intervals.value[k], x)
    case _ => false
  }

  ghost predicate Within(i: Interval, x: real)
    requires ValidInterval(i)
  {
    && (if i.lowerInclusive then Num(i.lower) <= x else Num(i.lower) < x)
    && (if i.upperInclusive then x <= Num(i.upper) else x < Num(i.upper))
  }

  lemma WithinIsHolds(i: Interval, x: real)
    requires ValidInterval(i)
    ensures Within(i, x) <==> Holds(i, x)
  {
    hide Canonical, ParseDecimal, Num;
  }

  lemma PointHolds(d: Decimal, x: real)
    requires IsNumber(d)
    ensures ValidInterval(PointInterval(d)) && (Holds(PointInterval(d), x) <==> x == Num(d))
  {
    hide Canonical, ParseDecimal, Num;
  }

  lemma SpansState(v: Value, x: real)
    requires IsSupportValue(v)
    ensures Covered(Spans(v), x) <==> States(v, x)
  {
    hide Canonical, ParseDecimal, Num, ValidInterval, Holds, Within, PointInterval;
    var points, spans := Points(v), Spans(v);
    var n := |spans| - |points|;
    forall k | 0 <= k < |points| ensures spans[n + k] == PointInterval(points[k]) && IsNumber(points[k])
    {
      assert k == k + n - n;
    }
    forall k | 0 <= k < |points|
      ensures ValidInterval(spans[n + k]) && (Holds(spans[n + k], x) <==> x == Num(points[k]))
    {
      PointHolds(points[k], x);
    }
    forall k | 0 <= k < n ensures v.intervals.Some? && spans[k] == v.intervals.value[k] {}
    forall k | 0 <= k < n ensures Within(spans[k], x) <==> Holds(spans[k], x) { WithinIsHolds(spans[k], x); }
    if Covered(spans, x) {
      var k :| 0 <= k < |spans| && Holds(spans[k], x);
      if k >= n { assert x == Num(points[k - n]); }
    }
    if States(v, x) {
      if v.shape.IntervalSet? {
        var k :| 0 <= k < |v.intervals.value| && Within(v.intervals.value[k], x);
        assert Holds(spans[k], x);
      } else if v.shape.DiscreteSet? {
        var k :| 0 <= k < |v.values.value| && Num(v.values.value[k]) == x;
        assert Holds(spans[n + k], x);
      } else {
        assert Holds(spans[n], x);
      }
    }
  }

  /** The meaning of a support query: a point stated, a whole closed range stated, or a common point. */
  ghost predicate Supported(v: Value, q: Predicate)
    requires IsSupportValue(v) && WellFormedQuery(q) && IsSupport(q.operator)
  {
    match q.operator
    case ContainsPoint => States(v, Num(q.value.value))
    case ContainsRange => forall x :: Num(q.lower.value) <= x <= Num(q.upper.value) ==> States(v, x)
    case OverlapsRange => exists x :: Num(q.lower.value) <= x <= Num(q.upper.value) && States(v, x)
  }

  /** Under a support query the numbers the fact states decide. */
  lemma SupportVerdict(v: Value, p: Profile, asked: Predicate)
    requires Judged(v, p, asked) && v.shape in {Scalar, DiscreteSet, IntervalSet} && p.role.OperatingSupport?
    requires IsSupport(asked.operator)
    ensures IsSupportValue(v) && Verdict(Some(v), p, asked) == TruthOf(Supported(v, QueryOf(p, asked)))
  {
    hide Canonical, ParseDecimal, Num, ValidValue, NormalizePredicate, Spans, IsSupportValue, Covered, States;
    SupportShape(v, p);
    NormalizedIsWellFormed(asked, p);
    forall x ensures Covered(Spans(v), x) <==> States(v, x) { SpansState(v, x); }
  }

  /** The verdict does not depend on the unit a predicate is stated in. */
  lemma VerdictIgnoresUnit(value: Option<Value>, p: Profile, a: Predicate, b: Predicate)
    requires Restates(a, b, p) && NormalizePredicate(a, p).Some? && NormalizePredicate(b, p).Some?
    ensures Verdict(value, p, a) == Verdict(value, p, b)
  {
    hide Canonical, ParseDecimal, Num, ValidProfile, ValidValue, NormalizePredicate, FactVerdict;
    RestatementNormalizesAlike(a, b, p);
    NormalizedIsWellFormed(a, p);
    NormalizedIsWellFormed(b, p);
  }

  /** Conjunction: one failure decides, and only all matches match. */
  function All(results: seq<Truth>): Truth {
    if NoMatch in results then NoMatch
    else if forall k :: 0 <= k < |results| ==> results[k] == Match then Match
    else Unknown
  }

  method AllOf(results: seq<Truth>) returns (result: Truth)
    ensures result == All(results)
  {
    result := Match;
    for k := 0 to |results|
      invariant NoMatch !in results[..k]
      invariant result == if forall j :: 0 <= j < k ==> results[j] == Match then Match else Unknown
    {
      if results[k] == NoMatch { return NoMatch; }
      if results[k] != Match { result := Unknown; }
    }
    assert results[..|results|] == results;
  }
}
