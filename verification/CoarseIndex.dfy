/** The coarse index: per-specification key envelopes of a document, the plan of a predicate, and
    the pre-filter that must never drop a document the exact oracle matches. */
module CoarseIndex {
  import opened Wrappers
  import opened Ordering
  import opened Decimals
  import opened DecimalKeys
  import opened Rationals
  import opened Units
  import opened Profiles
  import opened Values
  import opened Predicates
  import opened Support
  import opened Publications

  /** The keys are empty when there is no bound; a stored key never is. */
  datatype Envelope = Envelope(present: bool, broad: bool, low: string, high: string)

  const NO_ENVELOPE := Envelope(false, false, "", "")

  /** The key of an operand, empty without one. */
  function KeyOf(d: Decimal): string {
    match DecimalKey(d)
    case Success(key) => key
    case Failure(_) => ""
  }

  lemma KeyOfOrder(a: Decimal, b: Decimal)
    requires IsNumber(a) && IsNumber(b)
    ensures KeyOf(a) != "" && KeyOf(b) != ""
    ensures LexLessEq(KeyOf(a), KeyOf(b)) <==> Num(a) <= Num(b)
  {
    hide Canonical, ParseDecimal, Num, DecimalKey, LexLess;
    KeyLength(a);
    KeyLength(b);
    KeyOrder(a, b);
    KeyOrder(b, a);
  }

  /** The numbers a fact is indexed by, or None when it is kept broad. */
  function IndexedNumbers(f: NumericFact): Option<seq<Decimal>> {
    if !f.value.context.Unconditional? then None
    else match f.value.shape
      case Scalar => if f.value.scalar.Some? then Some([f.value.scalar.value]) else None
      case ToleranceShape =>
        if f.profile.role.Nominal? && f.value.tolerance.Some? then Some([f.value.tolerance.value.nominal]) else None
      case DiscreteSet =>
        if f.profile.role.OperatingSupport? && f.value.values.Some? then Some(f.value.values.value) else None
      case IntervalSet =>
        if f.profile.role.OperatingSupport? && f.value.intervals.Some? then Some(Ends(f.value.intervals.value))
        else None
      case _ => None
  }

  /** Both ends of every interval, in order. */
  function Ends(s: seq<Interval>): (r: seq<Decimal>) {
    seq(2 * |s|, k requires 0 <= k < 2 * |s| => if k % 2 == 0 then s[k / 2].lower else s[k / 2].upper)
  }

  lemma EndsAre(s: seq<Interval>)
    ensures forall k :: 0 <= k < |s| ==> s[k].lower in Ends(s) && s[k].upper in Ends(s)
    ensures AllValid(s) ==> AllNumbers(Ends(s))
  {
    hide Canonical, Compare, Num;
    if AllValid(s) {
      forall k | 0 <= k < |Ends(s)| ensures IsNumber(Ends(s)[k]) { assert ValidInterval(s[k / 2]); }
    }
    hide AllValid, ValidInterval;
    forall k | 0 <= k < |s| ensures s[k].lower in Ends(s) && s[k].upper in Ends(s) {
      assert Ends(s)[2 * k] == s[k].lower && Ends(s)[2 * k + 1] == s[k].upper;
    }
  }

  /** One more number widens the envelope; one without a key makes it broad. */
  function Widen(e: Envelope, d: Decimal): Envelope {
    var key := KeyOf(d);
    if DecimalKey(d).Failure? then e.(broad := true)
    else e.(low := if e.low == "" || LexLess(key, e.low) then key else e.low,
            high := if e.high == "" || LexLess(e.high, key) then key else e.high)
  }

  function WidenAll(e: Envelope, numbers: seq<Decimal>): Envelope {
    if numbers == [] then e else Widen(WidenAll(e, numbers[..|numbers| - 1]), numbers[|numbers| - 1])
  }

  function AddFact(e: Envelope, f: NumericFact): Envelope {
    match IndexedNumbers(f)
    case None => e.(broad := true)
    case Some(numbers) => WidenAll(e, numbers)
  }

  /** The envelope of one specification over a document's facts. */
  function EnvelopeOf(specIDs: seq<string>, facts: seq<NumericFact>, id: string): Envelope {
    if facts == [] then Envelope(id in specIDs, false, "", "")
    else
      var n := |facts| - 1;
      var e := EnvelopeOf(specIDs, facts[..n], id);
      if facts[n].specID == id then AddFact(e, facts[n]) else e
  }

  function Lookup(envelopes: map<string, Envelope>, id: string): Envelope {
    if id in envelopes then envelopes[id] else NO_ENVELOPE
  }

  method AddFactNumbers(start: Envelope, f: NumericFact) returns (e: Envelope)
    ensures e == AddFact(start, f)
  {
    hide IndexedNumbers, Widen;
    var numbers := IndexedNumbers(f);
    if numbers.None? { return start.(broad := true); }
    e := start;
    for k := 0 to |numbers.value|
      invariant e == WidenAll(start, numbers.value[..k])
    {
      assert numbers.value[..k + 1][..k] == numbers.value[..k];
      e := Widen(e, numbers.value[k]);
    }
    assert numbers.value[..|numbers.value|] == numbers.value;
  }

  lemma EnvelopeMore(specIDs: seq<string>, facts: seq<NumericFact>, n: nat, id: string)
    requires n < |facts|
    ensures EnvelopeOf(specIDs, facts[..n + 1], id) ==
            if facts[n].specID == id then AddFact(EnvelopeOf(specIDs, facts[..n], id), facts[n])
            else EnvelopeOf(specIDs, facts[..n], id)
  {
    hide AddFact;
    assert facts[..n + 1][..n] == facts[..n];
  }

  method SpecBleveEnvelopes(d: Document) returns (result: map<string, Envelope>)
    ensures forall id :: Lookup(result, id) == EnvelopeOf(d.binding.specIDs, d.facts, id)
    ensures forall id ::
      id in result <==> id in d.binding.specIDs || exists k :: 0 <= k < |d.facts| && d.facts[k].specID == id
  {
    hide AddFact, EnvelopeOf;
    result := map[];
    var ids := d.binding.specIDs;
    for n := 0 to |ids|
      invariant forall id :: id in result <==> id in ids[..n]
      invariant forall id :: id in result ==> result[id] == Envelope(true, false, "", "")
    {
      result := result[ids[n] := Envelope(true, false, "", "")];
      assert ids[..n + 1] == ids[..n] + [ids[n]];
    }
    assert ids[..|ids|] == ids;
    NoFactsYet(ids);
    assert d.facts[..0] == [];
    for n := 0 to |d.facts|
      invariant forall id :: Lookup(result, id) == EnvelopeOf(ids, d.facts[..n], id)
      invariant forall id :: id in result <==> id in ids || exists k :: 0 <= k < n && d.facts[k].specID == id
    {
      var f := d.facts[n];
      var e := AddFactNumbers(Lookup(result, f.specID), f);
      ghost var before := result;
      result := result[f.specID := e];
      forall id ensures Lookup(result, id) == EnvelopeOf(ids, d.facts[..n + 1], id) {
        EnvelopeMore(ids, d.facts, n, id);
        assert Lookup(result, id) == if id == f.specID then e else Lookup(before, id);
      }
    }
    assert d.facts[..|d.facts|] == d.facts;
  }

  lemma NoFactsYet(ids: seq<string>)
    ensures forall id :: EnvelopeOf(ids, [], id) == Envelope(id in ids, false, "", "")
  {
  }

  // ---- envelopes enclose

  ghost predicate AllNumbers(s: seq<Decimal>) { forall k :: 0 <= k < |s| ==> IsNumber(s[k]) }

  /** Every number's key lies in the envelope. */
  ghost predicate Encloses(e: Envelope, d: Decimal) {
    e.low != "" && e.high != "" && LexLessEq(e.low, KeyOf(d)) && LexLessEq(KeyOf(d), e.high)
  }

  lemma WidenEncloses(e: Envelope, d: Decimal, other: Decimal)
    requires IsNumber(d)
    ensures var w := Widen(e, d); w.present == e.present && w.broad == e.broad && Encloses(w, d)
    ensures Encloses(e, other) ==> Encloses(Widen(e, d), other)
  {
    hide Canonical, ParseDecimal, DecimalKey, LexLess;
    KeyLength(d);
    var key := KeyOf(d);
    LexAsymmetric(key, key);
    LexAsymmetric(key, e.low);
    LexAsymmetric(key, e.high);
    if Encloses(e, other) {
      if LexLess(key, e.low) { LexEqTransitive(key, e.low, KeyOf(other)); }
      if LexLess(e.high, key) { LexEqTransitive(KeyOf(other), e.high, key); }
    }
  }

  lemma {:induction false} WidenAllEncloses(e: Envelope, numbers: seq<Decimal>)
    requires AllNumbers(numbers)
    ensures var w := WidenAll(e, numbers); w.present == e.present && w.broad == e.broad
    ensures forall k :: 0 <= k < |numbers| ==> Encloses(WidenAll(e, numbers), numbers[k])
    ensures forall d :: Encloses(e, d) ==> Encloses(WidenAll(e, numbers), d)
  {
    hide Canonical, Widen, Encloses, ParseDecimal;
    if numbers == [] {
    } else {
      var n := |numbers| - 1;
      WidenAllEncloses(e, numbers[..n]);
      var before := WidenAll(e, numbers[..n]);
      forall d { WidenEncloses(before, numbers[n], d); }
      forall k | 0 <= k < |numbers| ensures Encloses(WidenAll(e, numbers), numbers[k]) {
        if k < n { assert numbers[..n][k] == numbers[k]; }
      }
    }
  }

  /** The facts of a document are valid, so their indexed numbers are numbers. */
  lemma IndexedAreNumbers(f: NumericFact)
    requires ValidFact(f) && IndexedNumbers(f).Some?
    ensures AllNumbers(IndexedNumbers(f).value)
  {
    hide Canonical, ParseDecimal, ValidProfile, CountsOnly, Compare, ValidInterval, Ends;
    if f.value.shape.ToleranceShape? { NominalIsNumber(f.value.tolerance.value); }
    if f.value.shape.IntervalSet? {
      var s := f.value.intervals.value;
      assert forall k :: 0 <= k < |s| ==> s[k] in s;
      EndsAre(s);
    }
  }

  /** After a document's facts: presence is membership, any broad fact makes the envelope broad,
      and otherwise every indexed number of every fact is enclosed. */
  lemma {:induction false} EnvelopeEncloses(specIDs: seq<string>, facts: seq<NumericFact>, f: NumericFact)
    requires (forall k :: 0 <= k < |facts| ==> ValidFact(facts[k])) && f in facts
    ensures var e := EnvelopeOf(specIDs, facts, f.specID);
      && (e.present <==> f.specID in specIDs)
      && (IndexedNumbers(f).None? ==> e.broad)
      && (IndexedNumbers(f).Some? ==>
            forall k :: 0 <= k < |IndexedNumbers(f).value| ==> Encloses(e, IndexedNumbers(f).value[k]))
  {
    hide Canonical, ValidFact, IndexedNumbers, Widen, WidenAll, Encloses, ParseDecimal;
    var n := |facts| - 1;
    var last := facts[n];
    var id := f.specID;
    EnvelopePresence(specIDs, facts, id);
    assert forall k :: 0 <= k < n ==> facts[..n][k] == facts[k];
    assert f in facts[..n] || f == last;
    if IndexedNumbers(last).Some? {
      IndexedAreNumbers(last);
      WidenAllEncloses(EnvelopeOf(specIDs, facts[..n], id), IndexedNumbers(last).value);
    }
    if f in facts[..n] { EnvelopeEncloses(specIDs, facts[..n], f); }
    forall d
      ensures Encloses(EnvelopeOf(specIDs, facts[..n], id).(broad := true), d) ==
        Encloses(EnvelopeOf(specIDs, facts[..n], id), d)
    {
      BroadEncloses(EnvelopeOf(specIDs, facts[..n], id), d);
    }
  }

  lemma BroadEncloses(e: Envelope, d: Decimal)
    ensures Encloses(e.(broad := true), d) == Encloses(e, d)
  {
  }

  lemma {:induction false} EnvelopePresence(specIDs: seq<string>, facts: seq<NumericFact>, id: string)
    ensures EnvelopeOf(specIDs, facts, id).present <==> id in specIDs
  {
    hide IndexedNumbers, Widen;
    if facts == [] {
    } else {
      var n := |facts| - 1;
      EnvelopePresence(specIDs, facts[..n], id);
      if IndexedNumbers(facts[n]).Some? {
        WidenKeepsPresence(EnvelopeOf(specIDs, facts[..n], id), IndexedNumbers(facts[n]).value);
      }
    }
  }

  lemma {:induction false} WidenKeepsPresence(e: Envelope, numbers: seq<Decimal>)
    ensures WidenAll(e, numbers).present == e.present
  {
    hide DecimalKey, KeyOf;
    if numbers == [] {
    } else {
      WidenKeepsPresence(e, numbers[..|numbers| - 1]);
    }
  }

  /** A number of some fact of the specification whose key is the given one. */
  ghost predicate HasKey(facts: seq<NumericFact>, id: string, key: string) {
    exists i, k :: 0 <= i < |facts| && facts[i].specID == id && IndexedNumbers(facts[i]).Some?
      && 0 <= k < |IndexedNumbers(facts[i]).value| && KeyOf(IndexedNumbers(facts[i]).value[k]) == key
  }

  ghost predicate KeyAmong(numbers: seq<Decimal>, key: string) {
    exists k :: 0 <= k < |numbers| && KeyOf(numbers[k]) == key
  }

  lemma KeyAmongMore(numbers: seq<Decimal>, key: string)
    requires numbers != [] && (KeyAmong(numbers[..|numbers| - 1], key) || KeyOf(numbers[|numbers| - 1]) == key)
    ensures KeyAmong(numbers, key)
  {
    hide KeyOf;
    if KeyAmong(numbers[..|numbers| - 1], key) {
      var k :| 0 <= k < |numbers| - 1 && KeyOf(numbers[..|numbers| - 1][k]) == key;
      assert KeyOf(numbers[k]) == key;
    }
  }

  lemma {:induction false} WidenAllAttains(e: Envelope, numbers: seq<Decimal>)
    ensures WidenAll(e, numbers).low == e.low || KeyAmong(numbers, WidenAll(e, numbers).low)
    ensures WidenAll(e, numbers).high == e.high || KeyAmong(numbers, WidenAll(e, numbers).high)
  {
    hide Canonical, DecimalKey, KeyOf, KeyAmong, LexLess, ParseDecimal;
    if numbers == [] {
    } else {
      var n := |numbers| - 1;
      WidenAllAttains(e, numbers[..n]);
      var w := WidenAll(e, numbers);
      if w.low != e.low { KeyAmongMore(numbers, w.low); }
      if w.high != e.high { KeyAmongMore(numbers, w.high); }
    }
  }

  lemma HasKeyMore(facts: seq<NumericFact>, n: nat, id: string, key: string)
    requires n <= |facts| && HasKey(facts[..n], id, key)
    ensures HasKey(facts, id, key)
  {
    hide IndexedNumbers, KeyOf;
    var i, k :| 0 <= i < n && facts[..n][i].specID == id && IndexedNumbers(facts[..n][i]).Some?
      && 0 <= k < |IndexedNumbers(facts[..n][i]).value| && KeyOf(IndexedNumbers(facts[..n][i]).value[k]) == key;
    assert facts[i] == facts[..n][i];
  }

  /** An envelope is no wider than its facts: both ends are keys of indexed numbers. */
  lemma {:induction false} EnvelopeIsAttained(specIDs: seq<string>, facts: seq<NumericFact>, id: string)
    ensures var e := EnvelopeOf(specIDs, facts, id);
      && (e.low != "" ==> HasKey(facts, id, e.low))
      && (e.high != "" ==> HasKey(facts, id, e.high))
  {
    hide IndexedNumbers, KeyOf, Widen, HasKey;
    if facts == [] {
    } else {
      var n := |facts| - 1;
      EnvelopeIsAttained(specIDs, facts[..n], id);
      var before, e := EnvelopeOf(specIDs, facts[..n], id), EnvelopeOf(specIDs, facts, id);
      if before.low != "" { HasKeyMore(facts, n, id, before.low); }
      if before.high != "" { HasKeyMore(facts, n, id, before.high); }
      if facts[n].specID == id && IndexedNumbers(facts[n]).Some? {
        var numbers := IndexedNumbers(facts[n]).value;
        WidenAllAttains(before, numbers);
        if e.low != before.low { LastHasKey(facts, id, e.low); }
        if e.high != before.high { LastHasKey(facts, id, e.high); }
      }
    }
  }

  lemma LastHasKey(facts: seq<NumericFact>, id: string, key: string)
    requires facts != [] && facts[|facts| - 1].specID == id && IndexedNumbers(facts[|facts| - 1]).Some?
    requires KeyAmong(IndexedNumbers(facts[|facts| - 1]).value, key)
    ensures HasKey(facts, id, key)
  {
    hide IndexedNumbers, KeyOf;
    var numbers := IndexedNumbers(facts[|facts| - 1]).value;
    var k :| 0 <= k < |numbers| && KeyOf(numbers[k]) == key;
  }

  // ---- plans

  datatype Plan = Plan(id: string, lowMax: string, highMin: string)

  function OperandKey(d: Option<Decimal>): string { if d.None? then "" else KeyOf(d.value) }

  /** All definitions of a specification in a document: its own, then those of its facts. */
  function DocumentDefinitions(d: Document, id: string): seq<NumericDefinition> {
    OfSpec(d.definitions, id) + OfSpec(FactDefinitions(d.facts), id)
  }

  function FactDefinitions(facts: seq<NumericFact>): seq<NumericDefinition> {
    seq(|facts|, k requires 0 <= k < |facts| => DefinitionOf(facts[k]))
  }

  function OfSpec(definitions: seq<NumericDefinition>, id: string): (r: seq<NumericDefinition>)
    ensures forall d :: d in r <==> d in definitions && d.specID == id
  {
    if definitions == [] then []
    else
      var n := |definitions| - 1;
      var r := OfSpec(definitions[..n], id);
      assert definitions == definitions[..n] + [definitions[n]];
      if definitions[n].specID == id then r + [definitions[n]] else r
  }

  function AllDefinitions(docs: seq<Document>, id: string): seq<NumericDefinition> {
    if docs == [] then []
    else AllDefinitions(docs[..|docs| - 1], id) + DocumentDefinitions(docs[|docs| - 1], id)
  }

  /** All later definitions agree with the first. */
  predicate Agree(definitions: seq<NumericDefinition>) {
    forall k :: 1 <= k < |definitions| ==> CompatibleDefinitions(definitions[0], definitions[k])
  }

  /** The key bounds a normalized query puts on an envelope. */
  function BoundsOf(id: string, q: Predicate): Plan {
    match q.operator
    case Equal => Plan(id, OperandKey(q.value), OperandKey(q.value))
    case ContainsPoint => Plan(id, OperandKey(q.value), OperandKey(q.value))
    case ContainsRange => Plan(id, OperandKey(q.lower), OperandKey(q.upper))
    case Between => Plan(id, OperandKey(q.upper), OperandKey(q.lower))
    case OverlapsRange => Plan(id, OperandKey(q.upper), OperandKey(q.lower))
    case Less => Plan(id, OperandKey(q.value), "")
    case LessEqual => Plan(id, OperandKey(q.value), "")
    case Greater => Plan(id, "", OperandKey(q.value))
    case GreaterEqual => Plan(id, "", OperandKey(q.value))
    case OtherOperator(_) => Plan(id, "", "")
  }

  function PlanFrom(definitions: seq<NumericDefinition>, p: Predicate): Plan {
    if definitions == [] || !Agree(definitions) then Plan(p.specID, "", "")
    else match NormalizePredicate(p, definitions[0].profile)
      case None => Plan(p.specID, "", "")
      case Some(q) => BoundsOf(p.specID, q)
  }

  function PlanOf(docs: seq<Document>, p: Predicate): Plan { PlanFrom(AllDefinitions(docs, p.specID), p) }

  function PlansOf(docs: seq<Document>, predicates: seq<Predicate>): seq<Plan> {
    seq(|predicates|, k requires 0 <= k < |predicates| => PlanOf(docs, predicates[k]))
  }

  /** What the inner loops know after some definitions of the specification. */
  ghost predicate Gathered(seen: seq<NumericDefinition>, definition: Option<NumericDefinition>, compatible: bool) {
    && (definition.None? <==> seen == [])
    && (definition.Some? ==> definition.value == seen[0])
    && compatible == Agree(seen)
  }

  lemma AgreeEmpty()
    ensures Agree([])
  {
  }

  lemma AgreeMore(seen: seq<NumericDefinition>, d: NumericDefinition)
    ensures Agree(seen + [d]) <==> Agree(seen) && (seen != [] ==> CompatibleDefinitions(seen[0], d))
  {
    hide CompatibleDefinitions;
    var more := seen + [d];
    if seen != [] {
      assert more[0] == seen[0] && more[|seen|] == d;
      assert forall k :: 1 <= k < |seen| ==> more[k] == seen[k];
    }
  }

  method GatherMore(defs: seq<NumericDefinition>, id: string, definition0: Option<NumericDefinition>, compatible0: bool,
                    ghost seen: seq<NumericDefinition>)
    returns (definition: Option<NumericDefinition>, compatible: bool)
    requires Gathered(seen, definition0, compatible0)
    ensures Gathered(seen + OfSpec(defs, id), definition, compatible)
  {
    hide CompatibleDefinitions, Agree;
    definition, compatible := definition0, compatible0;
    assert seen + OfSpec(defs[..0], id) == seen;
    for j := 0 to |defs|
      invariant Gathered(seen + OfSpec(defs[..j], id), definition, compatible)
    {
      assert defs[..j + 1][..j] == defs[..j];
      var def := defs[j];
      ghost var sofar := seen + OfSpec(defs[..j], id);
      assert seen + OfSpec(defs[..j + 1], id) == if def.specID == id then sofar + [def] else sofar;
      if def.specID == id {
        AgreeMore(sofar, def);
        if definition.None? { definition := Some(def); }
        else if !CompatibleDefinitions(definition.value, def) { compatible := false; }
      }
    }
    assert defs[..|defs|] == defs;
  }

  method GatherDefinitions(docs: seq<Document>,
                           id: string) returns (definition: Option<NumericDefinition>, compatible: bool)
    ensures Gathered(AllDefinitions(docs, id), definition, compatible)
  {
    hide CompatibleDefinitions, Agree, OfSpec;
    definition, compatible := None, true;
    AgreeEmpty();
    for i := 0 to |docs|
      invariant Gathered(AllDefinitions(docs[..i], id), definition, compatible)
    {
      var d := docs[i];
      OfSpecConcat(d.definitions, FactDefinitions(d.facts), id);
      assert docs[..i + 1][..i] == docs[..i];
      definition, compatible := GatherMore(d.definitions + FactDefinitions(d.facts), id, definition, compatible,
                                           AllDefinitions(docs[..i], id));
    }
    assert docs[..|docs|] == docs;
  }

  lemma {:induction false} OfSpecConcat(a: seq<NumericDefinition>, b: seq<NumericDefinition>, id: string)
    ensures OfSpec(a + b, id) == OfSpec(a, id) + OfSpec(b, id)
  {
    if b == [] {
      assert a + b == a;
    } else {
      var n := |b| - 1;
      OfSpecConcat(a, b[..n], id);
      assert (a + b)[..|a + b| - 1] == a + b[..n];
    }
  }

  method SpecBlevePlan(docs: seq<Document>, p: Predicate) returns (plan: Plan)
    ensures plan == PlanOf(docs, p)
  {
    hide NormalizePredicate, AllDefinitions, Agree, BoundsOf;
    var definition, compatible := GatherDefinitions(docs, p.specID);
    if definition.None? || !compatible { return Plan(p.specID, "", ""); }
    var normalized := NormalizePredicate(p, definition.value.profile);
    if normalized.None? { return Plan(p.specID, "", ""); }
    return BoundsOf(p.specID, normalized.value);
  }

  method SpecBlevePlans(docs: seq<Document>, predicates: seq<Predicate>) returns (plans: seq<Plan>)
    ensures plans == PlansOf(docs, predicates)
  {
    hide PlanOf;
    plans := [];
    for n := 0 to |predicates|
      invariant |plans| == n
      invariant forall k :: 0 <= k < n ==> plans[k] == PlanOf(docs, predicates[k])
    {
      var plan := SpecBlevePlan(docs, predicates[n]);
      plans := plans + [plan];
    }
  }

  // ---- the pre-filter

  predicate Admits(e: Envelope, p: Plan) {
    && e.present
    && (e.broad ||
        (&& (p.lowMax != "" ==> e.low != "" && LexLessEq(e.low, p.lowMax))
         && (p.highMin != "" ==> e.high != "" && LexLessEq(p.highMin, e.high))))
  }

  predicate CoarseMatch(d: Document, plans: seq<Plan>) {
    forall k :: 0 <= k < |plans| ==> Admits(EnvelopeOf(d.binding.specIDs, d.facts, plans[k].id), plans[k])
  }

  method SpecBleveCoarseMatch(d: Document, plans: seq<Plan>) returns (r: bool)
    ensures r == CoarseMatch(d, plans)
  {
    hide EnvelopeOf, LexLess;
    var envelopes := SpecBleveEnvelopes(d);
    for n := 0 to |plans|
      invariant forall k :: 0 <= k < n ==> Admits(EnvelopeOf(d.binding.specIDs, d.facts, plans[k].id), plans[k])
    {
      var p := plans[n];
      var e := Lookup(envelopes, p.id);
      if !e.present { return false; }
      if e.broad { continue; }
      if p.lowMax != "" && (e.low == "" || LexLess(p.lowMax, e.low)) { return false; }
      if p.highMin != "" && (e.high == "" || LexLess(e.high, p.highMin)) { return false; }
    }
    return true;
  }

  // ---- no false negatives

  /** Profiles that compare equal as sets normalize a predicate alike. */
  lemma CompatibleNormalizeAlike(a: Profile, b: Profile, p: Predicate)
    requires ValidProfile(a) && ValidProfile(b) && Normalized(a) == Normalized(b)
    ensures NormalizePredicate(p, a) == NormalizePredicate(p, b)
  {
    hide Canonical, ParseDecimal, Num, ValidProfile, Convert, Compatible;
    SameFields(a, b);
    forall s ensures s in a.shapes <==> s in b.shapes {
      assert s in Normalized(a).shapes <==> s in a.shapes;
      assert s in Normalized(b).shapes <==> s in b.shapes;
    }
    forall o ensures o in a.operators <==> o in b.operators {
      assert o in Normalized(a).operators <==> o in a.operators;
      assert o in Normalized(b).operators <==> o in b.operators;
    }
    ConvertAlike(p.value, p.unit, a, b);
    ConvertAlike(p.lower, p.unit, a, b);
    ConvertAlike(p.upper, p.unit, a, b);
  }

  lemma ConvertAlike(d: Option<Decimal>, unit: string, a: Profile, b: Profile)
    requires ValidProfile(a) && ValidProfile(b)
    requires a.(shapes := [], operators := []) == b.(shapes := [], operators := [])
    ensures ConvertOperand(d, unit, a) == ConvertOperand(d, unit, b)
  {
    hide Canonical, ParseDecimal, Num, ValidProfile, RatOf, RatMul, DecimalFromRat, Registry, UnitFactor;
    assert a.declaredInputUnit == b.declaredInputUnit && a.registryVersion == b.registryVersion
        && a.quantity == b.quantity && a.canonicalUnit == b.canonicalUnit;
  }

  lemma SameFields(a: Profile, b: Profile)
    requires Normalized(a) == Normalized(b)
    ensures a.(shapes := [], operators := []) == b.(shapes := [], operators := [])
  {
  }

  /** A document as the index holds it: valid facts, and the identifiers of exactly those. */
  ghost predicate CanonicalDocument(d: Document) {
    && (forall k :: 0 <= k < |d.definitions| ==> ValidDefinition(d.definitions[k]))
    && (forall k :: 0 <= k < |d.facts| ==> ValidFact(d.facts[k]))
    && d.binding.specIDs == ProjectionIDs(d.facts)
  }

  lemma DocumentOfIsCanonical(a: Activation)
    requires Indexable(a)
    ensures CanonicalDocument(DocumentOf(a))
  {
    hide ValidFact, ValidDefinition, ProjectionIDs;
  }

  /** Some indexed number at or below, and some at or above, what a matched query bounds. */
  ghost predicate ReachesDown(numbers: seq<Decimal>, x: real) {
    exists k :: 0 <= k < |numbers| && IsNumber(numbers[k]) && Num(numbers[k]) <= x
  }

  ghost predicate ReachesUp(numbers: seq<Decimal>, x: real) {
    exists k :: 0 <= k < |numbers| && IsNumber(numbers[k]) && x <= Num(numbers[k])
  }

  ghost function SpanNumbers(s: seq<Interval>, numbers: seq<Decimal>): bool {
    forall k :: 0 <= k < |s| ==> s[k].lower in numbers && s[k].upper in numbers
  }

  lemma CoveredReaches(s: seq<Interval>, numbers: seq<Decimal>, x: real)
    requires AllValid(s) && AllNumbers(numbers) && SpanNumbers(s, numbers) && Covered(s, x)
    ensures ReachesDown(numbers, x) && ReachesUp(numbers, x)
  {
    hide Canonical, ParseDecimal, Num;
    var k :| 0 <= k < |s| && Holds(s[k], x);
    var i :| 0 <= i < |numbers| && numbers[i] == s[k].lower;
    var j :| 0 <= j < |numbers| && numbers[j] == s[k].upper;
    assert Num(numbers[i]) <= x <= Num(numbers[j]);
  }

  lemma SpansIndexed(f: NumericFact)
    requires ValidFact(f) && IsSupportValue(f.value) && IndexedNumbers(f).Some?
    ensures SpanNumbers(Spans(f.value), IndexedNumbers(f).value)
  {
    hide Canonical, ParseDecimal, Num, ValidProfile, CountsOnly, ValidTolerance, Compare;
    var s := Spans(f.value);
    var points := Points(f.value);
    forall k | 0 <= k < |s| ensures s[k].lower in IndexedNumbers(f).value && s[k].upper in IndexedNumbers(f).value {
      if f.value.shape.IntervalSet? {
        EndsAre(f.value.intervals.value);
        assert points == [] && s == f.value.intervals.value;
      } else {
        assert s[k] == PointInterval(points[k]);
      }
    }
  }

  /** What each operator's match says about the indexed numbers, in real terms. */
  lemma MatchReaches(f: NumericFact, q: Predicate)
    requires ValidFact(f) && IndexedNumbers(f).Some? && f.value.context.Unconditional?
    requires WellFormedQuery(q) && Compatible(f.profile.role, f.value.shape, q.operator)
    requires FactVerdict(f.value, f.profile, q) == Match
    ensures var n := IndexedNumbers(f).value;
      match q.operator
      case Equal => ReachesDown(n, Num(q.value.value)) && ReachesUp(n, Num(q.value.value))
      case ContainsPoint => ReachesDown(n, Num(q.value.value)) && ReachesUp(n, Num(q.value.value))
      case ContainsRange => ReachesDown(n, Num(q.lower.value)) && ReachesUp(n, Num(q.upper.value))
      case Between => ReachesDown(n, Num(q.upper.value)) && ReachesUp(n, Num(q.lower.value))
      case OverlapsRange => ReachesDown(n, Num(q.upper.value)) && ReachesUp(n, Num(q.lower.value))
      case Less => ReachesDown(n, Num(q.value.value))
      case LessEqual => ReachesDown(n, Num(q.value.value))
      case Greater => ReachesUp(n, Num(q.value.value))
      case GreaterEqual => ReachesUp(n, Num(q.value.value))
      case OtherOperator(_) => true
  {
    hide Canonical, ParseDecimal, Num, FactVerdict, ValidFact, IndexedNumbers, Compatible;
    var n := IndexedNumbers(f).value;
    if IsSupport(q.operator) {
      SupportReaches(f, q);
    } else {
      ComparisonReaches(f, q);
      assert n[0] == n[0] && IsNumber(n[0]) && Satisfies(Num(n[0]), q);
    }
  }

  lemma SupportReaches(f: NumericFact, q: Predicate)
    requires ValidFact(f) && IndexedNumbers(f).Some? && WellFormedQuery(q) && IsSupport(q.operator)
    requires Compatible(f.profile.role, f.value.shape, q.operator) && FactVerdict(f.value, f.profile, q) == Match
    ensures var n := IndexedNumbers(f).value;
      var down := if q.operator.ContainsPoint? then q.value.value
        else if q.operator.ContainsRange? then q.lower.value
        else q.upper.value;
      var up := if q.operator.ContainsPoint? then q.value.value
        else if q.operator.ContainsRange? then q.upper.value
        else q.lower.value;
      ReachesDown(n, Num(down)) && ReachesUp(n, Num(up))
  {
    hide Canonical, ParseDecimal, Num, ValidFact, IndexedNumbers, ValidValue, ValidPayload, Spans, IsSupportValue;
    hide Covered;
    IndexedAreNumbers(f);
    FactIsValue(f);
    SupportShape(f.value, f.profile);
    SpansIndexed(f);
    var n, s := IndexedNumbers(f).value, Spans(f.value);
    assert Supports(s, q);
    if q.operator.ContainsPoint? {
      CoveredReaches(s, n, Num(q.value.value));
    } else if q.operator.ContainsRange? {
      CoveredReaches(s, n, Num(q.lower.value));
      CoveredReaches(s, n, Num(q.upper.value));
    } else {
      var x :| Num(q.lower.value) <= x <= Num(q.upper.value) && Covered(s, x);
      CoveredReaches(s, n, x);
    }
  }

  lemma FactIsValue(f: NumericFact)
    requires ValidFact(f)
    ensures ValidValue(f.value, f.profile)
  {
  }

  lemma ComparisonReaches(f: NumericFact, q: Predicate)
    requires ValidFact(f) && IndexedNumbers(f).Some? && WellFormedQuery(q) && !IsSupport(q.operator)
    requires Compatible(f.profile.role, f.value.shape, q.operator) && FactVerdict(f.value, f.profile, q) == Match
    ensures IsComparison(q.operator)
    ensures exists d: Decimal :: IndexedNumbers(f).value == [d] && IsNumber(d) && Satisfies(Num(d), q)
  {
    hide Canonical, ParseDecimal, Num, ValidProfile, CountsOnly, Compare, EvaluateScalar, Satisfies, WellFormedQuery;
    hide ToleranceAmount, LowerEnd, UpperEnd;
    IndexedAreNumbers(f);
    var d := IndexedNumbers(f).value[0];
    ScalarIsExact(d, q);
  }

  lemma {:induction false} InAllDefinitions(docs: seq<Document>, d: Document, f: NumericFact)
    requires d in docs && f in d.facts
    ensures DefinitionOf(f) in AllDefinitions(docs, f.specID)
  {
    hide OfSpec;
    var n := |docs| - 1;
    if d == docs[n] {
      var k :| 0 <= k < |d.facts| && d.facts[k] == f;
      assert FactDefinitions(d.facts)[k] == DefinitionOf(f);
      assert DefinitionOf(f) in OfSpec(FactDefinitions(d.facts), f.specID);
    } else {
      assert d in docs[..n];
      InAllDefinitions(docs[..n], d, f);
    }
  }

  lemma {:induction false} AllDefinitionsValid(docs: seq<Document>, id: string)
    requires forall k :: 0 <= k < |docs| ==> CanonicalDocument(docs[k])
    ensures forall x :: x in AllDefinitions(docs, id) ==> ValidProfile(x.profile)
  {
    hide ValidProfile, ValidValue;
    if docs == [] {
    } else {
      var n := |docs| - 1;
      AllDefinitionsValid(docs[..n], id);
      var d := docs[n];
      forall x | x in DocumentDefinitions(d, id) ensures ValidProfile(x.profile) {
        if x in d.definitions {
          var k :| 0 <= k < |d.definitions| && d.definitions[k] == x;
        } else {
          assert x in FactDefinitions(d.facts);
          var k :| 0 <= k < |d.facts| && DefinitionOf(d.facts[k]) == x;
        }
      }
    }
  }

  /** A plan with bounds comes from normalizing the predicate as each of its facts would. */
  lemma PlanIsOfFact(docs: seq<Document>, d: Document, f: NumericFact, p: Predicate)
    requires forall k :: 0 <= k < |docs| ==> CanonicalDocument(docs[k])
    requires d in docs && f in d.facts && f.specID == p.specID
    ensures PlanOf(docs, p) == Plan(p.specID, "", "")
         || (&& NormalizePredicate(p, f.profile).Some?
             && PlanOf(docs, p) == BoundsOf(p.specID, NormalizePredicate(p, f.profile).value))
  {
    hide Canonical, ParseDecimal, ValidProfile, NormalizePredicate, AllDefinitions, BoundsOf, Normalized;
    hide CanonicalDocument;
    var defs := AllDefinitions(docs, p.specID);
    InAllDefinitions(docs, d, f);
    AllDefinitionsValid(docs, p.specID);
    var k :| 0 <= k < |defs| && defs[k] == DefinitionOf(f);
    if Agree(defs) {
      assert k > 0 ==> CompatibleDefinitions(defs[0], defs[k]);
      assert defs[0] in defs && defs[k] in defs;
      CompatibleNormalizeAlike(defs[0].profile, f.profile, p);
    }
  }

  /** Enclosed numbers that reach down and up satisfy the bounds. */
  lemma ReachIsWithin(e: Envelope, numbers: seq<Decimal>, x: Decimal)
    requires IsNumber(x) && forall k :: 0 <= k < |numbers| ==> Encloses(e, numbers[k])
    ensures ReachesDown(numbers, Num(x)) ==> e.low != "" && LexLessEq(e.low, KeyOf(x))
    ensures ReachesUp(numbers, Num(x)) ==> e.high != "" && LexLessEq(KeyOf(x), e.high)
  {
    hide Canonical, ParseDecimal, Num, KeyOf, LexLessEq;
    if ReachesDown(numbers, Num(x)) {
      var k :| 0 <= k < |numbers| && IsNumber(numbers[k]) && Num(numbers[k]) <= Num(x);
      KeyOfOrder(numbers[k], x);
      LexEqTransitive(e.low, KeyOf(numbers[k]), KeyOf(x));
    }
    if ReachesUp(numbers, Num(x)) {
      var k :| 0 <= k < |numbers| && IsNumber(numbers[k]) && Num(x) <= Num(numbers[k]);
      KeyOfOrder(x, numbers[k]);
      LexEqTransitive(KeyOf(x), KeyOf(numbers[k]), e.high);
    }
  }

  lemma MatchIsAdmitted(e: Envelope, f: NumericFact, q: Predicate)
    requires ValidFact(f) && IndexedNumbers(f).Some? && f.value.context.Unconditional?
    requires WellFormedQuery(q) && Compatible(f.profile.role, f.value.shape, q.operator)
    requires FactVerdict(f.value, f.profile, q) == Match && e.present
    requires forall k :: 0 <= k < |IndexedNumbers(f).value| ==> Encloses(e, IndexedNumbers(f).value[k])
    ensures Admits(e, BoundsOf(f.specID, q))
  {
    hide Canonical, ParseDecimal, Num, KeyOf, LexLessEq, ReachesDown, ReachesUp, Encloses, IndexedNumbers, ValidFact;
    hide FactVerdict, Compatible;
    MatchReaches(f, q);
    var n := IndexedNumbers(f).value;
    if q.value.Some? { ReachIsWithin(e, n, q.value.value); }
    if q.lower.Some? { ReachIsWithin(e, n, q.lower.value); }
    if q.upper.Some? { ReachIsWithin(e, n, q.upper.value); }
  }

  /** One predicate: a matching document is admitted by its plan. */
  lemma MatchedPredicateAdmits(docs: seq<Document>, d: Document, p: Predicate)
    requires forall k :: 0 <= k < |docs| ==> CanonicalDocument(docs[k])
    requires d in docs && PredicateTruth(d.definitions, d.facts, p) == Match
    ensures Admits(EnvelopeOf(d.binding.specIDs, d.facts, p.specID), PlanOf(docs, p))
  {
    hide Canonical, ParseDecimal, Num, ValidFact, IndexedNumbers, FactVerdict, Compatible, NormalizePredicate;
    hide CompatibleDefinitions, EnvelopeOf, PlanOf, BoundsOf, ProjectionIDs, Encloses, LexLess, WellFormedQuery;
    hide ValidValue, ValidProfile;
    var def := FindDefinition(d.definitions, p.specID).value;
    var f := FindFact(d.facts, def).value;
    assert Verdict(Some(f.value), f.profile, p) == Match;
    var i :| 0 <= i < |docs| && docs[i] == d;
    assert CanonicalDocument(docs[i]);
    var j :| 0 <= j < |d.facts| && d.facts[j] == f;
    assert ValidFact(d.facts[j]);
    FactProjects(f);
    ProjectionIDsAre(d.facts, p.specID);
    EnvelopeEncloses(d.binding.specIDs, d.facts, f);
    PlanIsOfFact(docs, d, f, p);
    NormalizedIsWellFormed(p, f.profile);
    var e := EnvelopeOf(d.binding.specIDs, d.facts, p.specID);
    if IndexedNumbers(f).Some? { MatchIsAdmitted(e, f, NormalizePredicate(p, f.profile).value); }
  }

  lemma FactProjects(f: NumericFact)
    requires ValidFact(f)
    ensures ProjectsFact(f)
  {
  }

  /** The pre-filter never drops a match: whatever documents share the index, whatever profile
      conflicts there are between them, and whatever the shapes, operators and units. */
  lemma NoFalseNegatives(docs: seq<Document>, d: Document, predicates: seq<Predicate>)
    requires forall k :: 0 <= k < |docs| ==> CanonicalDocument(docs[k])
    requires d in docs && ViewTruth(d.definitions, d.facts, predicates) == Match
    ensures CoarseMatch(d, PlansOf(docs, predicates))
  {
    hide PredicateTruth, PlanOf, EnvelopeOf, Admits, CanonicalDocument, ViewTruth;
    ViewMatchesAll(d.definitions, d.facts, predicates);
    forall k | 0 <= k < |predicates|
      ensures Admits(EnvelopeOf(d.binding.specIDs, d.facts, PlanOf(docs, predicates[k]).id),
                     PlanOf(docs, predicates[k]))
    {
      MatchedPredicateAdmits(docs, d, predicates[k]);
      PlanID(docs, predicates[k]);
    }
  }

  lemma PlanID(docs: seq<Document>, p: Predicate)
    ensures PlanOf(docs, p).id == p.specID
  {
    hide NormalizePredicate, Agree, OperandKey, AllDefinitions;
  }

  // ---- what is filtered out

  predicate OnSide(above: bool, y: real, x: real) { if above then y > x else y < x }

  /** The fact says something in numbers only, and all of them lie on one side of x. */
  ghost predicate Beyond(f: NumericFact, above: bool, x: real)
    requires ValidFact(f)
  {
    var v := f.value;
    FactIsValue(f);
    PayloadNumbers(f);
    && v.context.Unconditional?
    && match v.shape
       case Scalar => OnSide(above, Num(v.scalar.value), x)
       case ToleranceShape => f.profile.role.Nominal? && OnSide(above, Num(v.tolerance.value.nominal), x)
       case DiscreteSet =>
         f.profile.role.OperatingSupport? && forall k :: 0 <= k < |v.values.value| ==>
           OnSide(above, Num(v.values.value[k]), x)
       case IntervalSet =>
         f.profile.role.OperatingSupport? && forall k :: 0 <= k < |v.intervals.value| ==>
           OnSide(above, Num(v.intervals.value[k].lower), x) && OnSide(above, Num(v.intervals.value[k].upper), x)
       case _ => false
  }

  lemma PayloadNumbers(f: NumericFact)
    requires ValidFact(f)
    ensures var v := f.value;
      match v.shape
      case Scalar => v.scalar.Some? && IsNumber(v.scalar.value)
      case ToleranceShape => v.tolerance.Some? && IsNumber(v.tolerance.value.nominal)
      case DiscreteSet =>
        v.values.Some? && v.values.value != [] && forall k :: 0 <= k < |v.values.value| ==> IsNumber(v.values.value[k])
      case IntervalSet =>
        v.intervals.Some? && v.intervals.value != [] && forall k :: 0 <= k < |v.intervals.value| ==>
          IsNumber(v.intervals.value[k].lower) && IsNumber(v.intervals.value[k].upper)
      case _ => true
  {
    hide Canonical, ParseDecimal, Num, ValidProfile, CountsOnly, Compare;
    if f.value.shape.ToleranceShape? { NominalIsNumber(f.value.tolerance.value); }
    if f.value.shape.IntervalSet? {
      var s := f.value.intervals.value;
      assert forall k :: 0 <= k < |s| ==> s[k] in s && ValidInterval(s[k]);
    }
  }

  ghost predicate AllOnSide(numbers: seq<Decimal>, above: bool, x: real) {
    forall k :: 0 <= k < |numbers| ==> IsNumber(numbers[k]) && OnSide(above, Num(numbers[k]), x)
  }

  lemma BeyondIsIndexed(f: NumericFact, above: bool, x: real)
    requires ValidFact(f) && Beyond(f, above, x)
    ensures IndexedNumbers(f).Some? && AllOnSide(IndexedNumbers(f).value, above, x)
  {
    hide Canonical, ParseDecimal, Num, ValidFact;
    PayloadNumbers(f);
    if f.value.shape.IntervalSet? {
      var s := f.value.intervals.value;
      forall k | 0 <= k < |Ends(s)| ensures IsNumber(Ends(s)[k]) && OnSide(above, Num(Ends(s)[k]), x) {
        assert Ends(s)[k] == if k % 2 == 0 then s[k / 2].lower else s[k / 2].upper;
      }
    }
  }

  /** The end of the query that numbers beyond it must miss: above it, or below it. */
  ghost predicate Misses(q: Predicate, above: bool, x: Decimal) {
    match q.operator
    case Equal => q.value == Some(x)
    case ContainsPoint => q.value == Some(x)
    case Between => (if above then q.upper else q.lower) == Some(x)
    case OverlapsRange => (if above then q.upper else q.lower) == Some(x)
    case ContainsRange => (if above then q.lower else q.upper) == Some(x)
    case Less => above && q.value == Some(x)
    case LessEqual => above && q.value == Some(x)
    case Greater => !above && q.value == Some(x)
    case GreaterEqual => !above && q.value == Some(x)
    case OtherOperator(_) => false
  }

  /** Every document gives the specification the one meaning. */
  ghost predicate OneMeaningIn(docs: seq<Document>, def: NumericDefinition) {
    forall i :: 0 <= i < |docs| ==>
      && (forall k :: 0 <= k < |docs[i].definitions| && docs[i].definitions[k].specID == def.specID ==>
            CompatibleDefinitions(docs[i].definitions[k], def))
      && (forall k :: 0 <= k < |docs[i].facts| && docs[i].facts[k].specID == def.specID ==>
            SharesMeaning(docs[i].facts[k], def))
  }

  lemma {:induction false} OneMeaningAgrees(docs: seq<Document>, def: NumericDefinition)
    requires OneMeaningIn(docs, def)
    ensures forall x :: x in AllDefinitions(docs, def.specID) ==> CompatibleDefinitions(x, def)
  {
    hide CompatibleDefinitions, SharesMeaning;
    if docs == [] {
    } else {
      var n := |docs| - 1;
      OneMeaningAgrees(docs[..n], def);
      var d := docs[n];
      forall x | x in DocumentDefinitions(d, def.specID) ensures CompatibleDefinitions(x, def) {
        if x in d.definitions {
          var k :| 0 <= k < |d.definitions| && d.definitions[k] == x;
        } else {
          var k :| 0 <= k < |d.facts| && DefinitionOf(d.facts[k]) == x;
          SharingIsCompatible(d.facts[k], def);
          Symmetric(def, x);
        }
      }
    }
  }

  lemma Symmetric(a: NumericDefinition, b: NumericDefinition)
    ensures CompatibleDefinitions(a, b) <==> CompatibleDefinitions(b, a)
  {
    hide Normalized;
  }

  lemma PlanWithOneMeaning(docs: seq<Document>, def: NumericDefinition, f: NumericFact, d: Document, p: Predicate)
    requires forall k :: 0 <= k < |docs| ==> CanonicalDocument(docs[k])
    requires OneMeaningIn(docs, def) && def.specID == p.specID && NormalizePredicate(p, def.profile).Some?
    requires d in docs && f in d.facts && f.specID == p.specID
    ensures PlanOf(docs, p) == BoundsOf(p.specID, NormalizePredicate(p, def.profile).value)
  {
    hide Canonical, ParseDecimal, ValidProfile, NormalizePredicate, AllDefinitions, BoundsOf, Normalized;
    hide CanonicalDocument, OneMeaningIn;
    var defs := AllDefinitions(docs, p.specID);
    InAllDefinitions(docs, d, f);
    AllDefinitionsValid(docs, p.specID);
    OneMeaningAgrees(docs, def);
    assert forall k :: 0 <= k < |defs| ==> defs[k] in defs;
    assert Agree(defs);
    NormalizeNeedsValid(p, def.profile);
    CompatibleNormalizeAlike(defs[0].profile, def.profile, p);
  }

  lemma NormalizeNeedsValid(p: Predicate, profile: Profile)
    requires NormalizePredicate(p, profile).Some?
    ensures ValidProfile(profile)
  {
    hide ValidProfile, ConvertOperand, Canonical;
  }

  /** Facts that are all indexed leave the envelope narrow. */
  lemma {:induction false} NarrowEnvelope(specIDs: seq<string>, facts: seq<NumericFact>, id: string)
    requires forall k :: 0 <= k < |facts| ==> ValidFact(facts[k])
    requires forall k :: 0 <= k < |facts| && facts[k].specID == id ==> IndexedNumbers(facts[k]).Some?
    ensures !EnvelopeOf(specIDs, facts, id).broad
  {
    hide Canonical, ValidFact, IndexedNumbers, Widen, WidenAll, Encloses, ParseDecimal;
    if facts == [] {
    } else {
      var n := |facts| - 1;
      assert forall k :: 0 <= k < n ==> facts[..n][k] == facts[k];
      NarrowEnvelope(specIDs, facts[..n], id);
      if facts[n].specID == id {
        IndexedAreNumbers(facts[n]);
        WidenAllEncloses(EnvelopeOf(specIDs, facts[..n], id), IndexedNumbers(facts[n]).value);
      }
    }
  }

  /** An envelope end is the key of a number beyond x, so it is beyond the key of x. */
  lemma EndBeyond(facts: seq<NumericFact>, id: string, key: string, above: bool, x: Decimal)
    requires HasKey(facts, id, key) && IsNumber(x)
    requires forall k :: 0 <= k < |facts| && facts[k].specID == id && IndexedNumbers(facts[k]).Some? ==>
      AllOnSide(IndexedNumbers(facts[k]).value, above, Num(x))
    ensures if above then !LexLessEq(key, KeyOf(x)) else !LexLessEq(KeyOf(x), key)
  {
    hide Canonical, ParseDecimal, Num, KeyOf, LexLessEq, IndexedNumbers;
    var i, k :| 0 <= i < |facts| && facts[i].specID == id && IndexedNumbers(facts[i]).Some?
      && 0 <= k < |IndexedNumbers(facts[i]).value| && KeyOf(IndexedNumbers(facts[i]).value[k]) == key;
    var n := IndexedNumbers(facts[i]).value[k];
    KeyOfOrder(n, x);
    KeyOfOrder(x, n);
  }

  lemma BoundIsKey(id: string, q: Predicate, above: bool, x: Decimal)
    requires Misses(q, above, x) && IsNumber(x)
    ensures (if above then BoundsOf(id, q).lowMax else BoundsOf(id, q).highMin) == KeyOf(x) && KeyOf(x) != ""
  {
    hide KeyOf;
    KeyOfOrder(x, x);
  }

  /** The filter does filter: when the documents agree about a specification, and every fact a
      document has for it lies wholly on the side of the query that no match can have, or it has
      none, the document is not a candidate. */
  lemma BeyondIsRefused(docs: seq<Document>, d: Document, predicates: seq<Predicate>, n: nat, def: NumericDefinition,
                        above: bool, x: Decimal)
    requires forall k :: 0 <= k < |docs| ==> CanonicalDocument(docs[k])
    requires d in docs && n < |predicates| && def.specID == predicates[n].specID && OneMeaningIn(docs, def)
    requires NormalizePredicate(predicates[n], def.profile).Some? && IsNumber(x)
    requires Misses(NormalizePredicate(predicates[n], def.profile).value, above, x)
    requires forall k :: 0 <= k < |d.facts| && d.facts[k].specID == def.specID ==>
      ValidFact(d.facts[k]) && Beyond(d.facts[k], above, Num(x))
    ensures !CoarseMatch(d, PlansOf(docs, predicates))
  {
    hide Canonical, ParseDecimal, Num, ValidFact, NormalizePredicate, Beyond, EnvelopeOf, PlanOf, BoundsOf, KeyOf;
    hide IndexedNumbers, LexLessEq, HasKey, OneMeaningIn, Misses, AllOnSide, ProjectionIDs;
    var p := predicates[n];
    var e := EnvelopeOf(d.binding.specIDs, d.facts, p.specID);
    var i :| 0 <= i < |docs| && docs[i] == d;
    assert CanonicalDocument(docs[i]);
    PlanID(docs, p);
    assert PlansOf(docs, predicates)[n] == PlanOf(docs, p);
    EnvelopePresence(d.binding.specIDs, d.facts, p.specID);
    ProjectionIDsAre(d.facts, p.specID);
    if e.present {
      var f :| f in d.facts && f.specID == p.specID;
      PlanWithOneMeaning(docs, def, f, d, p);
      forall k | 0 <= k < |d.facts| && d.facts[k].specID == p.specID
        ensures IndexedNumbers(d.facts[k]).Some? && AllOnSide(IndexedNumbers(d.facts[k]).value, above, Num(x))
      {
        BeyondIsIndexed(d.facts[k], above, Num(x));
      }
      NarrowEnvelope(d.binding.specIDs, d.facts, p.specID);
      EnvelopeIsAttained(d.binding.specIDs, d.facts, p.specID);
      BoundIsKey(p.specID, NormalizePredicate(p, def.profile).value, above, x);
      if above && e.low != "" { EndBeyond(d.facts, p.specID, e.low, above, x); }
      if !above && e.high != "" { EndBeyond(d.facts, p.specID, e.high, above, x); }
    }
  }
}
