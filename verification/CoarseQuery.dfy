/** The index query of a plan list and the index fields of a document: the clause tree accepts
    exactly the documents the coarse predicate admits. */
module CoarseQuery {
  import opened Ordering
  import opened Decimals
  import opened DecimalKeys
  import opened Publications
  import opened CoarseIndex

  /** The query language of the index library, over single-term keyword fields. */
  datatype Query =
    | Term(field: string, value: string)
    | UpTo(field: string, max: string)
    | DownTo(field: string, min: string)
    | Conjunction(clauses: seq<Query>)
    | Disjunction(clauses: seq<Query>)

  type Fields = map<string, string>

  predicate Accepts(q: Query, fields: Fields)
    decreases q
  {
    match q
    case Term(field, value) => field in fields && fields[field] == value
    case UpTo(field, max) => field in fields && LexLessEq(fields[field], max)
    case DownTo(field, min) => field in fields && LexLessEq(min, fields[field])
    case Conjunction(clauses) => forall k :: 0 <= k < |clauses| ==> Accepts(clauses[k], fields)
    case Disjunction(clauses) => exists k :: 0 <= k < |clauses| && Accepts(clauses[k], fields)
  }

  ghost predicate Injective(hash: string -> string) { forall a, b :: hash(a) == hash(b) ==> a == b }

  const PRESENT := "_present"
  const BROAD := "_broad"
  const LOW := "_low"
  const HIGH := "_high"

  predicate IsSuffix(s: string) { s == PRESENT || s == BROAD || s == LOW || s == HIGH }

  /** The field of a specification: a namespace from the hash of its identifier, and a suffix. */
  function FieldName(hash: string -> string, id: string, suffix: string): string { "s_" + hash(id) + suffix }

  lemma FieldNamesDistinct(hash: string -> string, a: string, s: string, b: string, t: string)
    requires Injective(hash) && IsSuffix(s) && IsSuffix(t)
    ensures FieldName(hash, a, s) == FieldName(hash, b, t) <==> a == b && s == t
    ensures FieldName(hash, a, s) != "product"
  {
    var x, y := FieldName(hash, a, s), FieldName(hash, b, t);
    assert x[0] == 's' && "product"[0] == 'p';
    if x == y {
      assert x[|x| - 1] == s[|s| - 1] && y[|y| - 1] == t[|t| - 1];
      assert s == t;
      assert x[2..|x| - |s|] == hash(a) && y[2..|y| - |t|] == hash(b);
    }
  }

  predicate HasEnvelope(d: Document, id: string) {
    id in d.binding.specIDs || exists k :: 0 <= k < |d.facts| && d.facts[k].specID == id
  }

  /** The fields of one specification. */
  ghost predicate FieldsOf(hash: string -> string, fields: Fields, id: string, e: Envelope) {
    && FieldName(hash, id, PRESENT) in fields && fields[FieldName(hash, id, PRESENT)] == "yes"
    && (FieldName(hash, id, BROAD) in fields <==> e.broad)
    && (e.broad ==> fields[FieldName(hash, id, BROAD)] == "yes")
    && (FieldName(hash, id, LOW) in fields <==> e.low != "")
    && (FieldName(hash, id, HIGH) in fields <==> e.low != "")
    && (e.low != "" ==> fields[FieldName(hash, id, LOW)] == e.low && fields[FieldName(hash, id, HIGH)] == e.high)
  }

  ghost predicate NoFieldsOf(hash: string -> string, fields: Fields, id: string) {
    forall s :: IsSuffix(s) ==> FieldName(hash, id, s) !in fields
  }

  ghost predicate IndexFields(hash: string -> string, d: Document, fields: Fields) {
    && "product" in fields && fields["product"] == "yes"
    && forall id :: if HasEnvelope(d, id) then FieldsOf(hash, fields, id, EnvelopeOf(d.binding.specIDs, d.facts, id))
                    else NoFieldsOf(hash, fields, id)
  }

  function AddFields(hash: string -> string, fields: Fields, id: string, e: Envelope): Fields {
    var present := fields[FieldName(hash, id, PRESENT) := "yes"];
    var broad := if e.broad then present[FieldName(hash, id, BROAD) := "yes"] else present;
    if e.low != "" then broad[FieldName(hash, id, LOW) := e.low][FieldName(hash, id, HIGH) := e.high] else broad
  }

  lemma FieldsApart(hash: string -> string)
    requires Injective(hash)
    ensures forall s, i, t, j ::
      IsSuffix(s) && IsSuffix(t) ==> (FieldName(hash, i, s) == FieldName(hash, j, t) <==> i == j && s == t)
    ensures forall s, i :: IsSuffix(s) ==> FieldName(hash, i, s) != "product"
  {
    forall s, i, t, j | IsSuffix(s) && IsSuffix(t)
      ensures FieldName(hash, i, s) == FieldName(hash, j, t) <==> i == j && s == t
      ensures FieldName(hash, i, s) != "product"
    {
      FieldNamesDistinct(hash, i, s, j, t);
    }
  }

  lemma AddFieldsOwn(hash: string -> string, fields: Fields, id: string, e: Envelope)
    requires Injective(hash) && NoFieldsOf(hash, fields, id)
    ensures FieldsOf(hash, AddFields(hash, fields, id, e), id, e)
  {
    FieldsApart(hash);
    hide FieldName;
    assert IsSuffix(PRESENT) && IsSuffix(BROAD) && IsSuffix(LOW) && IsSuffix(HIGH);
  }

  /** Fields that do not belong to the added specification stay as they were. */
  lemma AddFieldsFrame(hash: string -> string, fields: Fields, id: string, e: Envelope, name: string)
    requires forall s :: IsSuffix(s) ==> name != FieldName(hash, id, s)
    ensures var after := AddFields(hash, fields, id, e);
      (name in after <==> name in fields) && (name in fields ==> after[name] == fields[name])
  {
    hide FieldName;
    assert IsSuffix(PRESENT) && IsSuffix(BROAD) && IsSuffix(LOW) && IsSuffix(HIGH);
  }

  lemma AddFieldsOther(hash: string -> string, fields: Fields, id: string, e: Envelope, other: string, o: Envelope)
    requires Injective(hash) && other != id
    ensures FieldsOf(hash, fields, other, o) ==> FieldsOf(hash, AddFields(hash, fields, id, e), other, o)
    ensures NoFieldsOf(hash, fields, other) ==> NoFieldsOf(hash, AddFields(hash, fields, id, e), other)
  {
    FieldsApart(hash);
    hide FieldName, AddFields;
    forall t | IsSuffix(t)
      ensures var after := AddFields(hash, fields, id, e); var name := FieldName(hash, other, t);
        (name in after <==> name in fields) && (name in fields ==> after[name] == fields[name])
    {
      AddFieldsFrame(hash, fields, id, e, FieldName(hash, other, t));
    }
    assert IsSuffix(PRESENT) && IsSuffix(BROAD) && IsSuffix(LOW) && IsSuffix(HIGH);
  }

  /** The source's loop over a document's envelopes, in whatever order the map yields them. */
  method SpecBleveIndexFields(hash: string -> string, d: Document) returns (fields: Fields)
    requires Injective(hash)
    ensures IndexFields(hash, d, fields)
  {
    hide EnvelopeOf, FieldsOf, NoFieldsOf, AddFields;
    var envelopes := SpecBleveEnvelopes(d);
    fields := map["product" := "yes"];
    forall id ensures NoFieldsOf(hash, fields, id) { NoFieldsAtFirst(hash, id); }
    var todo := envelopes.Keys;
    while todo != {}
      invariant todo <= envelopes.Keys
      invariant "product" in fields && fields["product"] == "yes"
      invariant forall id ::
        if id in envelopes && id !in todo then FieldsOf(hash, fields, id, envelopes[id])
        else NoFieldsOf(hash, fields, id)
      decreases |todo|
    {
      var id :| id in todo;
      ghost var before := fields;
      fields := AddFields(hash, fields, id, envelopes[id]);
      todo := todo - {id};
      forall other ensures
        if other in envelopes && other !in todo then FieldsOf(hash, fields, other, envelopes[other])
        else NoFieldsOf(hash, fields, other)
      {
        if other == id { AddFieldsOwn(hash, before, id, envelopes[id]); }
        else { AddFieldsOther(hash, before, id, envelopes[id], other, Lookup(envelopes, other)); }
      }
      FieldsApart(hash);
      forall s | IsSuffix(s) ensures FieldName(hash, id, s) != "product" {}
      AddFieldsFrame(hash, before, id, envelopes[id], "product");
    }
    forall id ensures if HasEnvelope(d, id) then FieldsOf(hash, fields, id, EnvelopeOf(d.binding.specIDs, d.facts, id))
                      else NoFieldsOf(hash, fields, id)
    {
      assert Lookup(envelopes, id) == EnvelopeOf(d.binding.specIDs, d.facts, id);
    }
  }

  lemma NoFieldsAtFirst(hash: string -> string, id: string)
    ensures NoFieldsOf(hash, map["product" := "yes"], id)
  {
    forall s | IsSuffix(s) ensures FieldName(hash, id, s) != "product" {
      assert FieldName(hash, id, s)[0] == 's' && "product"[0] == 'p';
    }
  }

  // ---- the query

  function BoundClauses(hash: string -> string, p: Plan): seq<Query> {
    (if p.lowMax != "" then [UpTo(FieldName(hash, p.id, LOW), p.lowMax)] else [])
    + (if p.highMin != "" then [DownTo(FieldName(hash, p.id, HIGH), p.highMin)] else [])
  }

  function PlanClauses(hash: string -> string, p: Plan): seq<Query> {
    var bounds := BoundClauses(hash, p);
    [Term(FieldName(hash, p.id, PRESENT), "yes")]
    + (if bounds == [] then [] else [Disjunction([Term(FieldName(hash, p.id, BROAD), "yes"), Conjunction(bounds)])])
  }

  function QueryClauses(hash: string -> string, plans: seq<Plan>): seq<Query> {
    if plans == [] then [Term("product", "yes")]
    else QueryClauses(hash, plans[..|plans| - 1]) + PlanClauses(hash, plans[|plans| - 1])
  }

  /** The source's loop appending the clauses of each plan. */
  method SpecBleveQuery(hash: string -> string, plans: seq<Plan>) returns (q: Query)
    ensures q == Conjunction(QueryClauses(hash, plans))
  {
    var clauses := [Term("product", "yes")];
    for n := 0 to |plans|
      invariant clauses == QueryClauses(hash, plans[..n])
    {
      var p := plans[n];
      var added := [Term(FieldName(hash, p.id, PRESENT), "yes")];
      var bounds: seq<Query> := [];
      if p.lowMax != "" { bounds := bounds + [UpTo(FieldName(hash, p.id, LOW), p.lowMax)]; }
      if p.highMin != "" { bounds := bounds + [DownTo(FieldName(hash, p.id, HIGH), p.highMin)]; }
      if |bounds| > 0 {
        added := added + [Disjunction([Term(FieldName(hash, p.id, BROAD), "yes"), Conjunction(bounds)])];
      }
      clauses := clauses + added;
      assert plans[..n + 1][..n] == plans[..n];
      assert bounds == BoundClauses(hash, p) && added == PlanClauses(hash, p);
    }
    assert plans[..|plans|] == plans;
    return Conjunction(clauses);
  }

  /** Both ends of an envelope are set together. */
  lemma {:induction false} EnvelopeEndsTogether(specIDs: seq<string>, facts: seq<NumericFact>, id: string)
    ensures var e := EnvelopeOf(specIDs, facts, id); e.low == "" <==> e.high == ""
  {
    hide IndexedNumbers, WidenAll;
    if facts == [] {
    } else {
      var n := |facts| - 1;
      EnvelopeEndsTogether(specIDs, facts[..n], id);
      if IndexedNumbers(facts[n]).Some? {
        WidenEndsTogether(EnvelopeOf(specIDs, facts[..n], id), IndexedNumbers(facts[n]).value);
      }
    }
  }

  lemma {:induction false} WidenEndsTogether(e: Envelope, numbers: seq<Decimal>)
    requires e.low == "" <==> e.high == ""
    ensures var w := WidenAll(e, numbers); w.low == "" <==> w.high == ""
  {
    hide DecimalKey, LexLess;
    if numbers == [] {
    } else {
      var n := |numbers| - 1;
      WidenEndsTogether(e, numbers[..n]);
      KeyNotEmpty(numbers[n]);
    }
  }

  lemma KeyNotEmpty(d: Decimal)
    ensures DecimalKey(d).Success? ==> DecimalKey(d).value != ""
  {
    hide Canonical, Scan, ParseDecimal;
  }

  ghost predicate AcceptsAll(clauses: seq<Query>, fields: Fields) {
    forall k :: 0 <= k < |clauses| ==> Accepts(clauses[k], fields)
  }

  lemma AcceptsConcat(a: seq<Query>, b: seq<Query>, fields: Fields)
    ensures AcceptsAll(a + b, fields) <==> AcceptsAll(a, fields) && AcceptsAll(b, fields)
  {
    var c := a + b;
    if AcceptsAll(c, fields) {
      assert forall k :: 0 <= k < |a| ==> c[k] == a[k];
      assert forall k :: 0 <= k < |b| ==> c[|a| + k] == b[k];
    }
  }

  lemma BoundsAccept(hash: string -> string, p: Plan, fields: Fields)
    ensures AcceptsAll(BoundClauses(hash, p), fields) <==>
      && (p.lowMax != "" ==> Accepts(UpTo(FieldName(hash, p.id, LOW), p.lowMax), fields))
      && (p.highMin != "" ==> Accepts(DownTo(FieldName(hash, p.id, HIGH), p.highMin), fields))
  {
    hide FieldName, Accepts;
    var bounds := BoundClauses(hash, p);
    if p.lowMax != "" { assert bounds[0] == UpTo(FieldName(hash, p.id, LOW), p.lowMax); }
    if p.highMin != "" { assert bounds[|bounds| - 1] == DownTo(FieldName(hash, p.id, HIGH), p.highMin); }
  }

  lemma BroadOrBounds(hash: string -> string, p: Plan, fields: Fields)
    ensures Accepts(Disjunction([Term(FieldName(hash, p.id, BROAD), "yes"), Conjunction(BoundClauses(hash, p))]),
                    fields)
       <==> Accepts(Term(FieldName(hash, p.id, BROAD), "yes"), fields) || AcceptsAll(BoundClauses(hash, p), fields)
  {
    hide FieldName, BoundClauses;
    var two := [Term(FieldName(hash, p.id, BROAD), "yes"), Conjunction(BoundClauses(hash, p))];
    assert Accepts(two[1], fields) <==> AcceptsAll(BoundClauses(hash, p), fields);
    assert Accepts(Disjunction(two), fields) <==> Accepts(two[0], fields) || Accepts(two[1], fields);
  }

  lemma PlanAccepts(hash: string -> string, d: Document, fields: Fields, p: Plan)
    requires IndexFields(hash, d, fields)
    requires forall id :: HasEnvelope(d, id) <==> id in d.binding.specIDs
    ensures AcceptsAll(PlanClauses(hash, p), fields) <==> Admits(EnvelopeOf(d.binding.specIDs, d.facts, p.id), p)
  {
    var e := EnvelopeOf(d.binding.specIDs, d.facts, p.id);
    EnvelopePresence(d.binding.specIDs, d.facts, p.id);
    EnvelopeEndsTogether(d.binding.specIDs, d.facts, p.id);
    hide EnvelopeOf, FieldName, LexLess;
    var bounds := BoundClauses(hash, p);
    var clauses := PlanClauses(hash, p);
    BoundsAccept(hash, p, fields);
    BroadOrBounds(hash, p, fields);
    assert if HasEnvelope(d, p.id) then FieldsOf(hash, fields, p.id, e) else NoFieldsOf(hash, fields, p.id);
    assert IsSuffix(PRESENT);
    assert clauses[0] == Term(FieldName(hash, p.id, PRESENT), "yes");
    if bounds != [] {
      assert clauses[1] == Disjunction([Term(FieldName(hash, p.id, BROAD), "yes"), Conjunction(bounds)]);
    }
  }

  lemma {:induction false} QueryAccepts(hash: string -> string, d: Document, fields: Fields, plans: seq<Plan>)
    requires IndexFields(hash, d, fields)
    requires forall id :: HasEnvelope(d, id) <==> id in d.binding.specIDs
    ensures AcceptsAll(QueryClauses(hash, plans), fields) <==> CoarseMatch(d, plans)
  {
    hide EnvelopeOf, PlanClauses, Admits;
    if plans == [] {
      assert QueryClauses(hash, plans)[0] == Term("product", "yes");
    } else {
      var n := |plans| - 1;
      QueryAccepts(hash, d, fields, plans[..n]);
      PlanAccepts(hash, d, fields, plans[n]);
      AcceptsConcat(QueryClauses(hash, plans[..n]), PlanClauses(hash, plans[n]), fields);
      assert forall k :: 0 <= k < n ==> plans[..n][k] == plans[k];
    }
  }

  lemma CanonicalEnvelopes(d: Document, id: string)
    requires CanonicalDocument(d)
    ensures HasEnvelope(d, id) <==> id in d.binding.specIDs
  {
    hide ValidFact, ProjectionIDs, ValidDefinition;
    ProjectionIDsAre(d.facts, id);
    forall k | 0 <= k < |d.facts| ensures ProjectsFact(d.facts[k]) { FactProjects(d.facts[k]); }
  }

  /** For every indexed document and plan list the query accepts the document's fields exactly
      when the coarse predicate does. */
  lemma QueryMatchesPredicate(hash: string -> string, d: Document, fields: Fields, plans: seq<Plan>)
    requires CanonicalDocument(d) && IndexFields(hash, d, fields)
    ensures Accepts(Conjunction(QueryClauses(hash, plans)), fields) <==> CoarseMatch(d, plans)
  {
    hide CanonicalDocument, IndexFields, CoarseMatch, HasEnvelope, QueryClauses;
    forall id { CanonicalEnvelopes(d, id); }
    QueryAccepts(hash, d, fields, plans);
  }
}
