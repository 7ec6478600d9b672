/** Active publications and the documents the search index keeps of them. */
module Publications {
  import opened Wrappers
  import opened Ordering
  import opened Profiles
  import opened Values
  import opened Predicates
  import opened Support

  datatype NumericDefinition = NumericDefinition(specID: string, semanticVersion: int, profile: Profile)

  datatype NumericFact = NumericFact(specID: string, semanticVersion: int, profile: Profile, value: Value)

  /** The locales a view is published in. */
  datatype Locales = Locales(defaultLocale: string, language: string, supported: seq<string>)

  /** A public view: the fields search and visibility read, and the rest as one opaque body. */
  datatype View = View(
    id: string,
    partNumber: string,
    categoryID: string,
    categoryTrail: seq<string>,
    manufacturerID: string,
    definitions: seq<NumericDefinition>,
    facts: seq<NumericFact>,
    assetRefs: seq<string>,
    locales: Locales,
    body: string)

  datatype Activation = Activation(
    productID: string,
    sourceRevision: int,
    publicRevision: int,
    siteEpoch: int,
    visibilityGeneration: int,
    route: string,
    artifactID: string,
    view: View)

  const PROJECTION_VERSION := "spec-ids-1"

  datatype Binding = Binding(
    productID: string,
    publicRevision: int,
    sourceRevision: int,
    siteEpoch: int,
    visibilityGeneration: int,
    projectionVersion: string,
    specIDs: seq<string>)

  datatype Document = Document(
    binding: Binding,
    categoryID: string,
    categoryTrail: seq<string>,
    manufacturerID: string,
    definitions: seq<NumericDefinition>,
    facts: seq<NumericFact>)

  /** A SHA-256 digest of a document list, taken as collision free; the empty digest is not one. */
  datatype Digest = NoDigest | Sha256(documents: seq<Document>)

  predicate ProjectsFact(f: NumericFact) { f.specID != "" && ValidValue(f.value, f.profile) }

  /** The sorted distinct specification identifiers of a view's valid facts. */
  function ProjectionIDs(facts: seq<NumericFact>): (ids: seq<string>)
    ensures StrictlySorted(LexLess, ids)
  {
    if facts == [] then []
    else
      var n := |facts| - 1;
      var ids := ProjectionIDs(facts[..n]);
      if ProjectsFact(facts[n]) then InsertString(ids, facts[n].specID) else ids
  }

  lemma {:induction false} ProjectionIDsAre(facts: seq<NumericFact>, id: string)
    ensures id in ProjectionIDs(facts) <==>
      exists k :: 0 <= k < |facts| && ProjectsFact(facts[k]) && facts[k].specID == id
  {
    hide ProjectsFact;
    if facts == [] {
    } else {
      var n := |facts| - 1;
      ProjectionIDsAre(facts[..n], id);
      assert forall k :: 0 <= k < n ==> facts[..n][k] == facts[k];
    }
  }

  method SpecProjectionIDs(facts: seq<NumericFact>) returns (ids: seq<string>)
    ensures ids == ProjectionIDs(facts)
  {
    hide ProjectsFact;
    ids := [];
    for n := 0 to |facts|
      invariant StrictlySorted(LexLess, ids) && ids == ProjectionIDs(facts[..n])
    {
      assert facts[..n + 1][..n] == facts[..n];
      if ProjectsFact(facts[n]) { ids := InsertString(ids, facts[n].specID); }
    }
    assert facts[..|facts|] == facts;
  }

  function BindingOf(a: Activation): Binding {
    Binding(a.productID, a.publicRevision, a.sourceRevision, a.siteEpoch, a.visibilityGeneration,
            PROJECTION_VERSION, ProjectionIDs(a.view.facts))
  }

  function DocumentOf(a: Activation): Document {
    Document(BindingOf(a), a.view.categoryID, a.view.categoryTrail, a.view.manufacturerID, a.view.definitions,
             a.view.facts)
  }

  predicate ValidDefinition(d: NumericDefinition) { d.specID != "" && d.semanticVersion > 0 && ValidProfile(d.profile) }

  predicate ValidFact(f: NumericFact) {
    f.specID != "" && f.semanticVersion > 0 && ValidProfile(f.profile) && ValidValue(f.value, f.profile)
  }

  /** The source indexes the publication. */
  predicate Indexable(a: Activation) {
    && a.productID != "" && a.view.id == a.productID
    && a.publicRevision > 0 && a.sourceRevision > 0 && a.siteEpoch > 0 && a.visibilityGeneration >= 0
    && (forall k :: 0 <= k < |a.view.definitions| ==> ValidDefinition(a.view.definitions[k]))
    && (forall k :: 0 <= k < |a.view.facts| ==> ValidFact(a.view.facts[k]))
  }

  predicate DocumentLess(a: Document, b: Document) { LexLess(a.binding.productID, b.binding.productID) }

  ghost predicate Describes(d: Document, active: map<string, Activation>) {
    exists id :: id in active && DocumentOf(active[id]) == d
  }

  /** The documents of a set of active publications, in product order: what the source marshals
      and digests, or no list when a publication cannot be indexed. */
  ghost predicate IsDocuments(docs: seq<Document>, active: map<string, Activation>) {
    && StrictlySorted(DocumentLess, docs)
    && (forall k :: 0 <= k < |docs| ==> Describes(docs[k], active))
    && (forall id :: id in active ==> DocumentOf(active[id]) in docs)
  }

  ghost predicate Keyed(active: map<string, Activation>) { forall id :: id in active ==> active[id].productID == id }

  ghost predicate AllIndexable(active: map<string, Activation>) { forall id :: id in active ==> Indexable(active[id]) }

  lemma DocumentsUnique(a: seq<Document>, b: seq<Document>, active: map<string, Activation>)
    requires IsDocuments(a, active) && IsDocuments(b, active)
    ensures a == b
  {
    forall x, y
      ensures DocumentLess(x, y) ==> !DocumentLess(y, x)
    {
      LexAsymmetric(x.binding.productID, y.binding.productID);
    }
    forall x ensures x in a ==> x in b {}
    forall x ensures x in b ==> x in a {}
    SortedUnique(DocumentLess, a, b);
  }

  method InsertDocument(docs: seq<Document>, d: Document) returns (r: seq<Document>)
    requires StrictlySorted(DocumentLess, docs)
    requires forall k :: 0 <= k < |docs| ==> docs[k].binding.productID != d.binding.productID
    ensures StrictlySorted(DocumentLess, r) && forall x :: x in r <==> x in docs || x == d
  {
    hide ProjectionIDs;
    var k := |docs|;
    while k > 0 && LexLess(d.binding.productID, docs[k - 1].binding.productID)
      invariant 0 <= k <= |docs|
      invariant forall j :: k <= j < |docs| ==> LexLess(d.binding.productID, docs[j].binding.productID)
    {
      k := k - 1;
    }
    forall j | 0 <= j < k ensures LexLess(docs[j].binding.productID, d.binding.productID) {
      LexTotal(d.binding.productID, docs[k - 1].binding.productID);
      if j < k - 1 { LexTransitive(docs[j].binding.productID, docs[k - 1].binding.productID, d.binding.productID); }
    }
    Splice(DocumentLess, docs, k, d);
    r := docs[..k] + [d] + docs[k..];
  }

  /** The source's loop over the active publications, in whatever order the map yields them. */
  method SpecBleveDocuments(active: seq<Activation>) returns (r: Option<seq<Document>>)
    ensures r.Some? <==> (forall k :: 0 <= k < |active| ==> Indexable(active[k]))
                         && (forall j, k :: 0 <= j < k < |active| ==> active[j].productID != active[k].productID)
    ensures r.Some? ==> StrictlySorted(DocumentLess, r.value)
    ensures r.Some? ==> forall d :: d in r.value <==> exists k :: 0 <= k < |active| && DocumentOf(active[k]) == d
  {
    hide Indexable, ProjectionIDs;
    var docs: seq<Document> := [];
    var seen: set<string> := {};
    for n := 0 to |active|
      invariant StrictlySorted(DocumentLess, docs)
      invariant forall k :: 0 <= k < n ==> Indexable(active[k])
      invariant forall j, k :: 0 <= j < k < n ==> active[j].productID != active[k].productID
      invariant forall id :: id in seen <==> exists k :: 0 <= k < n && active[k].productID == id
      invariant forall d :: d in docs <==> exists k :: 0 <= k < n && DocumentOf(active[k]) == d
    {
      var a := active[n];
      if !Indexable(a) || a.productID in seen { return None; }
      seen := seen + {a.productID};
      forall k | 0 <= k < |docs| ensures docs[k].binding.productID != a.productID { assert docs[k] in docs; }
      docs := InsertDocument(docs, DocumentOf(a));
    }
    return Some(docs);
  }

  /** Whichever order the publications come in, the result is the one document list of the map. */
  lemma DocumentsOfListing(active: map<string, Activation>, listing: seq<Activation>, docs: seq<Document>)
    requires Keyed(active) && (forall a :: a in listing <==> a.productID in active && active[a.productID] == a)
    requires StrictlySorted(DocumentLess, docs)
    requires forall d :: d in docs <==> exists k :: 0 <= k < |listing| && DocumentOf(listing[k]) == d
    ensures IsDocuments(docs, active)
  {
    hide ProjectionIDs;
    forall k | 0 <= k < |docs| ensures Describes(docs[k], active) {
      assert docs[k] in docs;
      var j :| 0 <= j < |listing| && DocumentOf(listing[j]) == docs[k];
      assert listing[j] in listing;
      assert DocumentOf(active[listing[j].productID]) == docs[k];
    }
    forall id | id in active ensures DocumentOf(active[id]) in docs {
      assert active[id].productID == id;
      assert active[id] in listing;
      var k :| 0 <= k < |listing| && listing[k] == active[id];
      assert DocumentOf(listing[k]) in docs;
    }
  }

  // ---- the truth of a view

  datatype NormalProfile = NormalProfile(profile: Profile, shapes: set<Shape>, operators: set<Operator>)

  /** The profile with its lists sorted and compacted, which is what comparing them as sets does. */
  function Normalized(p: Profile): NormalProfile {
    NormalProfile(p.(shapes := [], operators := []), set s | s in p.shapes, set o | o in p.operators)
  }

  predicate CompatibleDefinitions(a: NumericDefinition, b: NumericDefinition) {
    a.semanticVersion == b.semanticVersion && Normalized(a.profile) == Normalized(b.profile)
  }

  function DefinitionOf(f: NumericFact): NumericDefinition { NumericDefinition(f.specID, f.semanticVersion, f.profile) }

  /** The first definition of a specification. */
  function FindDefinition(definitions: seq<NumericDefinition>, id: string): (r: Option<NumericDefinition>)
    ensures r.Some? ==> exists i :: FirstDefinition(definitions, id, i) && r.value == definitions[i]
    ensures r.None? ==> forall i :: !FirstDefinition(definitions, id, i)
  {
    FirstDefinitionShifts(definitions, id);
    if definitions == [] then None
    else if definitions[0].specID == id then Some(definitions[0])
    else FindDefinition(definitions[1..], id)
  }

  /** The first fact of the definition's specification that shares its meaning. */
  function FindFact(facts: seq<NumericFact>, d: NumericDefinition): (r: Option<NumericFact>)
    ensures r.Some? ==> exists k :: FirstFact(facts, d, k) && r.value == facts[k]
    ensures r.None? ==> forall k :: !FirstFact(facts, d, k)
  {
    FirstFactShifts(facts, d);
    if facts == [] then None
    else if facts[0].specID == d.specID && CompatibleDefinitions(d, DefinitionOf(facts[0])) then Some(facts[0])
    else FindFact(facts[1..], d)
  }

  /** The i-th definition is the first of the specification. */
  ghost predicate FirstDefinition(definitions: seq<NumericDefinition>, id: string, i: int) {
    && 0 <= i < |definitions| && definitions[i].specID == id
    && forall j :: 0 <= j < i ==> definitions[j].specID != id
  }

  /** One meaning: the same version, and profiles that differ at most in the order of their lists. */
  ghost predicate SharesMeaning(f: NumericFact, d: NumericDefinition) {
    && f.specID == d.specID && f.semanticVersion == d.semanticVersion
    && f.profile.(shapes := [], operators := []) == d.profile.(shapes := [], operators := [])
    && (forall s :: s in f.profile.shapes <==> s in d.profile.shapes)
    && (forall o :: o in f.profile.operators <==> o in d.profile.operators)
  }

  /** The k-th fact is the first that shares the definition's meaning. */
  ghost predicate FirstFact(facts: seq<NumericFact>, d: NumericDefinition, k: int) {
    && 0 <= k < |facts| && SharesMeaning(facts[k], d)
    && forall j :: 0 <= j < k ==> !SharesMeaning(facts[j], d)
  }

  lemma SharingIsCompatible(f: NumericFact, d: NumericDefinition)
    ensures SharesMeaning(f, d) <==> f.specID == d.specID && CompatibleDefinitions(d, DefinitionOf(f))
  {
    var a, b := Normalized(d.profile), Normalized(f.profile);
    assert forall s :: s in a.shapes <==> s in d.profile.shapes;
    assert forall s :: s in b.shapes <==> s in f.profile.shapes;
    assert forall o :: o in a.operators <==> o in d.profile.operators;
    assert forall o :: o in b.operators <==> o in f.profile.operators;
    if SharesMeaning(f, d) { assert a.shapes == b.shapes && a.operators == b.operators; }
  }

  lemma FirstDefinitionShifts(definitions: seq<NumericDefinition>, id: string)
    ensures definitions != [] && definitions[0].specID == id ==> FirstDefinition(definitions, id, 0)
    ensures definitions != [] && definitions[0].specID != id ==>
      forall i :: FirstDefinition(definitions, id, i) <==> FirstDefinition(definitions[1..], id, i - 1)
    ensures definitions != [] && definitions[0].specID != id ==>
      forall i :: FirstDefinition(definitions[1..], id, i) ==> FirstDefinition(definitions, id, i + 1)
  {
  }

  lemma FirstFactShifts(facts: seq<NumericFact>, d: NumericDefinition)
    ensures facts != [] ==>
      (SharesMeaning(facts[0], d) <==> facts[0].specID == d.specID && CompatibleDefinitions(d, DefinitionOf(facts[0])))
    ensures facts != [] && SharesMeaning(facts[0], d) ==> FirstFact(facts, d, 0)
    ensures facts != [] && !SharesMeaning(facts[0], d) ==>
      forall k :: FirstFact(facts, d, k) <==> FirstFact(facts[1..], d, k - 1)
    ensures facts != [] && !SharesMeaning(facts[0], d) ==>
      forall k :: FirstFact(facts[1..], d, k) ==> FirstFact(facts, d, k + 1)
  {
    if facts != [] { SharingIsCompatible(facts[0], d); }
    hide SharesMeaning, CompatibleDefinitions;
  }

  ghost function PredicateTruth(definitions: seq<NumericDefinition>, facts: seq<NumericFact>, p: Predicate): Truth {
    var d := FindDefinition(definitions, p.specID);
    if d.None? then Unknown
    else
      var f := FindFact(facts, d.value);
      if f.None? then Unknown else Verdict(Some(f.value.value), f.value.profile, p)
  }

  ghost function ViewTruth(definitions: seq<NumericDefinition>, facts: seq<NumericFact>,
                           predicates: seq<Predicate>): Truth {
    All(PredicateTruths(definitions, facts, predicates))
  }

  ghost function PredicateTruths(definitions: seq<NumericDefinition>, facts: seq<NumericFact>,
                                 predicates: seq<Predicate>): seq<Truth> {
    seq(|predicates|, k requires 0 <= k < |predicates| => PredicateTruth(definitions, facts, predicates[k]))
  }

  /** A view matches a conjunction exactly when it matches every predicate of it. */
  lemma ViewMatchesAll(definitions: seq<NumericDefinition>, facts: seq<NumericFact>, predicates: seq<Predicate>)
    ensures ViewTruth(definitions, facts, predicates) == Match <==>
            forall k :: 0 <= k < |predicates| ==> PredicateTruth(definitions, facts, predicates[k]) == Match
  {
    hide PredicateTruth;
    var truths := PredicateTruths(definitions, facts, predicates);
    assert forall k :: 0 <= k < |predicates| ==> truths[k] == PredicateTruth(definitions, facts, predicates[k]);
  }

  /** What decides a predicate on a view: the first fact that shares the meaning of the first
      definition of the predicate's specification, or nothing. */
  ghost predicate DecidedBy(definitions: seq<NumericDefinition>, facts: seq<NumericFact>, p: Predicate, i: int,
                            k: int) {
    FirstDefinition(definitions, p.specID, i) && FirstFact(facts, definitions[i], k)
  }

  ghost predicate IsTruth(definitions: seq<NumericDefinition>, facts: seq<NumericFact>, p: Predicate, t: Truth) {
    && (forall i, k :: DecidedBy(definitions, facts, p, i, k) ==>
          t == Verdict(Some(facts[k].value), facts[k].profile, p))
    && ((forall i, k :: !DecidedBy(definitions, facts, p, i, k)) ==> t == Unknown)
  }

  lemma PredicateTruthIs(definitions: seq<NumericDefinition>, facts: seq<NumericFact>, p: Predicate, t: Truth)
    ensures IsTruth(definitions, facts, p, t) <==> t == PredicateTruth(definitions, facts, p)
  {
    hide Verdict, SharesMeaning, FindDefinition, FindFact;
    var d := FindDefinition(definitions, p.specID);
    if d.Some? {
      var i :| FirstDefinition(definitions, p.specID, i) && d.value == definitions[i];
      var f := FindFact(facts, d.value);
      if f.Some? {
        var k :| FirstFact(facts, d.value, k) && f.value == facts[k];
        assert DecidedBy(definitions, facts, p, i, k);
      }
    }
  }

  /** The truth of a view, by positions in its lists: each predicate is decided by the first fact of
      the first definition's meaning, one failure refutes the conjunction, and only matches all
      through establish it. */
  lemma ViewTruthIs(definitions: seq<NumericDefinition>, facts: seq<NumericFact>, predicates: seq<Predicate>,
                    truths: seq<Truth>)
    requires |truths| == |predicates|
    requires forall n :: 0 <= n < |predicates| ==> IsTruth(definitions, facts, predicates[n], truths[n])
    ensures ViewTruth(definitions, facts, predicates) ==
            if exists n :: 0 <= n < |truths| && truths[n] == NoMatch then NoMatch
            else if forall n :: 0 <= n < |truths| ==> truths[n] == Match then Match
            else Unknown
  {
    hide IsTruth, PredicateTruth;
    forall n | 0 <= n < |predicates| ensures truths[n] == PredicateTruth(definitions, facts, predicates[n]) {
      PredicateTruthIs(definitions, facts, predicates[n], truths[n]);
    }
    assert truths == PredicateTruths(definitions, facts, predicates);
  }

  method SpecViewTruth(definitions: seq<NumericDefinition>, facts: seq<NumericFact>, predicates: seq<Predicate>)
    returns (truth: Truth)
    ensures truth == ViewTruth(definitions, facts, predicates)
  {
    hide Verdict, FindDefinition, FindFact;
    var truths: seq<Truth> := [];
    for n := 0 to |predicates|
      invariant |truths| == n
      invariant forall k :: 0 <= k < n ==> truths[k] == PredicateTruth(definitions, facts, predicates[k])
    {
      var t := Unknown;
      var d := FindDefinition(definitions, predicates[n].specID);
      if d.Some? {
        var f := FindFact(facts, d.value);
        if f.Some? { t := Evaluate(Some(f.value.value), f.value.profile, predicates[n]); }
      }
      truths := truths + [t];
    }
    assert truths == PredicateTruths(definitions, facts, predicates);
    truth := AllOf(truths);
  }
}
