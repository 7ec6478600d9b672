/** What the search adapter caches and answers with: canonical document lists and their snapshots. */
module SpecIndex {
  import opened Ordering
  import opened Decimals
  import opened Values
  import opened Predicates
  import opened Publications
  import opened CoarseIndex

  datatype Snapshot = Snapshot(projectionVersion: string, sourceDigest: Digest, inventory: seq<Binding>,
                               candidates: seq<Binding>)

  /** The publication a stored document speaks for, as far as the index knows it. */
  function Restored(d: Document): Activation {
    Activation(d.binding.productID, d.binding.sourceRevision, d.binding.publicRevision, d.binding.siteEpoch,
               d.binding.visibilityGeneration, "", "",
               View(d.binding.productID, "", d.categoryID, d.categoryTrail, d.manufacturerID, d.definitions, d.facts,
                    [],
                    Locales("", "", []), ""))
  }

  /** The documents survive validation unchanged. */
  ghost predicate CanonicalList(docs: seq<Document>) {
    && StrictlySorted(DocumentLess, docs)
    && forall k :: 0 <= k < |docs| ==> Indexable(Restored(docs[k])) && DocumentOf(Restored(docs[k])) == docs[k]
  }

  lemma RestoredDocument(a: Activation)
    requires Indexable(a)
    ensures Indexable(Restored(DocumentOf(a))) && DocumentOf(Restored(DocumentOf(a))) == DocumentOf(a)
  {
    hide ProjectionIDs, ValidFact, ValidDefinition;
  }

  /** Documents of indexable publications form a canonical list. */
  lemma DocumentsAreCanonical(docs: seq<Document>, active: map<string, Activation>)
    requires IsDocuments(docs, active) && AllIndexable(active)
    ensures CanonicalList(docs)
  {
    hide ProjectionIDs, Indexable, DocumentOf;
    forall k | 0 <= k < |docs|
      ensures Indexable(Restored(docs[k])) && DocumentOf(Restored(docs[k])) == docs[k]
    {
      assert Describes(docs[k], active);
      var id :| id in active && DocumentOf(active[id]) == docs[k];
      RestoredDocument(active[id]);
    }
  }

  lemma CanonicalMember(docs: seq<Document>, k: nat)
    requires CanonicalList(docs) && k < |docs|
    ensures CanonicalDocument(docs[k])
  {
    hide Indexable, DocumentOf, CanonicalDocument;
    DocumentOfIsCanonical(Restored(docs[k]));
  }

  predicate ValidSpecPredicate(p: Predicate) {
    && !Blank(p.specID) && !Blank(p.unit) && !p.operator.OtherOperator? && RightOperands(p)
    && OperandIsNumber(p.value) && OperandIsNumber(p.lower) && OperandIsNumber(p.upper)
    && (IsRange(p.operator) ==> Compare(p.lower.value, p.upper.value) <= 0)
  }

  ghost predicate AllAsked(predicates: seq<Predicate>) {
    forall k :: 0 <= k < |predicates| ==> ValidSpecPredicate(predicates[k])
  }

  function Bindings(docs: seq<Document>): (r: seq<Binding>)
    ensures |r| == |docs| && forall k :: 0 <= k < |docs| ==> r[k] == docs[k].binding
  {
    seq(|docs|, k requires 0 <= k < |docs| => docs[k].binding)
  }

  /** The bindings of the documents the plans admit, in document order. */
  function Admitted(docs: seq<Document>, plans: seq<Plan>): seq<Binding> {
    if docs == [] then []
    else
      var n := |docs| - 1;
      Admitted(docs[..n], plans) + (if CoarseMatch(docs[n], plans) then [docs[n].binding] else [])
  }

  lemma {:induction false} AdmittedAre(docs: seq<Document>, plans: seq<Plan>, b: Binding)
    ensures b in Admitted(docs, plans) <==>
      exists k :: 0 <= k < |docs| && CoarseMatch(docs[k], plans) && docs[k].binding == b
  {
    hide CoarseMatch;
    if docs == [] {
    } else {
      var n := |docs| - 1;
      AdmittedAre(docs[..n], plans, b);
      assert forall k :: 0 <= k < n ==> docs[..n][k] == docs[k];
    }
  }

  /** The only snapshot the adapter ever answers with for its documents. */
  function SnapshotOf(docs: seq<Document>, predicates: seq<Predicate>): Snapshot {
    Snapshot(PROJECTION_VERSION, Sha256(docs), Bindings(docs), Admitted(docs, PlansOf(docs, predicates)))
  }

  ghost predicate Listable(active: seq<Activation>) {
    && (forall k :: 0 <= k < |active| ==> Indexable(active[k]))
    && (forall j, k :: 0 <= j < k < |active| ==> active[j].productID != active[k].productID)
  }

  ghost predicate IsAdmittedID(h: string, docs: seq<Document>, plans: seq<Plan>) {
    exists k :: 0 <= k < |docs| && CoarseMatch(docs[k], plans) && ProductDocID(docs[k].binding.productID) == h
  }

  lemma {:induction false} DistinctCount(s: seq<string>, ids: set<string>)
    requires forall i, j :: 0 <= i < j < |s| ==> s[i] != s[j]
    requires forall h :: h in s <==> h in ids
    ensures |s| == |ids|
  {
    if s == [] {
      assert ids == {};
    } else {
      var n := |s| - 1;
      assert s == s[..n] + [s[n]];
      DistinctCount(s[..n], ids - {s[n]});
    }
  }

  function ProductDocID(id: string): string { "product:" + id }

  /** The documents of a listing of publications, each once. */
  ghost predicate IsListingDocuments(docs: seq<Document>, active: seq<Activation>) {
    && StrictlySorted(DocumentLess, docs)
    && (forall k :: 0 <= k < |active| ==> Indexable(active[k]))
    && (forall d :: d in docs <==> exists k :: 0 <= k < |active| && DocumentOf(active[k]) == d)
  }

  lemma ListingIsCanonical(docs: seq<Document>, active: seq<Activation>)
    requires IsListingDocuments(docs, active)
    ensures CanonicalList(docs)
  {
    hide ProjectionIDs, Indexable, DocumentOf;
    forall k | 0 <= k < |docs|
      ensures Indexable(Restored(docs[k])) && DocumentOf(Restored(docs[k])) == docs[k]
    {
      assert docs[k] in docs;
      var j :| 0 <= j < |active| && DocumentOf(active[j]) == docs[k];
      RestoredDocument(active[j]);
    }
  }

  function RestoredAll(docs: seq<Document>): (r: seq<Activation>)
    ensures |r| == |docs| && forall k :: 0 <= k < |docs| ==> r[k] == Restored(docs[k])
  {
    seq(|docs|, k requires 0 <= k < |docs| => Restored(docs[k]))
  }

  lemma DocumentIdentity(d: Document)
    ensures DocumentOf(Restored(d)).binding.productID == d.binding.productID
    ensures Restored(d).productID == d.binding.productID
  {
  }

  lemma SelfListingIsCanonical(docs: seq<Document>)
    requires IsListingDocuments(docs, RestoredAll(docs))
    requires forall j, k :: 0 <= j < k < |docs| ==> docs[j].binding.productID != docs[k].binding.productID
    ensures CanonicalList(docs)
  {
    hide ProjectionIDs, Indexable, DocumentOf, Restored;
    forall k | 0 <= k < |docs|
      ensures Indexable(Restored(docs[k])) && DocumentOf(Restored(docs[k])) == docs[k]
    {
      assert docs[k] in docs;
      assert Indexable(RestoredAll(docs)[k]);
      var j :| 0 <= j < |docs| && DocumentOf(RestoredAll(docs)[j]) == docs[k];
      DocumentIdentity(docs[j]);
      assert j == k;
    }
  }

  lemma CanonicalListsItself(docs: seq<Document>, r: seq<Document>)
    requires CanonicalList(docs) && IsListingDocuments(r, RestoredAll(docs))
    ensures r == docs
  {
    hide ProjectionIDs, Indexable, DocumentOf, Restored;
    forall x, y
      ensures DocumentLess(x, y) ==> !DocumentLess(y, x)
    {
      LexAsymmetric(x.binding.productID, y.binding.productID);
    }
    forall x ensures x in r <==> x in docs {
      if x in r { var k :| 0 <= k < |docs| && DocumentOf(RestoredAll(docs)[k]) == x; assert x == docs[k]; }
      if x in docs { var k :| 0 <= k < |docs| && docs[k] == x; assert DocumentOf(RestoredAll(docs)[k]) == x; }
    }
    SortedUnique(DocumentLess, r, docs);
  }

  lemma CanonicalRestores(docs: seq<Document>)
    requires CanonicalList(docs)
    ensures forall k :: 0 <= k < |docs| ==> Indexable(RestoredAll(docs)[k])
    ensures forall j, k :: 0 <= j < k < |docs| ==> RestoredAll(docs)[j].productID != RestoredAll(docs)[k].productID
  {
    hide ProjectionIDs, Indexable, DocumentOf;
    forall j, k | 0 <= j < k < |docs| ensures RestoredAll(docs)[j].productID != RestoredAll(docs)[k].productID {
      assert DocumentLess(docs[j], docs[k]);
      LexAsymmetric(docs[j].binding.productID, docs[k].binding.productID);
    }
  }

  /** Accepts stored documents only if rebuilding them from what they say changes nothing. */
  method SpecBleveValidateDocuments(docs: seq<Document>) returns (ok: bool)
    ensures ok <==> CanonicalList(docs)
  {
    hide ProjectionIDs, Indexable, DocumentOf, Restored, CanonicalList;
    var active := RestoredAll(docs);
    var r := SpecBleveDocuments(active);
    ok := r.Some? && r.value == docs;
    if ok {
      forall k | 0 <= k < |docs| ensures active[k].productID == docs[k].binding.productID { DocumentIdentity(docs[k]); }
      SelfListingIsCanonical(docs);
    }
    if CanonicalList(docs) {
      CanonicalRestores(docs);
      CanonicalListsItself(docs, r.value);
    }
  }

  lemma NoneAdmitted(plans: seq<Plan>)
    ensures forall h :: !IsAdmittedID(h, [], plans)
  {
  }

  lemma MoreAdmitted(docs: seq<Document>, n: nat, plans: seq<Plan>)
    requires n < |docs|
    ensures forall h :: IsAdmittedID(h, docs[..n + 1], plans) <==>
              IsAdmittedID(h, docs[..n], plans)
              || (CoarseMatch(docs[n], plans) && ProductDocID(docs[n].binding.productID) == h)
  {
    hide CoarseMatch, ProductDocID;
    forall h | IsAdmittedID(h, docs[..n], plans) ensures IsAdmittedID(h, docs[..n + 1], plans) {
      var k :| 0 <= k < n && CoarseMatch(docs[..n][k], plans) && ProductDocID(docs[..n][k].binding.productID) == h;
      assert docs[..n + 1][k] == docs[k];
    }
    if CoarseMatch(docs[n], plans) {
      assert docs[..n + 1][n] == docs[n];
      assert IsAdmittedID(ProductDocID(docs[n].binding.productID), docs[..n + 1], plans);
    }
  }

  lemma EmptyIsCanonical()
    ensures CanonicalList([])
  {
  }

  lemma ListingFrom(docs: seq<Document>, active: seq<Activation>)
    requires StrictlySorted(DocumentLess, docs)
    requires forall k :: 0 <= k < |active| ==> Indexable(active[k])
    requires forall d :: d in docs <==> exists k :: 0 <= k < |active| && DocumentOf(active[k]) == d
    ensures IsListingDocuments(docs, active)
  {
    hide Indexable, DocumentOf;
  }
}
