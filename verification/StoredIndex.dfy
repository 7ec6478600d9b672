/** What the index library stores: each document under its identifier, with the fields it is searched
    by. */
module StoredIndex {
  import opened Ordering
  import opened Publications
  import opened CoarseIndex
  import opened CoarseQuery
  import opened SpecIndex

  datatype Entry = Entry(document: Document, fields: Fields)

  type Contents = map<string, Entry>

  function IDOf(d: Document): string { ProductDocID(d.binding.productID) }

  /** Every entry is filed under its document's identifier and searched by its document's fields. */
  ghost predicate WellStored(hash: string -> string, contents: Contents) {
    forall h :: h in contents ==>
      h == IDOf(contents[h].document) && IndexFields(hash, contents[h].document, contents[h].fields)
  }

  /** The stored documents are exactly these. */
  ghost predicate Stores(contents: Contents, docs: seq<Document>) {
    && (forall k :: 0 <= k < |docs| ==> IDOf(docs[k]) in contents && contents[IDOf(docs[k])].document == docs[k])
    && (forall h :: h in contents ==> contents[h].document in docs)
  }

  lemma ProductDocIDInjective(a: string, b: string)
    requires ProductDocID(a) == ProductDocID(b)
    ensures a == b
  {
    assert ProductDocID(a)[8..] == a && ProductDocID(b)[8..] == b;
  }

  /** The documents of a canonical list have different identifiers. */
  lemma IDsDistinct(docs: seq<Document>)
    requires StrictlySorted(DocumentLess, docs)
    ensures forall i, j :: 0 <= i < j < |docs| ==> IDOf(docs[i]) != IDOf(docs[j])
  {
    forall i, j | 0 <= i < j < |docs| ensures IDOf(docs[i]) != IDOf(docs[j]) {
      assert DocumentLess(docs[i], docs[j]);
      LexAsymmetric(docs[i].binding.productID, docs[j].binding.productID);
      if IDOf(docs[i]) == IDOf(docs[j]) { ProductDocIDInjective(docs[i].binding.productID, docs[j].binding.productID); }
    }
  }

  ghost function IDs(docs: seq<Document>): set<string> { set k | 0 <= k < |docs| :: IDOf(docs[k]) }

  lemma {:induction false} IDsCount(docs: seq<Document>)
    requires forall i, j :: 0 <= i < j < |docs| ==> IDOf(docs[i]) != IDOf(docs[j])
    ensures |IDs(docs)| == |docs|
  {
    hide IDOf;
    if docs == [] {
      assert IDs(docs) == {};
    } else {
      var n := |docs| - 1;
      IDsCount(docs[..n]);
      assert IDs(docs) == IDs(docs[..n]) + {IDOf(docs[n])};
    }
  }

  /** With as many entries as documents, finding each document is finding nothing else. */
  lemma FoundIsStored(hash: string -> string, contents: Contents, docs: seq<Document>)
    requires StrictlySorted(DocumentLess, docs) && WellStored(hash, contents)
    ensures Stores(contents, docs) <==>
      |contents| == |docs|
      && forall k :: 0 <= k < |docs| ==> IDOf(docs[k]) in contents && contents[IDOf(docs[k])].document == docs[k]
  {
    hide IndexFields, DocumentLess, IDOf;
    IDsDistinct(docs);
    IDsCount(docs);
    if forall k :: 0 <= k < |docs| ==> IDOf(docs[k]) in contents && contents[IDOf(docs[k])].document == docs[k] {
      assert IDs(docs) <= contents.Keys;
      if Stores(contents, docs) {
        forall h | h in contents ensures h in IDs(docs) {
          var k :| 0 <= k < |docs| && docs[k] == contents[h].document;
        }
        assert IDs(docs) == contents.Keys;
      }
      if |contents| == |docs| {
        SubsetOfEqualSize(IDs(docs), contents.Keys);
        forall h | h in contents ensures contents[h].document in docs {
          var k :| 0 <= k < |docs| && IDOf(docs[k]) == h;
        }
      }
    }
  }

  /** Finds every listed document among the entries, and nothing more. */
  method StoredDocuments(hash: string -> string, contents: Contents, docs: seq<Document>) returns (ok: bool)
    requires StrictlySorted(DocumentLess, docs) && WellStored(hash, contents)
    ensures ok <==> Stores(contents, docs)
  {
    hide IDOf, WellStored, Stores;
    FoundIsStored(hash, contents, docs);
    if |contents| != |docs| { return false; }
    for k := 0 to |docs|
      invariant forall i :: 0 <= i < k ==> IDOf(docs[i]) in contents && contents[IDOf(docs[i])].document == docs[i]
    {
      if IDOf(docs[k]) !in contents || contents[IDOf(docs[k])].document != docs[k] { return false; }
    }
    return true;
  }

  /** One batch: the known documents go and the new ones come. Nothing else remains when the known
      ones are all there were. */
  method Batch(hash: string -> string, contents: Contents, known: seq<Document>,
               docs: seq<Document>) returns (next: Contents)
    requires Injective(hash) && WellStored(hash, contents) && StrictlySorted(DocumentLess, docs)
    ensures WellStored(hash, next)
    ensures Stores(contents, known) ==> Stores(next, docs)
  {
    hide IndexFields, IDOf, DocumentLess;
    IDsDistinct(docs);
    next := contents;
    for k := 0 to |known|
      invariant next == map h | h in contents && h !in IDs(known[..k]) :: contents[h]
    {
      assert IDs(known[..k + 1]) == IDs(known[..k]) + {IDOf(known[k])};
      next := next - {IDOf(known[k])};
    }
    assert known[..|known|] == known;
    ghost var kept := next;
    if Stores(contents, known) { NothingKept(hash, contents, known); }
    for k := 0 to |docs|
      invariant WellStored(hash, next)
      invariant forall i :: 0 <= i < k ==> IDOf(docs[i]) in next && next[IDOf(docs[i])].document == docs[i]
      invariant forall h :: h in next ==> next[h].document in docs[..k] || h in kept
    {
      var fields := SpecBleveIndexFields(hash, docs[k]);
      assert docs[..k + 1] == docs[..k] + [docs[k]];
      next := next[IDOf(docs[k]) := Entry(docs[k], fields)];
    }
    assert docs[..|docs|] == docs;
  }

  lemma NothingKept(hash: string -> string, contents: Contents, known: seq<Document>)
    requires WellStored(hash, contents) && Stores(contents, known)
    ensures forall h :: h in contents ==> h in IDs(known)
  {
    hide IndexFields, IDOf;
    forall h | h in contents ensures h in IDs(known) {
      var k :| 0 <= k < |known| && known[k] == contents[h].document;
      assert IDOf(known[k]) == h;
    }
  }

  /** The query finds the identifier. */
  ghost predicate IsHit(h: string, contents: Contents,
                        query: Query) { h in contents && Accepts(query, contents[h].fields) }

  /** Over the stored documents the query finds exactly what the coarse predicate admits. */
  lemma HitIsAdmitted(hash: string -> string, contents: Contents, docs: seq<Document>, plans: seq<Plan>, h: string)
    requires WellStored(hash, contents) && Stores(contents, docs) && CanonicalList(docs)
    ensures IsHit(h, contents, Conjunction(QueryClauses(hash, plans))) <==> IsAdmittedID(h, docs, plans)
  {
    hide CanonicalList, CanonicalDocument, IndexFields, QueryClauses, CoarseMatch, ProductDocID, Accepts;
    if h in contents {
      var k :| 0 <= k < |docs| && docs[k] == contents[h].document;
      CanonicalMember(docs, k);
      QueryMatchesPredicate(hash, docs[k], contents[h].fields, plans);
    }
    if IsAdmittedID(h, docs, plans) {
      var k :| 0 <= k < |docs| && CoarseMatch(docs[k], plans) && ProductDocID(docs[k].binding.productID) == h;
      assert IDOf(docs[k]) == h;
    }
  }
}
