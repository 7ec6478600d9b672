/** The search adapter: its cached documents and digest, over a stored index that the library may
    fail to write, misread or search wrongly. */
module SpecAdapter {
  import opened Wrappers
  import opened Ordering
  import opened Predicates
  import opened Publications
  import opened CoarseIndex
  import opened CoarseQuery
  import opened SpecIndex
  import opened StoredIndex

  /** What a read of the stored index meets: what is stored, another consistent index, or a failure. */
  datatype Load = Intact | Damaged(documents: seq<Document>) | LoadFailed(transient: bool)

  /** What the library and the resource gate do during one replacement. */
  datatype ReplaceIO = ReplaceIO(admitted: bool, created: bool, reload: Load, recreated: bool, batched: bool,
                                 load: Load)

  /** What the library does during one search. */
  datatype SearchIO = SearchIO(admitted: bool, docCount: nat, failed: bool, total: nat, hits: seq<string>)

  /** Nothing fails, and the library reads what is stored. */
  predicate Works(io: ReplaceIO) {
    io.admitted && io.created && io.reload.Intact? && io.recreated && io.batched && io.load.Intact?
  }

  /** The library answers the query over what it stores, each hit once. */
  ghost predicate Honest(io: SearchIO, contents: Contents, query: Query) {
    && io.admitted && !io.failed && io.docCount == |contents| && io.total == |io.hits|
    && (forall i, j :: 0 <= i < j < |io.hits| ==> io.hits[i] != io.hits[j])
    && (forall h :: h in io.hits <==> IsHit(h, contents, query))
  }

  /** The adapter. Its answers come from the cached documents, which its digest always names. */
  class BleveSpecIndex {
    var documents: seq<Document>
    var sourceDigest: Digest
    var open: bool
    var closed: bool
    /** The stored index: the documents its metadata names, and its entries. */
    var metadata: seq<Document>
    var contents: Contents
    const hash: string -> string

    /** A digest is present only beside the documents it is of, in an open index. */
    ghost predicate Valid()
      reads this
    {
      && CanonicalList(documents) && CanonicalList(metadata)
      && Injective(hash) && WellStored(hash, contents)
      && (sourceDigest != NoDigest ==> sourceDigest == Sha256(documents) && open && !closed)
      && (sourceDigest == NoDigest ==> documents == [])
    }

    /** What is stored in an open index is what is cached. */
    ghost predicate Consistent()
      reads this
    {
      open ==> Stores(contents, documents)
    }

    /** What the library is asked for predicates over the cached documents. */
    ghost function QueryFor(predicates: seq<Predicate>): Query
      reads this
    {
      Conjunction(QueryClauses(hash, PlansOf(documents, predicates)))
    }

    /** The adapter is in step with its index, the predicates are sound and the library honest. */
    ghost predicate Answerable(predicates: seq<Predicate>, io: SearchIO)
      reads this
    {
      && sourceDigest != NoDigest && Consistent()
      && AllAsked(predicates) && Honest(io, contents, QueryFor(predicates))
    }

    /** Opens the index an earlier run left, if it loads; otherwise starts an empty one. */
    constructor (hash: string -> string, left: Option<(seq<Document>, Contents)>, io: Load)
      requires Injective(hash)
      requires left.Some? ==> CanonicalList(left.value.0) && WellStored(hash, left.value.1)
      ensures Valid() && open && !closed && sourceDigest == Sha256(documents)
      ensures !io.Damaged? ==> Consistent()
      ensures left.None? || io.LoadFailed? ==> documents == []
      ensures left.Some? && io.Intact? && Stores(left.value.1, left.value.0) ==> documents == left.value.0
    {
      documents, sourceDigest, open, closed, metadata, contents := [], Sha256([]), true, false, [], map[];
      this.hash := hash;
      new;
      hide CanonicalList, Injective, IndexFields;
      EmptyIsCanonical();
      if left.Some? {
        metadata, contents := left.value.0, left.value.1;
        var loaded, _ := LoadLocked(io);
        if !loaded { Create(); }
      }
    }

    method Unavailable()
      modifies this
      ensures documents == [] && sourceDigest == NoDigest && !open
      ensures closed == old(closed) && metadata == old(metadata) && contents == old(contents)
    {
      sourceDigest, documents, open := NoDigest, [], false;
    }

    /** Starts an empty index in place of whatever was stored. */
    method Create()
      modifies this
      ensures documents == [] && sourceDigest == Sha256([]) && open && closed == old(closed)
      ensures metadata == [] && contents == map[]
    {
      documents, sourceDigest, open, metadata, contents := [], Sha256([]), true, [], map[];
    }

    /** Rereads the stored index. It is adopted only if its documents validate and are exactly its
        entries, and then with its own digest. */
    method LoadLocked(io: Load) returns (ok: bool, transient: bool)
      requires CanonicalList(metadata) && WellStored(hash, contents)
      modifies this`documents, this`sourceDigest
      ensures ok ==> CanonicalList(documents) && sourceDigest == Sha256(documents)
      ensures io.Intact? ==> !transient && (ok <==> Stores(contents, metadata))
      ensures io.Intact? && ok ==> documents == metadata
      ensures io.LoadFailed? ==> !ok && transient == io.transient
      ensures !ok ==> documents == old(documents) && sourceDigest == old(sourceDigest)
    {
      hide CanonicalList, WellStored, Stores;
      if io.LoadFailed? { return false, io.transient; }
      var read := if io.Intact? then metadata else io.documents;
      var valid := SpecBleveValidateDocuments(read);
      if !valid { return false, false; }
      if io.Intact? {
        CanonicalIsSorted(read);
        var found := StoredDocuments(hash, contents, read);
        if !found { return false, false; }
      }
      documents, sourceDigest := read, Sha256(read);
      return true, false;
    }

    /** Every path that fails leaves the adapter without a digest; one that succeeds leaves it
        with the publications' documents, unless the library read back something else. */
    method ReplaceWithMode(active: seq<Activation>, force: bool, io: ReplaceIO) returns (ok: bool)
      requires Valid()
      modifies this
      ensures Valid() && closed == old(closed)
      ensures ok ==> !closed && sourceDigest == Sha256(documents)
      ensures ok && !io.load.Damaged? ==> IsListingDocuments(documents, active)
      ensures !io.load.Damaged? && !io.reload.Damaged? && old(Consistent()) ==> Consistent()
      ensures ok && !io.load.Damaged? && !io.reload.Damaged? ==> Consistent()
      ensures !ok && !closed ==> sourceDigest == NoDigest && !open
      ensures !closed && old(Consistent()) && Works(io) && Listable(active) ==> ok
    {
      hide CanonicalList, IsListingDocuments, Injective, WellStored, Stores;
      EmptyIsCanonical();
      if closed { return false; }
      var docs := SpecBleveDocuments(active);
      if docs.None? { Unavailable(); return false; }
      assert IsListingDocuments(docs.value, active) by { ListingFrom(docs.value, active); }
      ListingIsCanonical(docs.value, active);
      EmptyIsStored(hash);
      if !io.admitted { Unavailable(); return false; }
      if !open {
        if !io.created { Unavailable(); return false; }
        Create();
      }
      if !force && Sha256(docs.value) == sourceDigest {
        var read, transient := LoadLocked(io.reload);
        if read && documents == docs.value { return true; }
        if !read && transient { Unavailable(); return false; }
        Unavailable();
        if !io.recreated { return false; }
        Create();
      }
      if !io.batched { Unavailable(); return false; }
      contents := Batch(hash, contents, documents, docs.value);
      documents, sourceDigest, metadata := docs.value, Sha256(docs.value), docs.value;
      var loaded, _ := LoadLocked(io.load);
      if !loaded { Unavailable(); return false; }
      return true;
    }

    /** Whatever the library returns, the answer is an error or the one snapshot of the cached
        documents: its hits are only compared with the coarse predicate. A library that answers
        the query over the stored fields honestly is never refused. */
    method Candidates(predicates: seq<Predicate>, io: SearchIO) returns (r: Option<Snapshot>)
      requires Valid()
      ensures r.Some? ==> sourceDigest == Sha256(documents) && r.value == SnapshotOf(documents, predicates)
      ensures Answerable(predicates, io) ==> r.Some?
    {
      hide CoarseMatch, CanonicalList, PlansOf, ValidSpecPredicate, IsAdmittedID, ProductDocID, Bindings, QueryClauses;
      hide Injective, WellStored, Stores, IsHit;
      if closed || !open || sourceDigest == NoDigest { return None; }
      for n := 0 to |predicates| {
        if !ValidSpecPredicate(predicates[n]) { return None; }
      }
      if Consistent() { StoredCount(hash, contents, documents); }
      if !io.admitted || io.docCount != |documents| { return None; }
      var plans := SpecBlevePlans(documents, predicates);
      var asked := SpecBleveQuery(hash, plans);
      if io.failed || io.total != |io.hits| { return None; }
      var expected, candidates, inventory := ExpectedHits(plans);
      if Consistent() && Honest(io, contents, asked) {
        forall h ensures h in io.hits <==> h in expected { HitIsAdmitted(hash, contents, documents, plans, h); }
        DistinctCount(io.hits, expected);
      }
      if |expected| != |io.hits| { return None; }
      var seen: set<string> := {};
      for n := 0 to |io.hits|
        invariant forall h :: h in seen <==> h in io.hits[..n]
      {
        if io.hits[n] !in expected || io.hits[n] in seen { return None; }
        seen := seen + {io.hits[n]};
      }
      return Some(Snapshot(PROJECTION_VERSION, sourceDigest, inventory, candidates));
    }

    /** What the coarse predicate admits of the cached documents. */
    method ExpectedHits(plans: seq<Plan>)
      returns (expected: set<string>, candidates: seq<Binding>, inventory: seq<Binding>)
      ensures forall h :: h in expected <==> IsAdmittedID(h, documents, plans)
      ensures candidates == Admitted(documents, plans) && inventory == Bindings(documents)
    {
      hide CoarseMatch, IsAdmittedID, ProductDocID, Bindings;
      expected, candidates, inventory := {}, [], [];
      NoneAdmitted(plans);
      assert documents[..0] == [] && Bindings([]) == [];
      for n := 0 to |documents|
        invariant candidates == Admitted(documents[..n], plans)
        invariant inventory == Bindings(documents[..n])
        invariant forall h :: h in expected <==> IsAdmittedID(h, documents[..n], plans)
      {
        assert documents[..n + 1][..n] == documents[..n];
        MoreAdmitted(documents, n, plans);
        inventory := inventory + [documents[n].binding];
        var admitted := SpecBleveCoarseMatch(documents[n], plans);
        if admitted {
          expected := expected + {ProductDocID(documents[n].binding.productID)};
          candidates := candidates + [documents[n].binding];
        }
      }
      assert documents[..|documents|] == documents;
    }

    method Close()
      requires Valid()
      modifies this
      ensures Valid() && closed && sourceDigest == NoDigest
    {
      hide CanonicalList;
      EmptyIsCanonical();
      if closed { return; }
      closed, sourceDigest, documents, open := true, NoDigest, [], false;
    }
  }

  lemma CanonicalIsSorted(docs: seq<Document>)
    requires CanonicalList(docs)
    ensures StrictlySorted(DocumentLess, docs)
  {
  }

  lemma EmptyIsStored(hash: string -> string)
    ensures WellStored(hash, map[]) && Stores(map[], [])
  {
  }

  lemma StoredCount(hash: string -> string, contents: Contents, docs: seq<Document>)
    requires CanonicalList(docs) && WellStored(hash, contents)
    ensures Stores(contents, docs) ==> |contents| == |docs|
  {
    CanonicalIsSorted(docs);
    FoundIsStored(hash, contents, docs);
  }
}
