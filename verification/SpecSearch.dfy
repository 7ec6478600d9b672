/** Numeric search over one admitted index: whatever the adapter answered earlier, the result is
    the exact scan of that index. */
module SpecSearch {
  import opened Wrappers
  import opened Ordering
  import opened Decimals
  import opened Profiles
  import opened Values
  import opened Predicates
  import opened Publications
  import opened CoarseIndex
  import opened SpecIndex
  import opened PublicTables

  datatype Request = Request(predicates: seq<Predicate>, categoryID: string, manufacturerID: string, locale: string,
                             page: int, pageSize: int)

  datatype SearchError = InvalidSearch | UnsupportedSearch | PublicUnavailable | Cancelled

  datatype SearchResult = SearchResult(rows: seq<View>, total: nat, page: int, pageSize: int)

  const MAX_PAGE_SIZE := 100

  // ---- the exact scan

  function InScope(view: View, request: Request): bool {
    && (request.manufacturerID == "" || request.manufacturerID == view.manufacturerID)
    && (request.categoryID == "" || request.categoryID == view.categoryID || request.categoryID in view.categoryTrail)
  }

  predicate Asked(d: NumericDefinition, request: Request) {
    exists k :: 0 <= k < |request.predicates| && request.predicates[k].specID == d.specID
  }

  /** The asked definitions of the scoped publications among ids. */
  ghost function Scoped(byID: Live, ids: set<string>, request: Request): set<NumericDefinition> {
    set id, d |
      id in ids && id in byID && d in byID[id].view.definitions && InScope(byID[id].view, request) && Asked(d, request)
      :: d
  }

  /** The definitions are valid and give each specification one meaning. */
  ghost predicate OneMeaning(definitions: set<NumericDefinition>) {
    && (forall d :: d in definitions ==> ValidProfile(d.profile))
    && (forall d, e :: d in definitions && e in definitions && d.specID == e.specID ==> CompatibleDefinitions(d, e))
  }

  ghost predicate AllNormalize(definitions: set<NumericDefinition>, predicates: seq<Predicate>) {
    forall k, d :: 0 <= k < |predicates| && d in definitions && d.specID == predicates[k].specID ==>
      NormalizePredicate(predicates[k], d.profile).Some?
  }

  /** The first structural error of the predicates. */
  function PredicateError(predicates: seq<Predicate>): (r: Option<SearchError>)
    ensures r.None? <==> forall k :: 0 <= k < |predicates| ==> ValidSpecPredicate(predicates[k])
    ensures r.Some? ==> r.value.InvalidSearch? || r.value.UnsupportedSearch?
  {
    if predicates == [] then None
    else if ValidSpecPredicate(predicates[0]) then PredicateError(predicates[1..])
    else Some(ErrorOf(predicates[0]))
  }

  function ErrorOf(p: Predicate): SearchError {
    if !Blank(p.specID) && !Blank(p.unit) && p.operator.OtherOperator? then UnsupportedSearch else InvalidSearch
  }

  predicate GoodPaging(request: Request) { request.page >= 1 && 1 <= request.pageSize <= MAX_PAGE_SIZE }

  const FALLBACK_LOCALE := "en-US"

  function SupportedLocales(view: View): seq<string> {
    if view.locales.supported != [] then view.locales.supported
    else [if view.locales.language == "" then FALLBACK_LOCALE else view.locales.language]
  }

  /** The locale asked for, or the view's own. */
  function ResolvedLocale(view: View, locale: string): string {
    if locale != "" then locale
    else if view.locales.defaultLocale != "" then view.locales.defaultLocale
    else view.locales.language
  }

  /** The first listed view decides which locales are enabled. */
  predicate LocaleEnabled(views: seq<View>, locale: string) {
    views != [] ==> ResolvedLocale(views[0], locale) in SupportedLocales(views[0])
  }

  predicate Available(index: Option<IndexState>) { index.Some? && !index.value.unhealthy }

  ghost function Refusal(index: Option<IndexState>, request: Request): Option<SearchError> {
    if !GoodPaging(request) then Some(InvalidSearch)
    else if PredicateError(request.predicates).Some? then PredicateError(request.predicates)
    else if !Available(index) then Some(PublicUnavailable)
    else if !LocaleEnabled(index.value.tables.views, request.locale) then Some(InvalidSearch)
    else
      var byID := index.value.tables.byID;
      var definitions := Scoped(byID, byID.Keys, request);
      if !OneMeaning(definitions) then Some(PublicUnavailable)
      else if !AllNormalize(definitions, request.predicates) then Some(UnsupportedSearch)
      else None
  }

  ghost predicate Hit(a: Activation, request: Request) {
    InScope(a.view, request) && ViewTruth(a.view.definitions, a.view.facts, request.predicates) == Match
  }

  ghost predicate IsHit(byID: Live, ids: set<string>, request: Request, v: View) {
    exists id :: id in ids && id in byID && Hit(byID[id], request) && byID[id].view == v
  }

  /** The views the exact oracle matches, in listing order. */
  ghost predicate IsScan(matches: seq<View>, byID: Live, request: Request) {
    StrictlySorted(ViewLess, matches) && forall v :: v in matches <==> IsHit(byID, byID.Keys, request, v)
  }

  /** What a full scan of the index answers. */
  ghost predicate Answers(index: Option<IndexState>, request: Request, r: Result<SearchResult, SearchError>) {
    match Refusal(index, request)
    case Some(error) => r == Failure(error)
    case None =>
      exists matches ::
        IsScan(matches, index.value.tables.byID, request) && r == Success(ResultOf(matches, request))
  }

  function ResultOf(matches: seq<View>, request: Request): SearchResult
    requires GoodPaging(request)
  {
    SearchResult(PageOf(matches, request.page, request.pageSize), |matches|, request.page, request.pageSize)
  }

  /** The full scan has one answer, so a search that always gives it does not depend on the
      adapter, the index library or the order maps are read in. */
  lemma AnswerIsUnique(index: Option<IndexState>, request: Request, r: Result<SearchResult, SearchError>,
                       s: Result<SearchResult, SearchError>)
    requires Answers(index, request, r) && Answers(index, request, s)
    ensures r == s
  {
    hide IsHit, ViewLess, ResultOf, PredicateError, Scoped;
    if Refusal(index, request).None? {
      var a :| IsScan(a, index.value.tables.byID, request) && r == Success(ResultOf(a, request));
      var b :| IsScan(b, index.value.tables.byID, request) && s == Success(ResultOf(b, request));
      forall x, y ensures ViewLess(x, y) ==> !ViewLess(y, x) { ViewOrder(x, y); }
      SortedUnique(ViewLess, a, b);
    }
  }

  // ---- what is refused, and what scope and locale mean

  /** One number, and an operator that compares with one. */
  ghost predicate AsksPoint(p: Predicate, x: Decimal) {
    && p == Predicate(p.specID, p.operator, Some(x), None, None, p.unit) && IsNumber(x)
    && p.operator in {Equal, Less, LessEqual, Greater, GreaterEqual, ContainsPoint}
  }

  /** Two numbers in order, and an operator over ranges. */
  ghost predicate AsksRange(p: Predicate, x: Decimal, y: Decimal) {
    && p == Predicate(p.specID, p.operator, None, Some(x), Some(y), p.unit) && IsNumber(x) && IsNumber(y)
    && Num(x) <= Num(y) && p.operator in {Between, ContainsRange, OverlapsRange}
  }

  /** Well-formed predicates name a specification and a unit, and ask for a point or a range. */
  lemma ValidExactly(p: Predicate)
    ensures ValidSpecPredicate(p) <==>
      && (exists c :: c in p.specID && !IsSpace(c)) && (exists c :: c in p.unit && !IsSpace(c))
      && ((exists x :: AsksPoint(p, x)) || exists x, y :: AsksRange(p, x, y))
  {
    hide Num, Canonical, IsSpace;
    if ValidSpecPredicate(p) {
      if IsRange(p.operator) {
        assert AsksRange(p, p.lower.value, p.upper.value);
      } else {
        assert AsksPoint(p, p.value.value);
      }
    }
  }

  /** The first ill-formed predicate decides the error: unsupported when it names its specification
      and unit but no known operator, invalid otherwise. */
  lemma {:induction false} FirstErrorIs(predicates: seq<Predicate>, k: nat)
    requires k < |predicates| && !ValidSpecPredicate(predicates[k])
    requires forall j :: 0 <= j < k ==> ValidSpecPredicate(predicates[j])
    ensures PredicateError(predicates).Some?
    ensures PredicateError(predicates) == Some(UnsupportedSearch) <==>
      && predicates[k].operator.OtherOperator?
      && (exists c :: c in predicates[k].specID && !IsSpace(c)) && (exists c :: c in predicates[k].unit && !IsSpace(c))
  {
    hide ValidSpecPredicate, IsSpace;
    if k == 0 {
    } else {
      FirstErrorIs(predicates[1..], k - 1);
    }
  }

  /** What a hit is: a publication of the asked manufacturer, in the asked category or below it, on
      which every predicate matches. */
  lemma HitsAre(byID: Live, ids: set<string>, request: Request, v: View)
    ensures IsHit(byID, ids, request, v) <==>
      && (exists id :: id in ids && id in byID && byID[id].view == v)
      && (request.manufacturerID != "" ==> v.manufacturerID == request.manufacturerID)
      && (request.categoryID != "" && v.categoryID != request.categoryID ==> request.categoryID in v.categoryTrail)
      && forall k :: 0 <= k < |request.predicates| ==>
           PredicateTruth(v.definitions, v.facts, request.predicates[k]) == Match
  {
    hide ViewTruth, PredicateTruth;
    ViewMatchesAll(v.definitions, v.facts, request.predicates);
  }

  /** The filters select from the unfiltered hits, and nothing else. */
  lemma FiltersSelect(byID: Live, request: Request, all: seq<View>, some: seq<View>, v: View)
    requires IsScan(all, byID, request.(manufacturerID := "", categoryID := "")) && IsScan(some, byID, request)
    ensures v in some <==>
      && v in all
      && (request.manufacturerID != "" ==> v.manufacturerID == request.manufacturerID)
      && (request.categoryID != "" && v.categoryID != request.categoryID ==> request.categoryID in v.categoryTrail)
  {
    var open := request.(manufacturerID := "", categoryID := "");
    hide IsHit, PredicateTruth, ViewLess;
    HitsAre(byID, byID.Keys, request, v);
    HitsAre(byID, byID.Keys, open, v);
  }

  /** Which locales a listing serves: those the first view supports, or its one language, or the
      fallback when it names none; no locale asked for means the view's own default, which must be
      served too, so a view naming no locale at all serves the fallback by name alone. */
  lemma LocaleEnabledExactly(views: seq<View>, locale: string)
    ensures views == [] ==> LocaleEnabled(views, locale)
    ensures views != [] && locale == "" && views[0].locales.defaultLocale != "" ==>
      (LocaleEnabled(views, "") <==> LocaleEnabled(views, views[0].locales.defaultLocale))
    ensures views != [] && locale == "" && views[0].locales.defaultLocale == "" && views[0].locales.language != "" ==>
      (LocaleEnabled(views, "") <==> LocaleEnabled(views, views[0].locales.language))
    ensures views != [] && locale == "" && views[0].locales.defaultLocale == "" && views[0].locales.language == "" ==>
      (LocaleEnabled(views, "") <==> "" in views[0].locales.supported)
    ensures views != [] && locale != "" && views[0].locales.supported != [] ==>
      (LocaleEnabled(views, locale) <==> locale in views[0].locales.supported)
    ensures views != [] && locale != "" && views[0].locales.supported == [] && views[0].locales.language != "" ==>
      (LocaleEnabled(views, locale) <==> locale == views[0].locales.language)
    ensures views != [] && locale != "" && views[0].locales.supported == [] && views[0].locales.language == "" ==>
      (LocaleEnabled(views, locale) <==> locale == "en-US")
  {
  }

  // ---- pages

  /** One page, computed without multiplying until the page is known to lie within the matches. */
  function PageOf(matches: seq<View>, page: int, size: int): (rows: seq<View>)
    requires page >= 1 && size >= 1
  {
    if |matches| == 0 || page - 1 > (|matches| - 1) / size then []
    else
      PageStart(|matches|, page - 1, size);
      var start := Offset(page - 1, size);
      matches[start..start + Min(size, |matches| - start)]
  }

  /** Where a page starts, counting pages from zero. */
  function Offset(page: int, size: int): int { page * size }

  function Min(a: int, b: int): int { if a <= b then a else b }

  lemma PageStart(n: nat, page: nat, size: nat)
    requires n > 0 && size > 0 && page <= (n - 1) / size
    ensures 0 <= Offset(page, size) < n
  {
    assert page * size <= (n - 1) / size * size by { MulMonotone(page, (n - 1) / size, size); }
  }

  lemma MulMonotone(a: nat, b: nat, c: nat)
    requires a <= b
    ensures a * c <= b * c
  {
  }

  lemma PageBeyond(n: nat, page: nat, size: nat)
    requires size > 0 && (n == 0 || page > (n - 1) / size)
    ensures Offset(page, size) >= n
  {
    if n > 0 {
      MulMonotone((n - 1) / size + 1, page, size);
      assert ((n - 1) / size + 1) * size == (n - 1) / size * size + size;
    }
  }

  function FirstPages(matches: seq<View>, size: int, k: nat): seq<View>
    requires size >= 1
  {
    if k == 0 then [] else FirstPages(matches, size, k - 1) + PageOf(matches, k, size)
  }

  function Start(page: nat, size: nat, n: nat): (r: nat)
    ensures r <= n
  {
    OffsetPositive(page, size);
    Min(Offset(page, size), n)
  }

  lemma OffsetPositive(a: nat, b: nat)
    ensures Offset(a, b) >= 0 && Offset(0, b) == 0
  {
    MulMonotone(0, a, b);
  }

  lemma NextStart(page: nat, size: nat)
    requires page >= 1
    ensures Offset(page, size) == Offset(page - 1, size) + size
  {
  }

  /** A page is the stretch of matches that belongs to its number. */
  lemma PageIs(matches: seq<View>, page: nat, size: nat)
    requires page >= 1 && size >= 1
    ensures Start(page - 1, size, |matches|) <= Start(page, size, |matches|)
    ensures PageOf(matches, page, size) == matches[Start(page - 1, size, |matches|)..Start(page, size, |matches|)]
  {
    NextStart(page, size);
    hide Offset;
    if |matches| == 0 || page - 1 > (|matches| - 1) / size {
      PageBeyond(|matches|, page - 1, size);
    } else {
      PageStart(|matches|, page - 1, size);
    }
  }

  /** Reading the pages one after another gives the matches from the start, each once. */
  lemma {:induction false} PagesConcatenate(matches: seq<View>, size: nat, k: nat)
    requires size >= 1
    ensures FirstPages(matches, size, k) == matches[..Start(k, size, |matches|)]
  {
    if k == 0 {
    } else {
      hide PageOf, Start;
      PagesConcatenate(matches, size, k - 1);
      PageIs(matches, k, size);
      var from, to := Start(k - 1, size, |matches|), Start(k, size, |matches|);
      assert matches[..from] + matches[from..to] == matches[..to];
    }
  }

  // ---- admitting the adapter's candidates

  /** Either no answer, or the one snapshot of some canonical document list. */
  ghost predicate AdapterAnswer(snapshot: Option<Snapshot>, predicates: seq<Predicate>) {
    snapshot.Some? ==> exists docs :: CanonicalList(docs) && snapshot.value == SnapshotOf(docs, predicates)
  }

  predicate CachedBindingMatches(b: Binding, expected: Binding) {
    && b.projectionVersion == expected.projectionVersion && b.productID == expected.productID
    && b.publicRevision == expected.publicRevision && b.sourceRevision == expected.sourceRevision
    && b.siteEpoch == expected.siteEpoch && b.visibilityGeneration == expected.visibilityGeneration
  }

  /** The listed identifiers, once sorted, are the expected sorted ones. */
  predicate SameIDs(ids: seq<string>, expected: seq<string>) { multiset(ids) == multiset(expected) }

  predicate BindingMatches(b: Binding, a: Activation) {
    && b.projectionVersion == PROJECTION_VERSION && b.productID == a.productID
    && b.publicRevision == a.publicRevision && b.sourceRevision == a.sourceRevision
    && b.siteEpoch == a.siteEpoch && b.visibilityGeneration == a.visibilityGeneration
  }

  predicate Expected(b: Binding, expected: map<string, Binding>) {
    && b.productID in expected && CachedBindingMatches(b, expected[b.productID])
    && SameIDs(b.specIDs, expected[b.productID].specIDs)
  }

  ghost predicate NoneTwice(s: seq<Binding>) { forall j, k :: 0 <= j < k < |s| ==> s[j].productID != s[k].productID }

  /** The inventory lists every expected binding once, and nothing else. */
  ghost predicate ListsExactly(s: seq<Binding>, expected: map<string, Binding>) {
    && (forall k :: 0 <= k < |s| ==> Expected(s[k], expected))
    && NoneTwice(s)
    && (forall id :: id in expected ==> Lists(s, id))
  }

  method SpecInventoryMatches(snapshot: Snapshot, expected: map<string, Binding>) returns (ok: bool)
    ensures ok <==> snapshot.projectionVersion == PROJECTION_VERSION && ListsExactly(snapshot.inventory, expected)
  {
    hide CachedBindingMatches, SameIDs, ListsExactly, Expected, SeenSoFar, NoneTwice, Lists;
    var listed := snapshot.inventory;
    ExactlyListed(listed, expected);
    if snapshot.projectionVersion != PROJECTION_VERSION || |listed| != |expected| { return false; }
    var seen: set<string> := {};
    for n := 0 to |listed|
      invariant |seen| == n
      invariant SeenSoFar(listed[..n], seen, expected)
    {
      var b := listed[n];
      assert listed[..n + 1] == listed[..n] + [b];
      SeenMore(listed[..n], b, seen, expected);
      if !Expected(b, expected) || b.productID in seen { return false; }
      seen := seen + {b.productID};
    }
    assert listed[..|listed|] == listed;
    SeenAll(listed, seen, expected);
    return true;
  }

  ghost predicate SeenSoFar(s: seq<Binding>, seen: set<string>, expected: map<string, Binding>) {
    && (forall k :: 0 <= k < |s| ==> Expected(s[k], expected))
    && NoneTwice(s)
    && (forall id :: id in seen <==> Lists(s, id))
  }

  lemma SeenMore(s: seq<Binding>, b: Binding, seen: set<string>, expected: map<string, Binding>)
    requires SeenSoFar(s, seen, expected)
    ensures NoneTwice(s + [b]) ==> b.productID !in seen
    ensures Expected(b, expected) && b.productID !in seen ==> SeenSoFar(s + [b], seen + {b.productID}, expected)
  {
    hide Expected;
    if b.productID in seen {
      var k :| 0 <= k < |s| && s[k].productID == b.productID;
      assert (s + [b])[k].productID == (s + [b])[|s|].productID;
    } else {
      ListedMore(s, b);
    }
  }

  lemma ListedMore(s: seq<Binding>, b: Binding)
    requires NoneTwice(s) && !Lists(s, b.productID)
    ensures NoneTwice(s + [b]) && forall id :: Lists(s + [b], id) <==> Lists(s, id) || id == b.productID
  {
    forall id ensures Lists(s + [b], id) <==> Lists(s, id) || id == b.productID {
      if Lists(s, id) { var k :| 0 <= k < |s| && s[k].productID == id; assert (s + [b])[k].productID == id; }
      if id == b.productID { assert (s + [b])[|s|].productID == id; }
    }
  }

  lemma ExactlyListed(s: seq<Binding>, expected: map<string, Binding>)
    ensures ListsExactly(s, expected) ==> |s| == |expected|
    ensures ListsExactly(s, expected) ==> forall n :: 0 <= n <= |s| ==> NoneTwice(s[..n])
    ensures ListsExactly(s, expected) ==> forall k :: 0 <= k < |s| ==> Expected(s[k], expected)
    ensures SeenSoFar([], {}, expected)
  {
    hide CachedBindingMatches, SameIDs;
    if ListsExactly(s, expected) { ListedCount(s, expected.Keys); }
  }

  lemma SeenAll(s: seq<Binding>, seen: set<string>, expected: map<string, Binding>)
    requires |seen| == |expected| && SeenSoFar(s, seen, expected)
    ensures ListsExactly(s, expected)
  {
    hide CachedBindingMatches, SameIDs;
    forall id | id in seen ensures id in expected { assert Lists(s, id); }
    SubsetOfEqualSize(seen, expected.Keys);
  }

  ghost predicate Lists(s: seq<Binding>, id: string) { exists k :: 0 <= k < |s| && s[k].productID == id }

  lemma {:induction false} ListedCount(s: seq<Binding>, ids: set<string>)
    requires forall k :: 0 <= k < |s| ==> s[k].productID in ids
    requires forall j, k :: 0 <= j < k < |s| ==> s[j].productID != s[k].productID
    requires forall id :: id in ids ==> Lists(s, id)
    ensures |s| == |ids|
  {
    if s == [] {
      assert forall id :: !Lists(s, id);
      assert ids == {};
    } else {
      var n := |s| - 1;
      var rest := ids - {s[n].productID};
      forall id | id in rest ensures Lists(s[..n], id) {
        var k :| 0 <= k < |s| && s[k].productID == id;
        assert s[..n][k].productID == id;
      }
      ListedCount(s[..n], rest);
    }
  }

  /** A digest held by an index is of its own documents. */
  ghost predicate DigestCoherent(index: IndexState) {
    index.specDigest != NoDigest ==>
      && index.specDigest.Sha256? && IsDocuments(index.specDigest.documents, index.tables.byID)
      && AllIndexable(index.tables.byID)
  }

  /** What every healthy index keeps of what a search reads. */
  ghost predicate SearchReady(index: IndexState) {
    DigestCoherent(index) && ViewsKeyed(index.tables.byID) && InventoryIs(index.tables.specInventory, index.tables.byID)
  }

  /** No publication the oracle matches is missing. */
  ghost predicate KeepsMatches(byID: Live, candidates: set<string>, predicates: seq<Predicate>) {
    forall id ::
      id in byID && ViewTruth(byID[id].view.definitions, byID[id].view.facts, predicates) == Match ==> id in candidates
  }

  lemma DocumentTruth(a: Activation, predicates: seq<Predicate>)
    ensures ViewTruth(a.view.definitions, a.view.facts, predicates) ==
      ViewTruth(DocumentOf(a).definitions, DocumentOf(a).facts, predicates)
  {
    hide ViewTruth;
  }

  /** A snapshot with the index's own digest names every match among its candidates. */
  lemma SameDigestKeepsMatches(index: IndexState, docs: seq<Document>, predicates: seq<Predicate>, id: string)
    requires DigestCoherent(index) && ViewsKeyed(index.tables.byID) && CanonicalList(docs)
    requires Sha256(docs) == index.specDigest
    requires id in index.tables.byID
    requires ViewTruth(index.tables.byID[id].view.definitions, index.tables.byID[id].view.facts, predicates) == Match
    ensures var found := SnapshotOf(docs, predicates).candidates;
      exists k :: 0 <= k < |found| && found[k].productID == id
  {
    hide ViewTruth, CoarseMatch, PlansOf, CanonicalList, CanonicalDocument, DocumentLess, AllIndexable, ProjectionIDs;
    hide Admitted;
    var a := index.tables.byID[id];
    var d := DocumentOf(a);
    assert d in docs;
    forall k | 0 <= k < |docs| ensures CanonicalDocument(docs[k]) { CanonicalMember(docs, k); }
    DocumentTruth(a, predicates);
    NoFalseNegatives(docs, d, predicates);
    var j :| 0 <= j < |docs| && docs[j] == d;
    AdmittedAre(docs, PlansOf(docs, predicates), d.binding);
    assert d.binding in SnapshotOf(docs, predicates).candidates;
  }

  /** What the index's own snapshot says of its publications. */
  ghost predicate Fresh(index: IndexState, snapshot: Snapshot) {
    && snapshot.projectionVersion == PROJECTION_VERSION
    && ListsExactly(snapshot.inventory, index.tables.specInventory)
    && forall k :: 0 <= k < |snapshot.candidates| ==>
         && snapshot.candidates[k].productID in index.tables.byID
         && BindingMatches(snapshot.candidates[k], index.tables.byID[snapshot.candidates[k].productID])
  }

  lemma DocumentIsExpected(index: IndexState, d: Document)
    requires ViewsKeyed(index.tables.byID) && InventoryIs(index.tables.specInventory, index.tables.byID)
    requires Describes(d, index.tables.byID)
    ensures Expected(d.binding, index.tables.specInventory)
    ensures d.binding.productID in index.tables.byID
    ensures BindingMatches(d.binding, index.tables.byID[d.binding.productID])
  {
    hide ProjectionIDs;
  }

  /** The index holds a publication the binding names and matches. */
  predicate Names(b: Binding, index: IndexState) {
    && Expected(b, index.tables.specInventory)
    && b.productID in index.tables.byID && BindingMatches(b, index.tables.byID[b.productID])
  }

  lemma OwnInventory(index: IndexState, docs: seq<Document>)
    requires ViewsKeyed(index.tables.byID) && InventoryIs(index.tables.specInventory, index.tables.byID)
    requires IsDocuments(docs, index.tables.byID)
    ensures ListsExactly(Bindings(docs), index.tables.specInventory)
    ensures forall k :: 0 <= k < |docs| ==> Names(docs[k].binding, index)
  {
    hide Expected, InventoryIs, Describes, Lists, BindingMatches;
    forall k | 0 <= k < |docs| ensures Names(docs[k].binding, index) { DocumentIsExpected(index, docs[k]); }
    forall j, k | 0 <= j < k < |docs| ensures docs[j].binding.productID != docs[k].binding.productID {
      assert DocumentLess(docs[j], docs[k]);
      LexAsymmetric(docs[j].binding.productID, docs[k].binding.productID);
    }
    forall id | id in index.tables.specInventory
      ensures Lists(Bindings(docs), id)
    {
      OwnDocumentListed(index, docs, id);
    }
  }

  /** The snapshot of the index's own documents passes every check. */
  lemma OwnSnapshotIsFresh(index: IndexState, docs: seq<Document>, predicates: seq<Predicate>)
    requires ViewsKeyed(index.tables.byID) && InventoryIs(index.tables.specInventory, index.tables.byID)
    requires IsDocuments(docs, index.tables.byID)
    ensures Fresh(index, SnapshotOf(docs, predicates))
  {
    hide CoarseMatch, PlansOf, Expected, BindingMatches, InventoryIs, Admitted, IsDocuments, ListsExactly, ViewsKeyed;
    OwnInventory(index, docs);
    var found := SnapshotOf(docs, predicates).candidates;
    forall k | 0 <= k < |found| ensures Names(found[k], index) {
      AdmittedAre(docs, PlansOf(docs, predicates), found[k]);
    }
  }

  lemma OwnDocumentListed(index: IndexState, docs: seq<Document>, id: string)
    requires ViewsKeyed(index.tables.byID) && InventoryIs(index.tables.specInventory, index.tables.byID)
    requires IsDocuments(docs, index.tables.byID) && id in index.tables.specInventory
    ensures Lists(Bindings(docs), id)
  {
    hide ProjectionIDs, Describes;
    var d := DocumentOf(index.tables.byID[id]);
    assert d in docs;
    var k :| 0 <= k < |docs| && docs[k] == d;
    assert Bindings(docs)[k].productID == id;
  }

  /** Decides between the adapter's candidates and a full scan: a snapshot with the index's own
      digest is always used, and no other. */
  method AdmitSpecCandidates(index: IndexState, snapshot: Option<Snapshot>, ghost predicates: seq<Predicate>)
    returns (candidates: set<string>, projected: bool)
    requires SearchReady(index) && AdapterAnswer(snapshot, predicates)
    ensures projected <==> snapshot.Some? && snapshot.value.sourceDigest == index.specDigest && !index.specDigestFailed
    ensures projected ==> KeepsMatches(index.tables.byID, candidates, predicates)
    ensures projected ==>
      candidates == set k | 0 <= k < |snapshot.value.candidates| :: snapshot.value.candidates[k].productID
  {
    hide CanonicalList, IsDocuments, AllIndexable, ViewTruth, Admitted, PlansOf, BindingMatches, ListsExactly;
    candidates := {};
    if snapshot.None? { return candidates, false; }
    ghost var docs :| CanonicalList(docs) && snapshot.value == SnapshotOf(docs, predicates);
    if Sha256(docs) == index.specDigest { OwnSnapshotIsFresh(index, docs, predicates); }
    assert index.tables.specInventory.Keys == index.tables.byID.Keys;
    if index.specDigestFailed || |index.tables.specInventory| != |index.tables.byID| { return candidates, false; }
    var complete := SpecInventoryMatches(snapshot.value, index.tables.specInventory);
    if !complete || snapshot.value.sourceDigest != index.specDigest { return candidates, false; }
    var found := snapshot.value.candidates;
    for n := 0 to |found|
      invariant candidates == set k | 0 <= k < n :: found[k].productID
    {
      var id := found[n].productID;
      if id !in index.tables.byID || !BindingMatches(found[n], index.tables.byID[id]) { return candidates, false; }
      candidates := candidates + {id};
    }
    var byID := index.tables.byID;
    forall id | id in byID && ViewTruth(byID[id].view.definitions, byID[id].view.facts, predicates) == Match
      ensures id in candidates
    {
      SameDigestKeepsMatches(index, docs, predicates, id);
    }
    return candidates, true;
  }

  // ---- the search

  /** One compatible definition for each specification seen. */
  ghost predicate Gathered(definitions: map<string, NumericDefinition>, seen: set<NumericDefinition>) {
    && OneMeaning(seen)
    && (forall d :: d in seen ==> d.specID in definitions)
    && (forall id :: id in definitions ==> definitions[id] in seen && definitions[id].specID == id)
  }

  lemma OneMeaningOfFewer(some: set<NumericDefinition>, all: set<NumericDefinition>)
    requires some <= all && OneMeaning(all)
    ensures OneMeaning(some)
  {
    hide ValidProfile, CompatibleDefinitions;
  }

  lemma GatheredMore(definitions: map<string, NumericDefinition>, seen: set<NumericDefinition>, d: NumericDefinition)
    requires Gathered(definitions, seen)
    ensures OneMeaning(seen + {d}) <==>
      ValidProfile(d.profile) && (d.specID in definitions ==> CompatibleDefinitions(definitions[d.specID], d))
    ensures OneMeaning(seen + {d}) ==> Gathered(definitions[d.specID := d], seen + {d})
  {
    hide ValidProfile, Normalized;
    if OneMeaning(seen + {d}) && d.specID in definitions { assert definitions[d.specID] in seen + {d}; }
    assert d in seen + {d};
  }

  /** The asked definitions of one view. */
  ghost function AskedOf(s: seq<NumericDefinition>,
                         request: Request): set<NumericDefinition> { set d | d in s && Asked(d, request) }

  method GatherView(definitions: map<string, NumericDefinition>, s: seq<NumericDefinition>, request: Request,
                    ghost seen: set<NumericDefinition>)
    returns (r: Option<map<string, NumericDefinition>>)
    requires Gathered(definitions, seen)
    ensures r.Some? ==> Gathered(r.value, seen + AskedOf(s, request))
    ensures r.None? ==> !OneMeaning(seen + AskedOf(s, request))
  {
    hide ValidProfile, CompatibleDefinitions, OneMeaning, Gathered, Asked;
    var next := definitions;
    assert seen + AskedOf(s[..0], request) == seen;
    for n := 0 to |s|
      invariant Gathered(next, seen + AskedOf(s[..n], request))
    {
      var d := s[n];
      ghost var before := seen + AskedOf(s[..n], request);
      assert s[..n + 1] == s[..n] + [d];
      if !Asked(d, request) {
        assert AskedOf(s[..n + 1], request) == AskedOf(s[..n], request);
        continue;
      }
      assert seen + AskedOf(s[..n + 1], request) == before + {d};
      GatheredMore(next, before, d);
      if !ValidProfile(d.profile) || (d.specID in next && !CompatibleDefinitions(next[d.specID], d)) {
        if OneMeaning(seen + AskedOf(s, request)) { OneMeaningOfFewer(before + {d}, seen + AskedOf(s, request)); }
        return None;
      }
      next := next[d.specID := d];
    }
    assert s[..|s|] == s;
    return Some(next);
  }

  lemma ScopedMore(byID: Live, done: set<string>, id: string, request: Request)
    requires id in byID
    ensures Scoped(byID, done + {id}, request) ==
            Scoped(byID, done, request)
            + if InScope(byID[id].view, request) then AskedOf(byID[id].view.definitions, request) else {}
  {
  }

  lemma ScopedFewer(byID: Live, done: set<string>, all: set<string>, request: Request)
    requires done <= all
    ensures Scoped(byID, done, request) <= Scoped(byID, all, request)
  {
  }

  method GatherDefinitionsInScope(byID: Live, request: Request) returns (r: Option<map<string, NumericDefinition>>)
    ensures r.Some? ==> Gathered(r.value, Scoped(byID, byID.Keys, request))
    ensures r.None? ==> !OneMeaning(Scoped(byID, byID.Keys, request))
  {
    hide OneMeaning, Scoped, InScope, AskedOf, Gathered;
    var definitions: map<string, NumericDefinition> := map[];
    var todo := byID.Keys;
    NothingGathered(byID, request);
    while todo != {}
      invariant todo <= byID.Keys && Gathered(definitions, Scoped(byID, byID.Keys - todo, request))
      decreases |todo|
    {
      var id :| id in todo;
      ghost var done := byID.Keys - todo;
      ScopedMore(byID, done, id, request);
      todo := todo - {id};
      assert byID.Keys - todo == done + {id};
      if InScope(byID[id].view, request) {
        var next := GatherView(definitions, byID[id].view.definitions, request, Scoped(byID, done, request));
        if next.None? {
          ScopedFewer(byID, done + {id}, byID.Keys, request);
          if OneMeaning(Scoped(byID, byID.Keys, request)) {
            OneMeaningOfFewer(Scoped(byID, done + {id}, request), Scoped(byID, byID.Keys, request));
          }
          return None;
        }
        definitions := next.value;
      } else {
        assert Scoped(byID, done + {id}, request) == Scoped(byID, done, request);
      }
    }
    assert byID.Keys - todo == byID.Keys;
    return Some(definitions);
  }

  lemma NothingGathered(byID: Live, request: Request)
    ensures Gathered(map[], Scoped(byID, byID.Keys - byID.Keys, request))
  {
  }

  /** One definition of each meaning decides whether a predicate normalizes. */
  lemma NormalizesByOne(definitions: map<string, NumericDefinition>, seen: set<NumericDefinition>, p: Predicate,
                        d: NumericDefinition)
    requires Gathered(definitions, seen) && d in seen && d.specID == p.specID
    ensures NormalizePredicate(p, definitions[p.specID].profile).Some? <==> NormalizePredicate(p, d.profile).Some?
  {
    hide NormalizePredicate, ValidProfile;
    var e := definitions[p.specID];
    CompatibleNormalizeAlike(e.profile, d.profile, p);
  }

  method CheckNormalize(definitions: map<string, NumericDefinition>, predicates: seq<Predicate>,
                        ghost seen: set<NumericDefinition>) returns (ok: bool)
    requires Gathered(definitions, seen)
    ensures ok <==> AllNormalize(seen, predicates)
  {
    hide NormalizePredicate, OneMeaning;
    for n := 0 to |predicates|
      invariant forall k, d :: 0 <= k < n && d in seen && d.specID == predicates[k].specID ==>
        NormalizePredicate(predicates[k], d.profile).Some?
    {
      var p := predicates[n];
      if p.specID in definitions && NormalizePredicate(p, definitions[p.specID].profile).None? { return false; }
      forall d | d in seen && d.specID == p.specID
        ensures NormalizePredicate(p, d.profile).Some?
      {
        NormalizesByOne(definitions, seen, p, d);
      }
    }
    return true;
  }

  /** The oracle over the publications left to it, unless the caller gives up before one of them. */
  method Scan(byID: Live, request: Request, candidates: set<string>, projected: bool, done: nat -> bool)
    returns (matches: Option<seq<View>>)
    requires ViewsKeyed(byID) && (projected ==> KeepsMatches(byID, candidates, request.predicates))
    ensures matches.Some? ==> IsScan(matches.value, byID, request)
    ensures matches.None? ==> exists n: nat :: n < |byID| && done(n)
  {
    hide ViewTruth, ViewLess, InScope, Hit;
    var found: seq<View> := [];
    var checks := 0;
    var todo := byID.Keys;
    while todo != {}
      invariant todo <= byID.Keys && checks + |todo| == |byID|
      invariant forall v :: v in found <==> IsHit(byID, byID.Keys - todo, request, v)
      invariant forall i, j :: 0 <= i < j < |found| ==> found[i].id != found[j].id
      decreases |todo|
    {
      var id :| id in todo;
      if done(checks) { return None; }
      checks := checks + 1;
      ghost var seen := byID.Keys - todo;
      var a := byID[id];
      todo := todo - {id};
      assert byID.Keys - todo == seen + {id};
      forall v
        ensures IsHit(byID, seen + {id}, request, v) <==>
          IsHit(byID, seen, request, v) || (Hit(a, request) && a.view == v)
      {
        HitsMore(byID, seen, id, request, v);
      }
      HitIs(a, request);
      if (projected && id !in candidates) || !InScope(a.view, request) { continue; }
      var truth := SpecViewTruth(a.view.definitions, a.view.facts, request.predicates);
      if truth == Match {
        forall k | 0 <= k < |found| ensures found[k].id != a.view.id {
          assert found[k] in found;
          HitsElsewhere(byID, seen, id, request, found[k]);
        }
        found := found + [a.view];
      }
    }
    assert byID.Keys - todo == byID.Keys;
    var sorted := SortViews(found);
    matches := Some(sorted);
  }

  lemma HitIs(a: Activation, request: Request)
    ensures Hit(a, request) <==>
      InScope(a.view, request) && ViewTruth(a.view.definitions, a.view.facts, request.predicates) == Match
  {
  }

  lemma HitsMore(byID: Live, done: set<string>, id: string, request: Request, v: View)
    requires id in byID
    ensures IsHit(byID, done + {id}, request, v) <==>
      IsHit(byID, done, request, v) || (Hit(byID[id], request) && byID[id].view == v)
  {
    hide Hit;
    if IsHit(byID, done, request, v) {
      var x :| x in done && x in byID && Hit(byID[x], request) && byID[x].view == v;
      assert x in done + {id};
    }
    if Hit(byID[id], request) && byID[id].view == v { assert id in done + {id}; }
  }

  lemma HitsElsewhere(byID: Live, done: set<string>, id: string, request: Request, v: View)
    requires ViewsKeyed(byID) && id in byID && id !in done && IsHit(byID, done, request, v)
    ensures v.id != byID[id].view.id
  {
    hide Hit;
  }

  /** The caller's giving up is looked at only once the request is sound and the index available. */
  predicate MayCancel(index: Option<IndexState>, request: Request) {
    GoodPaging(request) && PredicateError(request.predicates).None? && Available(index)
  }

  /** The search of the source over the index it admits, whatever snapshot the adapter gave
      earlier: always the answer of the full exact scan. */
  method SearchSpecs(index: Option<IndexState>, request: Request, snapshot: Option<Snapshot>, done: nat -> bool)
    returns (r: Result<SearchResult, SearchError>)
    requires Available(index) ==> SearchReady(index.value)
    requires AdapterAnswer(snapshot, request.predicates)
    ensures r == Failure(Cancelled) || Answers(index, request, r)
    ensures r == Failure(Cancelled) ==> MayCancel(index, request) && exists n :: done(n)
  {
    hide ViewsKeyed, DigestCoherent, InventoryIs, AdapterAnswer, OneMeaning, AllNormalize, Scoped, IsScan, KeepsMatches;
    hide ResultOf;
    if !GoodPaging(request) { return Failure(InvalidSearch); }
    var invalid := PredicateError(request.predicates);
    if invalid.Some? { return Failure(invalid.value); }
    if !Available(index) { return Failure(PublicUnavailable); }
    if done(0) { return Failure(Cancelled); }
    if !LocaleEnabled(index.value.tables.views, request.locale) { return Failure(InvalidSearch); }
    var byID := index.value.tables.byID;
    var definitions := GatherDefinitionsInScope(byID, request);
    if definitions.None? { return Failure(PublicUnavailable); }
    var ok := CheckNormalize(definitions.value, request.predicates, Scoped(byID, byID.Keys, request));
    if !ok { return Failure(UnsupportedSearch); }
    var candidates, projected := AdmitSpecCandidates(index.value, snapshot, request.predicates);
    var matches := Scan(byID, request, candidates, projected, (n: nat) => done(n + 1));
    if matches.None? {
      var n: nat :| n < |byID| && done(n + 1);
      return Failure(Cancelled);
    }
    return Success(ResultOf(matches.value, request));
  }

  // ---- the catalog filter

  /** A condition of a catalog query: numeric, or on text the model does not look into. */
  datatype Clause = Numeric(query: Predicate) | Text(field: string, values: seq<string>)

  ghost predicate Satisfied(view: View, clause: Clause, text: (View, Clause) -> bool) {
    match clause
    case Numeric(p) => ViewTruth(view.definitions, view.facts, [p]) == Match
    case Text(_, _) => text(view, clause)
  }

  ghost predicate SatisfiesAll(view: View, clauses: seq<Clause>, text: (View, Clause) -> bool) {
    forall k :: 0 <= k < |clauses| ==> Satisfied(view, clauses[k], text)
  }

  /** The numeric conditions, which are what the adapter is asked. */
  function NumericOf(clauses: seq<Clause>): (r: seq<Predicate>)
    ensures forall p :: p in r <==> Numeric(p) in clauses
  {
    if clauses == [] then []
    else
      assert clauses == [clauses[0]] + clauses[1..];
      (if clauses[0].Numeric? then [clauses[0].query] else []) + NumericOf(clauses[1..])
  }

  /** The views that satisfy every clause, in the order they were listed. */
  ghost function Filtered(views: seq<View>, clauses: seq<Clause>, text: (View, Clause) -> bool): seq<View> {
    if views == [] then []
    else
      var n := |views| - 1;
      Filtered(views[..n], clauses, text) + (if SatisfiesAll(views[n], clauses, text) then [views[n]] else [])
  }

  lemma SatisfiedIsMatched(view: View, clauses: seq<Clause>, text: (View, Clause) -> bool)
    requires SatisfiesAll(view, clauses, text)
    ensures ViewTruth(view.definitions, view.facts, NumericOf(clauses)) == Match
  {
    hide PredicateTruth, ViewTruth;
    var predicates := NumericOf(clauses);
    ViewMatchesAll(view.definitions, view.facts, predicates);
    forall k | 0 <= k < |predicates| ensures PredicateTruth(view.definitions, view.facts, predicates[k]) == Match {
      assert Numeric(predicates[k]) in clauses;
      var j :| 0 <= j < |clauses| && clauses[j] == Numeric(predicates[k]);
      assert Satisfied(view, clauses[j], text);
      ViewMatchesAll(view.definitions, view.facts, [predicates[k]]);
      assert [predicates[k]][0] == predicates[k];
    }
  }

  /** The catalog's final loop, over views of the admitted index: the adapter never changes what
      it selects. */
  method FilterCatalog(index: IndexState, scope: seq<View>, clauses: seq<Clause>, text: (View, Clause) -> bool,
                       snapshot: Option<Snapshot>)
    returns (selected: seq<View>)
    requires SearchReady(index) && AdapterAnswer(snapshot, NumericOf(clauses))
    requires forall k :: 0 <= k < |scope| ==> IsView(index.tables.byID, scope[k])
    ensures selected == Filtered(scope, clauses, text)
  {
    hide DigestCoherent, InventoryIs, AdapterAnswer, ViewTruth, NumericOf;
    var candidates: set<string>, projected := {}, false;
    if NumericOf(clauses) != [] { candidates, projected := AdmitSpecCandidates(index, snapshot, NumericOf(clauses)); }
    selected := [];
    for n := 0 to |scope|
      invariant selected == Filtered(scope[..n], clauses, text)
    {
      var view := scope[n];
      assert scope[..n + 1][..n] == scope[..n];
      if SatisfiesAll(view, clauses, text) { SatisfiedIsMatched(view, clauses, text); }
      if projected && view.id !in candidates { continue; }
      var matched := true;
      for k := 0 to |clauses|
        invariant matched && forall j :: 0 <= j < k ==> Satisfied(view, clauses[j], text)
      {
        match clauses[k] {
          case Numeric(p) =>
            var truth := SpecViewTruth(view.definitions, view.facts, [p]);
            matched := truth == Match;
          case Text(_, _) =>
            matched := text(view, clauses[k]);
        }
        if !matched { break; }
      }
      if matched { selected := selected + [view]; }
    }
    assert scope[..|scope|] == scope;
  }
}
