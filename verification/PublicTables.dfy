/** The linked tables of the public index: built from scratch, and patched for one product. */
module PublicTables {
  import opened Wrappers
  import opened Ordering
  import opened Publications

  datatype RouteTarget = RouteTarget(publication: Activation, file: string, contentType: string)

  datatype AssetTarget = AssetTarget(id: string, path: string)

  datatype RouteHistory = RouteHistory(route: string, productID: string, targetRoute: string, state: string,
                                       siteEpoch: int)

  datatype Tables = Tables(
    byID: map<string, Activation>,
    byRoute: map<string, RouteTarget>,
    byAsset: map<string, AssetTarget>,
    assetReferences: map<string, int>,
    productAssets: map<string, seq<string>>,
    history: map<string, RouteHistory>,
    views: seq<View>,
    specInventory: map<string, Binding>)

  /** The aggregate machine outputs, known by what they were generated from. */
  datatype Machine = Machine(views: seq<View>, site: string, siteEpoch: int)

  /** An installed public index: the tables, and what is derived from them later. */
  datatype IndexState = IndexState(
    unhealthy: bool,
    tables: Tables,
    site: string,
    siteEpoch: int,
    customCSSDisabled: bool,
    runtimeGeneration: int,
    machine: Option<Machine>,
    specDigest: Digest,
    specDigestFailed: bool)

  /** What does not change between installs: which units are intact, the asset records, and the
      site's own assets. */
  datatype World = World(valid: Activation -> bool, assets: map<string, AssetTarget>, siteAssets: seq<string>)

  ghost predicate ValidWorld(w: World) {
    && (forall id :: id in w.assets ==> w.assets[id].id == id)
    && Distinct(w.siteAssets) && (forall k :: 0 <= k < |w.siteAssets| ==> w.siteAssets[k] in w.assets)
  }

  predicate Distinct(s: seq<string>) { forall i, j :: 0 <= i < j < |s| ==> s[i] != s[j] }

  /** The distinct nonempty asset identifiers of a view, in first-use order. */
  function AssetIDs(refs: seq<string>): (ids: seq<string>)
    ensures Distinct(ids) && forall x :: x in ids <==> x in refs && x != ""
  {
    if refs == [] then []
    else
      var n := |refs| - 1;
      var ids := AssetIDs(refs[..n]);
      assert refs == refs[..n] + [refs[n]];
      if refs[n] == "" || refs[n] in ids then ids else ids + [refs[n]]
  }

  function AssetsOf(a: Activation): (ids: seq<string>)
    ensures Distinct(ids)
  {
    AssetIDs(a.view.assetRefs)
  }

  /** The unit is intact and all its assets are on record. */
  predicate Installable(w: World, a: Activation) {
    w.valid(a) && forall k :: 0 <= k < |AssetsOf(a)| ==> AssetsOf(a)[k] in w.assets
  }

  // ---- what each table holds for a set of live publications

  type Live = map<string, Activation>

  ghost predicate ViewsKeyed(live: Live) {
    forall id :: id in live ==> live[id].productID == id && live[id].view.id == id
  }

  function Suffix(k: nat): string
    requires k < 3
  {
    if k == 0 then "" else if k == 1 then ".json" else ".md"
  }

  function Target(a: Activation, k: nat): RouteTarget
    requires k < 3
  {
    if k == 0 then RouteTarget(a, "index.html", "text/html; charset=utf-8")
    else if k == 1 then RouteTarget(a, "product.json", "application/json; charset=utf-8")
    else RouteTarget(a, "product.md", "text/markdown; charset=utf-8")
  }

  function RouteOf(a: Activation, k: nat): string
    requires k < 3
  {
    a.route + Suffix(k)
  }

  /** No two products share a route, suffixes included. */
  ghost predicate RoutesDisjoint(live: Live) {
    forall i, j, k: nat, l: nat ::
      i in live && j in live && k < 3 && l < 3 && RouteOf(live[i], k) == RouteOf(live[j], l) ==> i == j
  }

  lemma SuffixesDistinct(a: Activation, k: nat, l: nat)
    requires k < 3 && l < 3 && RouteOf(a, k) == RouteOf(a, l)
    ensures k == l
  {
    assert |RouteOf(a, k)| == |a.route| + |Suffix(k)| && |RouteOf(a, l)| == |a.route| + |Suffix(l)|;
  }

  ghost predicate IsRoute(live: Live, r: string) {
    exists id, k: nat :: id in live && k < 3 && RouteOf(live[id], k) == r
  }

  ghost predicate RoutesAre(byRoute: map<string, RouteTarget>, live: Live) {
    && (forall id, k: nat :: id in live && k < 3 ==>
          RouteOf(live[id], k) in byRoute && byRoute[RouteOf(live[id], k)] == Target(live[id], k))
    && (forall r :: r in byRoute ==> IsRoute(live, r))
  }

  ghost function Users(live: Live, x: string): set<string> { set id | id in live && x in AssetsOf(live[id]) }

  ghost function RefCount(w: World, live: Live, x: string): int {
    |Users(live, x)| + if x in w.siteAssets then 1 else 0
  }

  /** The reference counts are c and the asset table lists exactly what is referenced. */
  ghost predicate AssetsAre(w: World, byAsset: map<string, AssetTarget>, refs: map<string, int>, c: string -> int) {
    && (forall x :: c(x) >= 0)
    && (forall x :: (x in refs <==> c(x) > 0) && (x in refs ==> refs[x] == c(x)))
    && (forall x :: (x in byAsset <==> c(x) > 0) && (x in byAsset ==> x in w.assets && byAsset[x] == w.assets[x]))
  }

  ghost predicate ProductAssetsAre(productAssets: map<string, seq<string>>, live: Live) {
    && (forall id :: id in productAssets <==> id in live && AssetsOf(live[id]) != [])
    && (forall id :: id in productAssets ==> productAssets[id] == AssetsOf(live[id]))
  }

  predicate Redirects(h: RouteHistory) { h.state == "redirect" || h.state == "gone" }

  function ItemsOf(s: seq<RouteHistory>): (r: set<RouteHistory>)
    ensures forall h :: h in r <==> h in s
  {
    set h | h in s
  }

  ghost predicate HistoryUnique(items: set<RouteHistory>) {
    forall a, b :: a in items && b in items && Redirects(a) && Redirects(b) && a.route == b.route ==> a == b
  }

  ghost predicate HistoryIs(history: map<string, RouteHistory>, items: set<RouteHistory>) {
    && (forall h :: h in items && Redirects(h) ==> h.route in history && history[h.route] == h)
    && (forall r :: r in history ==> history[r] in items && Redirects(history[r]) && history[r].route == r)
  }

  /** The order of the public listing: part number, then identifier. */
  predicate ViewLess(a: View, b: View) {
    LexLess(a.partNumber, b.partNumber) || (a.partNumber == b.partNumber && LexLess(a.id, b.id))
  }

  ghost predicate IsView(live: Live, v: View) { exists id :: id in live && live[id].view == v }

  ghost predicate ViewsAre(views: seq<View>, live: Live) {
    StrictlySorted(ViewLess, views) && forall v :: v in views <==> IsView(live, v)
  }

  ghost predicate InventoryIs(inventory: map<string, Binding>, live: Live) {
    && (forall id :: id in inventory <==> id in live)
    && (forall id :: id in inventory ==> inventory[id] == BindingOf(live[id]))
  }

  /** All tables but the routes and the history describe the live publications. */
  ghost predicate TablesAre(t: Tables, w: World, live: Live) {
    && t.byID == live
    && AssetsAre(w, t.byAsset, t.assetReferences, x => RefCount(w, live, x))
    && ProductAssetsAre(t.productAssets, live)
    && ViewsAre(t.views, live)
    && InventoryIs(t.specInventory, live)
  }

  /** All eight tables describe the live publications and the route history. */
  ghost predicate Represents(t: Tables, w: World, live: Live, items: set<RouteHistory>) {
    TablesAre(t, w, live) && RoutesAre(t.byRoute, live) && HistoryIs(t.history, items)
  }

  lemma ViewOrder(a: View, b: View)
    ensures !(ViewLess(a, b) && ViewLess(b, a))
    ensures ViewLess(a, b) || ViewLess(b, a) || (a.partNumber == b.partNumber && a.id == b.id)
  {
    hide LexLess;
    LexAsymmetric(a.partNumber, b.partNumber);
    LexAsymmetric(a.partNumber, a.partNumber);
    LexAsymmetric(b.partNumber, b.partNumber);
    LexAsymmetric(a.id, b.id);
    LexTotal(a.partNumber, b.partNumber);
    LexTotal(a.id, b.id);
  }

  lemma ViewTransitive(a: View, b: View, c: View)
    requires ViewLess(a, b) && ViewLess(b, c)
    ensures ViewLess(a, c)
  {
    hide LexLess;
    if LexLess(a.partNumber, b.partNumber) && LexLess(b.partNumber, c.partNumber) {
      LexTransitive(a.partNumber, b.partNumber, c.partNumber);
    }
    if LexLess(a.id, b.id) && LexLess(b.id, c.id) { LexTransitive(a.id, b.id, c.id); }
  }

  /** The live publications and the history determine every table. */
  lemma RepresentationIsUnique(s: Tables, t: Tables, w: World, live: Live, items: set<RouteHistory>)
    requires Represents(s, w, live, items) && Represents(t, w, live, items)
    ensures s == t
  {
    hide RefCount, RouteOf, AssetsOf, BindingOf, Target;
    assert s.byRoute == t.byRoute by { RoutesUnique(s.byRoute, t.byRoute, live); }
    assert s.byAsset.Keys == t.byAsset.Keys && s.byAsset == t.byAsset;
    assert s.assetReferences.Keys == t.assetReferences.Keys && s.assetReferences == t.assetReferences;
    assert s.productAssets.Keys == t.productAssets.Keys && s.productAssets == t.productAssets;
    assert s.specInventory.Keys == t.specInventory.Keys && s.specInventory == t.specInventory;
    assert s.history == t.history by { HistoryUniqueTable(s.history, t.history, items); }
    forall a, b ensures ViewLess(a, b) ==> !ViewLess(b, a) { ViewOrder(a, b); }
    SortedUnique(ViewLess, s.views, t.views);
  }

  lemma RoutesUnique(a: map<string, RouteTarget>, b: map<string, RouteTarget>, live: Live)
    requires RoutesAre(a, live) && RoutesAre(b, live)
    ensures a == b
  {
    hide RouteOf, Target;
    forall r ensures r in a <==> r in b {}
    forall r | r in a ensures a[r] == b[r] {
      assert IsRoute(live, r);
      var id, k: nat :| id in live && k < 3 && RouteOf(live[id], k) == r;
    }
  }

  lemma HistoryUniqueTable(a: map<string, RouteHistory>, b: map<string, RouteHistory>, items: set<RouteHistory>)
    requires HistoryIs(a, items) && HistoryIs(b, items)
    ensures a == b
  {
    forall r ensures r in a <==> r in b {
      if r in a { assert a[r] in items; }
      if r in b { assert b[r] in items; }
    }
    forall r | r in a ensures a[r] == b[r] { assert a[r] in items; }
  }

  // ---- what the tables serve

  predicate ServesAt(t: Tables, a: Activation, r: string, file: string, contentType: string) {
    r in t.byRoute && t.byRoute[r] == RouteTarget(a, file, contentType)
  }

  predicate OwnRoute(a: Activation, r: string) { r == a.route || r == a.route + ".json" || r == a.route + ".md" }

  /** The page of a live product is at its route, its data at the route with ".json" and its text
      with ".md". */
  predicate ServesProduct(t: Tables, a: Activation) {
    && ServesAt(t, a, a.route, "index.html", "text/html; charset=utf-8")
    && ServesAt(t, a, a.route + ".json", "product.json", "application/json; charset=utf-8")
    && ServesAt(t, a, a.route + ".md", "product.md", "text/markdown; charset=utf-8")
  }

  /** The three routes of every live product are served, and no others. */
  lemma RoutesServe(t: Tables, w: World, live: Live, items: set<RouteHistory>)
    requires Represents(t, w, live, items)
    ensures forall id :: id in live ==> ServesProduct(t, live[id])
    ensures forall r :: r in t.byRoute <==> exists id :: id in live && OwnRoute(live[id], r)
  {
    hide TablesAre, HistoryIs, ServesProduct, OwnRoute, RouteOf, Target;
    forall id | id in live ensures ServesProduct(t, live[id]) { ProductServes(t, live, id); }
    forall r ensures r in t.byRoute <==> exists id :: id in live && OwnRoute(live[id], r) {
      if r in t.byRoute {
        assert IsRoute(live, r);
        var id, k: nat :| id in live && k < 3 && RouteOf(live[id], k) == r;
        RoutesOfProduct(live[id], k);
      }
      if id :| id in live && OwnRoute(live[id], r) { OwnServed(t, live[id], r); }
    }
  }

  lemma RoutesOfProduct(a: Activation, k: nat)
    requires k < 3
    ensures OwnRoute(a, RouteOf(a, k))
  {
    assert a.route + "" == a.route;
  }

  lemma OwnServed(t: Tables, a: Activation, r: string)
    requires ServesProduct(t, a) && OwnRoute(a, r)
    ensures r in t.byRoute
  {
  }

  lemma ProductServes(t: Tables, live: Live, id: string)
    requires RoutesAre(t.byRoute, live) && id in live
    ensures ServesProduct(t, live[id])
  {
    var a := live[id];
    assert RouteOf(a, 0) == a.route;
    assert RouteOf(a, 1) == a.route + ".json";
    assert RouteOf(a, 2) == a.route + ".md";
  }

  /** A route of the past is answered by its redirecting or removed item alone. */
  lemma HistoryServes(t: Tables, w: World, live: Live, items: set<RouteHistory>, h: RouteHistory)
    requires Represents(t, w, live, items)
    ensures h.route in t.history && t.history[h.route] == h <==>
      h in items && (h.state == "redirect" || h.state == "gone")
  {
  }

  /** The listing holds each live product once, by part number and then by identifier. */
  lemma ListingOrder(t: Tables, w: World, live: Live, items: set<RouteHistory>, i: nat, j: nat)
    requires Represents(t, w, live, items) && i < j < |t.views|
    ensures var a, b := t.views[i], t.views[j];
      LexLess(a.partNumber, b.partNumber) || (a.partNumber == b.partNumber && LexLess(a.id, b.id))
    ensures exists id :: id in live && live[id].view == t.views[i]
  {
    assert t.views[i] in t.views;
  }

  /** An asset is served exactly while the site or a live product refers to it. */
  lemma AssetsServe(t: Tables, w: World, live: Live, items: set<RouteHistory>, x: string)
    requires Represents(t, w, live, items)
    ensures x in t.byAsset <==> x in w.siteAssets || exists id :: id in live && x != "" && x in live[id].view.assetRefs
    ensures x in t.byAsset ==> x in w.assets && t.byAsset[x] == w.assets[x]
  {
    hide RoutesAre, HistoryIs, ViewsAre, InventoryIs, ProductAssetsAre, AssetIDs;
    var count := (y: string) => RefCount(w, live, y);
    assert count(x) == RefCount(w, live, x);
    assert x in t.byAsset <==> RefCount(w, live, x) > 0;
    if id :| id in Users(live, x) {
      assert x in AssetsOf(live[id]);
    } else {
      assert Users(live, x) == {};
      forall id | id in live && x in live[id].view.assetRefs ensures x == "" {
        assert id !in Users(live, x);
        assert x in AssetsOf(live[id]) <==> x != "";
      }
    }
  }

  // ---- routes

  lemma RemoveRoutesOk(byRoute: map<string, RouteTarget>, live: Live, p: string)
    requires RoutesAre(byRoute, live) && RoutesDisjoint(live) && p in live
    ensures RoutesAre(byRoute - {RouteOf(live[p], 0), RouteOf(live[p], 1), RouteOf(live[p], 2)}, live - {p})
  {
    hide RouteOf, Target;
    var gone := {RouteOf(live[p], 0), RouteOf(live[p], 1), RouteOf(live[p], 2)};
    forall id, k: nat | id in live - {p} && k < 3 ensures RouteOf(live[id], k) !in gone {}
    forall r | r in byRoute - gone ensures IsRoute(live - {p}, r) {
      var id, k: nat :| id in live && k < 3 && RouteOf(live[id], k) == r;
      assert id != p && id in live - {p} && RouteOf((live - {p})[id], k) == r;
    }
  }

  function AddRoutes(byRoute: map<string, RouteTarget>, a: Activation): map<string, RouteTarget> {
    byRoute[RouteOf(a, 0) := Target(a, 0)][RouteOf(a, 1) := Target(a, 1)][RouteOf(a, 2) := Target(a, 2)]
  }

  /** A live publication holds one of the routes. */
  ghost predicate Conflicts(live: Live, a: Activation) { exists k: nat :: k < 3 && IsRoute(live, RouteOf(a, k)) }

  lemma RouteTaken(byRoute: map<string, RouteTarget>, live: Live, r: string)
    requires RoutesAre(byRoute, live)
    ensures r in byRoute <==> IsRoute(live, r)
  {
    hide RouteOf, Target;
  }

  lemma DisjointMore(live: Live, p: string, a: Activation)
    requires RoutesDisjoint(live) && p !in live
    ensures RoutesDisjoint(live[p := a]) <==> !Conflicts(live, a)
  {
    hide RouteOf;
    var after := live[p := a];
    assert after[p] == a && forall id :: id in live ==> id in after && after[id] == live[id];
    if Conflicts(live, a) {
      var k: nat :| k < 3 && IsRoute(live, RouteOf(a, k));
      var id, l: nat :| id in live && l < 3 && RouteOf(live[id], l) == RouteOf(a, k);
      assert RouteOf(after[id], l) == RouteOf(after[p], k);
    } else {
      forall id, k: nat, l: nat | id in live && k < 3 && l < 3 ensures RouteOf(live[id], l) != RouteOf(a, k) {
        assert !IsRoute(live, RouteOf(a, k));
      }
    }
  }

  lemma AddedRoute(byRoute: map<string, RouteTarget>, a: Activation, k: nat)
    requires k < 3
    ensures RouteOf(a, k) in AddRoutes(byRoute, a) && AddRoutes(byRoute, a)[RouteOf(a, k)] == Target(a, k)
  {
    forall i: nat, j: nat | i < 3 && j < 3 && RouteOf(a, i) == RouteOf(a, j)
      ensures i == j
    {
      SuffixesDistinct(a, i, j);
    }
    hide RouteOf, Target;
    assert k == 0 || k == 1 || k == 2;
  }

  lemma AddRoutesOk(byRoute: map<string, RouteTarget>, live: Live, p: string, a: Activation)
    requires RoutesAre(byRoute, live) && p !in live && RoutesDisjoint(live[p := a])
    ensures RoutesAre(AddRoutes(byRoute, a), live[p := a])
  {
    var after, next := live[p := a], AddRoutes(byRoute, a);
    forall k: nat | k < 3
      ensures RouteOf(a, k) in next && next[RouteOf(a, k)] == Target(a, k) && RouteOf(a, k) !in byRoute
    {
      AddedRoute(byRoute, a, k);
      RouteTaken(byRoute, live, RouteOf(a, k));
      SubDisjoint(live, p, a);
      DisjointMore(live, p, a);
    }
    hide RouteOf, Target;
    forall id, k: nat | id in after && k < 3
      ensures RouteOf(after[id], k) in next && next[RouteOf(after[id], k)] == Target(after[id], k)
    {
      if id != p { assert after[id] == live[id]; }
    }
    forall r | r in next ensures IsRoute(after, r) {
      if r in byRoute {
        var id, k: nat :| id in live && k < 3 && RouteOf(live[id], k) == r;
        assert id in after && RouteOf(after[id], k) == r;
      } else {
        assert r == RouteOf(after[p], 0) || r == RouteOf(after[p], 1) || r == RouteOf(after[p], 2);
      }
    }
  }

  method DeleteRoutes(byRoute: map<string, RouteTarget>, a: Activation) returns (r: map<string, RouteTarget>)
    ensures r == byRoute - {RouteOf(a, 0), RouteOf(a, 1), RouteOf(a, 2)}
  {
    hide RouteOf;
    r := byRoute;
    for k := 0 to 3
      invariant k == 0 ==> r == byRoute
      invariant k == 1 ==> r == byRoute - {RouteOf(a, 0)}
      invariant k == 2 ==> r == byRoute - {RouteOf(a, 0), RouteOf(a, 1)}
      invariant k == 3 ==> r == byRoute - {RouteOf(a, 0), RouteOf(a, 1), RouteOf(a, 2)}
    {
      r := r - {RouteOf(a, k)};
    }
  }

  // ---- asset references

  lemma SameCounts(w: World, byAsset: map<string, AssetTarget>, refs: map<string, int>, c: string -> int,
                   d: string -> int)
    requires AssetsAre(w, byAsset, refs, c) && forall x :: c(x) == d(x)
    ensures AssetsAre(w, byAsset, refs, d)
  {
  }

  lemma ReleaseOneAsset(w: World, byAsset: map<string, AssetTarget>, refs: map<string, int>, c: string -> int,
                        id: string, d: string -> int)
    requires AssetsAre(w, byAsset, refs, c) && c(id) >= 1 && forall x :: d(x) == c(x) - if x == id then 1 else 0
    ensures id in refs
    ensures refs[id := refs[id] - 1][id] == 0 ==> AssetsAre(w, byAsset - {id}, refs[id := refs[id] - 1] - {id}, d)
    ensures refs[id := refs[id] - 1][id] != 0 ==> AssetsAre(w, byAsset, refs[id := refs[id] - 1], d)
  {
  }

  method ReleaseAssets(ids: seq<string>, byAsset: map<string, AssetTarget>, refs: map<string, int>,
                       ghost w: World, ghost c: string -> int, ghost d: string -> int)
    returns (byAsset': map<string, AssetTarget>, refs': map<string, int>)
    requires AssetsAre(w, byAsset, refs, c) && Distinct(ids) && forall x :: x in ids ==> c(x) >= 1
    requires forall x :: d(x) == c(x) - if x in ids then 1 else 0
    ensures AssetsAre(w, byAsset', refs', d)
  {
    hide AssetsAre;
    byAsset', refs' := byAsset, refs;
    SameCounts(w, byAsset, refs, c, x => c(x) - if x in ids[..0] then 1 else 0);
    for k := 0 to |ids|
      invariant AssetsAre(w, byAsset', refs', x => c(x) - if x in ids[..k] then 1 else 0)
    {
      var id := ids[k];
      assert ids[..k + 1] == ids[..k] + [id] && id !in ids[..k];
      ReleaseOneAsset(w, byAsset', refs', x => c(x) - if x in ids[..k] then 1 else 0, id,
                      x => c(x) - if x in ids[..k + 1] then 1 else 0);
      refs' := refs'[id := refs'[id] - 1];
      if refs'[id] == 0 {
        refs', byAsset' := refs' - {id}, byAsset' - {id};
      }
    }
    assert ids[..|ids|] == ids;
    SameCounts(w, byAsset', refs', x => c(x) - if x in ids[..|ids|] then 1 else 0, d);
  }

  lemma AddOneAsset(w: World, byAsset: map<string, AssetTarget>, refs: map<string, int>, c: string -> int, id: string,
                    d: string -> int)
    requires AssetsAre(w, byAsset, refs, c) && id in w.assets && forall x :: d(x) == c(x) + if x == id then 1 else 0
    ensures AssetsAre(w, byAsset[id := w.assets[id]], refs[id := (if id in refs then refs[id] else 0) + 1], d)
  {
  }

  method AddAssets(ids: seq<string>, records: map<string, AssetTarget>, byAsset: map<string, AssetTarget>,
                   refs: map<string, int>,
                   ghost w: World, ghost c: string -> int, ghost d: string -> int)
    returns (byAsset': map<string, AssetTarget>, refs': map<string, int>)
    requires AssetsAre(w, byAsset, refs, c) && Distinct(ids) && records == w.assets
    requires forall k :: 0 <= k < |ids| ==> ids[k] in records
    requires forall x :: d(x) == c(x) + if x in ids then 1 else 0
    ensures AssetsAre(w, byAsset', refs', d)
  {
    hide AssetsAre;
    byAsset', refs' := byAsset, refs;
    SameCounts(w, byAsset, refs, c, x => c(x) + if x in ids[..0] then 1 else 0);
    for k := 0 to |ids|
      invariant AssetsAre(w, byAsset', refs', x => c(x) + if x in ids[..k] then 1 else 0)
    {
      var id := ids[k];
      assert ids[..k + 1] == ids[..k] + [id] && id !in ids[..k];
      AddOneAsset(w, byAsset', refs', x => c(x) + if x in ids[..k] then 1 else 0, id,
                  x => c(x) + if x in ids[..k + 1] then 1 else 0);
      byAsset' := byAsset'[id := records[id]];
      refs' := refs'[id := (if id in refs' then refs'[id] else 0) + 1];
    }
    assert ids[..|ids|] == ids;
    SameCounts(w, byAsset', refs', x => c(x) + if x in ids[..|ids|] then 1 else 0, d);
  }

  lemma CountWithout(w: World, live: Live, p: string, x: string)
    ensures RefCount(w, live - {p}, x) == RefCount(w, live, x) - if p in live && x in AssetsOf(live[p]) then 1 else 0
  {
    hide AssetsOf;
    assert Users(live - {p}, x) == Users(live, x) - {p};
  }

  lemma CountWith(w: World, live: Live, p: string, a: Activation, x: string)
    requires p !in live
    ensures RefCount(w, live[p := a], x) == RefCount(w, live, x) + if x in AssetsOf(a) then 1 else 0
  {
    hide AssetsOf;
    assert Users(live[p := a], x) == Users(live, x) + if x in AssetsOf(a) then {p} else {};
  }

  // ---- history

  /** The history of the other products. */
  function WithoutProduct(history: map<string, RouteHistory>, p: string): map<string, RouteHistory> {
    map route | route in history && history[route].productID != p :: history[route]
  }

  method DropHistory(history: map<string, RouteHistory>, p: string) returns (r: map<string, RouteHistory>)
    ensures r == WithoutProduct(history, p)
  {
    r := history;
    var todo := history.Keys;
    while todo != {}
      invariant todo <= r.Keys <= history.Keys
      invariant forall k :: k in r ==> r[k] == history[k] && (k in todo || r[k].productID != p)
      invariant forall k :: k in history && k !in r ==> history[k].productID == p
      decreases |todo|
    {
      var route :| route in todo;
      if r[route].productID == p { r := r - {route}; }
      todo := todo - {route};
    }
  }

  lemma DroppedHistoryIs(history: map<string, RouteHistory>, p: string, items: set<RouteHistory>)
    requires HistoryIs(history, items)
    ensures HistoryIs(WithoutProduct(history, p), set h | h in items && h.productID != p)
  {
  }

  /** The history once the redirecting items are entered one after another. */
  function Overlay(history: map<string, RouteHistory>, added: seq<RouteHistory>): map<string, RouteHistory> {
    if added == [] then history
    else
      var n := |added| - 1;
      var prior := Overlay(history, added[..n]);
      if Redirects(added[n]) then prior[added[n].route := added[n]] else prior
  }

  ghost predicate RedirectsAt(added: seq<RouteHistory>, k: nat, route: string)
    requires k < |added|
  {
    Redirects(added[k]) && added[k].route == route
  }

  ghost predicate LastAt(added: seq<RouteHistory>, k: nat, route: string)
    requires k < |added|
  {
    RedirectsAt(added, k, route) && forall j :: k < j < |added| ==> !RedirectsAt(added, j, route)
  }

  /** A route's entry is its last redirecting item, or what was there before. */
  lemma {:induction false} OverlayIsLast(history: map<string, RouteHistory>, added: seq<RouteHistory>, route: string)
    ensures (exists k :: 0 <= k < |added| && LastAt(added, k, route)
                         && Lookup(Overlay(history, added), route) == Some(added[k]))
            || (NoneAt(added, route) && Lookup(Overlay(history, added), route) == Lookup(history, route))
  {
    if added == [] {
    } else {
      var n := |added| - 1;
      OverlayIsLast(history, added[..n], route);
      assert forall k :: 0 <= k < n ==> (RedirectsAt(added[..n], k, route) <==> RedirectsAt(added, k, route));
      if RedirectsAt(added, n, route) {
        assert LastAt(added, n, route);
      } else if !NoneAt(added[..n], route) {
        var k :| 0 <= k < n && LastAt(added[..n], k, route)
                 && Lookup(Overlay(history, added[..n]), route) == Some(added[..n][k]);
        assert LastAt(added, k, route);
      }
    }
  }

  function Lookup(history: map<string, RouteHistory>, route: string): Option<RouteHistory> {
    if route in history then Some(history[route]) else None
  }

  ghost predicate NoneAt(added: seq<RouteHistory>, route: string) {
    forall k :: 0 <= k < |added| ==> !RedirectsAt(added, k, route)
  }

  lemma {:induction false} OverlayIs(history: map<string, RouteHistory>, added: seq<RouteHistory>,
                                     items: set<RouteHistory>)
    requires HistoryIs(history, items) && HistoryUnique(items + ItemsOf(added))
    ensures HistoryIs(Overlay(history, added), items + ItemsOf(added))
  {
    if added == [] {
      assert items + ItemsOf(added) == items;
    } else {
      var n := |added| - 1;
      assert added == added[..n] + [added[n]];
      assert items + ItemsOf(added) == items + ItemsOf(added[..n]) + {added[n]};
      OverlayIs(history, added[..n], items);
    }
  }

  /** Enters the redirecting items; the last of a route stands. */
  method AddHistory(history: map<string, RouteHistory>, added: seq<RouteHistory>) returns (r: map<string, RouteHistory>)
    ensures r == Overlay(history, added)
  {
    r := history;
    for k := 0 to |added|
      invariant r == Overlay(history, added[..k])
    {
      assert added[..k + 1][..k] == added[..k];
      if Redirects(added[k]) { r := r[added[k].route := added[k]]; }
    }
    assert added[..|added|] == added;
  }

  // ---- views

  /** The binary search of the source's sort.Search: the first view not before v. */
  method SearchPosition(views: seq<View>, v: View) returns (at: nat)
    requires StrictlySorted(ViewLess, views)
    requires forall k :: 0 <= k < |views| ==> views[k].id != v.id
    ensures at <= |views|
    ensures forall k :: 0 <= k < at ==> ViewLess(views[k], v)
    ensures forall k :: at <= k < |views| ==> ViewLess(v, views[k])
  {
    hide LexLess;
    var lo, hi := 0, |views|;
    while lo < hi
      invariant 0 <= lo <= hi <= |views|
      invariant forall k :: 0 <= k < lo ==> ViewLess(views[k], v)
      invariant forall k :: hi <= k < |views| ==> ViewLess(v, views[k])
    {
      var mid := (lo + hi) / 2;
      var u := views[mid];
      ViewOrder(u, v);
      LexTotal(u.partNumber, v.partNumber);
      LexTotal(u.id, v.id);
      if LexLess(v.partNumber, u.partNumber) || (u.partNumber == v.partNumber && !LexLess(u.id, v.id)) {
        forall k | mid <= k < |views| ensures ViewLess(v, views[k]) {
          if k > mid { ViewTransitive(v, u, views[k]); }
        }
        hi := mid;
      } else {
        forall k | 0 <= k <= mid ensures ViewLess(views[k], v) {
          if k < mid { ViewTransitive(views[k], u, v); }
        }
        lo := mid + 1;
      }
    }
    at := lo;
  }

  method DropView(views: seq<View>, p: string) returns (r: seq<View>)
    requires StrictlySorted(ViewLess, views)
    ensures StrictlySorted(ViewLess, r) && forall v :: v in r <==> v in views && v.id != p
  {
    hide ViewLess;
    r := [];
    for k := 0 to |views|
      invariant StrictlySorted(ViewLess, r)
      invariant forall v :: v in r <==> v in views[..k] && v.id != p
      invariant forall j :: 0 <= j < |r| ==> r[j] in views[..k]
    {
      assert views[..k + 1] == views[..k] + [views[k]];
      if views[k].id != p {
        forall j | 0 <= j < |r| ensures ViewLess(r[j], views[k]) {
          var i :| 0 <= i < k && views[..k][i] == r[j];
        }
        r := r + [views[k]];
      }
    }
    assert views[..|views|] == views;
  }

  method SortViews(views: seq<View>) returns (r: seq<View>)
    requires forall i, j :: 0 <= i < j < |views| ==> views[i].id != views[j].id
    ensures StrictlySorted(ViewLess, r) && forall v :: v in r <==> v in views
  {
    hide ViewLess;
    r := [];
    for k := 0 to |views|
      invariant StrictlySorted(ViewLess, r)
      invariant forall v :: v in r <==> v in views[..k]
    {
      assert views[..k + 1] == views[..k] + [views[k]];
      forall j | 0 <= j < |r| ensures r[j].id != views[k].id {
        assert r[j] in views[..k];
        var i :| 0 <= i < k && views[..k][i] == r[j];
      }
      var at := SearchPosition(r, views[k]);
      Splice(ViewLess, r, at, views[k]);
      r := r[..at] + [views[k]] + r[at..];
    }
    assert views[..|views|] == views;
  }

  // ---- one product

  /** The live publications after one product is published, republished or revoked. */
  ghost function LiveAfter(live: Live, p: string, found: Option<Activation>): Live {
    if found.Some? then (live - {p})[p := found.value] else live - {p}
  }

  ghost function ItemsAfter(items: set<RouteHistory>, p: string, added: seq<RouteHistory>): set<RouteHistory> {
    (set h | h in items && h.productID != p) + ItemsOf(added)
  }

  /** What the repository guarantees about one product's reading. */
  ghost predicate ProductReading(p: string, found: Option<Activation>, added: seq<RouteHistory>) {
    && (found.Some? ==> found.value.view.id == found.value.productID)
    && forall h :: h in added ==> h.productID == p
  }

  lemma SubDisjoint(live: Live, p: string, a: Activation)
    requires p !in live && RoutesDisjoint(live[p := a])
    ensures RoutesDisjoint(live)
  {
    hide RouteOf;
    var after := live[p := a];
    assert forall id :: id in live ==> id in after && after[id] == live[id];
  }

  lemma RemovedDisjoint(live: Live, p: string)
    requires RoutesDisjoint(live)
    ensures RoutesDisjoint(live - {p})
  {
    hide RouteOf;
  }

  /** None when another publication holds one of the routes. */
  method PatchRoutes(byRoute: map<string, RouteTarget>, p: string, previous: Option<Activation>,
                     found: Option<Activation>,
                     ghost live: Live)
    returns (r: Option<map<string, RouteTarget>>)
    requires RoutesAre(byRoute, live) && RoutesDisjoint(live)
    requires previous == if p in live then Some(live[p]) else None
    ensures r.None? <==> found.Some? && Conflicts(live - {p}, found.value)
    ensures r.Some? ==> RoutesAre(r.value, LiveAfter(live, p, found)) && RoutesDisjoint(LiveAfter(live, p, found))
  {
    hide RouteOf, RoutesAre, RoutesDisjoint, IsRoute;
    var next := byRoute;
    RemovedDisjoint(live, p);
    if previous.Some? {
      next := DeleteRoutes(next, previous.value);
      RemoveRoutesOk(byRoute, live, p);
    } else {
      assert live - {p} == live;
    }
    if found.None? { return Some(next); }
    var a := found.value;
    for k := 0 to 3
      invariant forall l: nat :: l < k ==> !IsRoute(live - {p}, RouteOf(a, l))
    {
      RouteTaken(next, live - {p}, RouteOf(a, k));
      if RouteOf(a, k) in next { return None; }
    }
    DisjointMore(live - {p}, p, a);
    AddRoutesOk(next, live - {p}, p, a);
    return Some(AddRoutes(next, a));
  }

  /** The assets a product's entry releases are those of its live publication. */
  function Held(productAssets: map<string, seq<string>>, p: string): seq<string> {
    if p in productAssets then productAssets[p] else []
  }

  lemma HeldAre(productAssets: map<string, seq<string>>, w: World, live: Live, p: string)
    requires ProductAssetsAre(productAssets, live)
    ensures Distinct(Held(productAssets, p))
    ensures forall x :: x in Held(productAssets, p) ==> RefCount(w, live, x) >= 1
    ensures forall x ::
      RefCount(w, live - {p}, x) == RefCount(w, live, x) - if x in Held(productAssets, p) then 1 else 0
  {
    hide AssetsOf;
    assert Held(productAssets, p) == if p in live then AssetsOf(live[p]) else [];
    if p in live { DistinctAssets(live[p]); }
    forall x ensures RefCount(w, live - {p}, x) == RefCount(w, live, x) - if x in Held(productAssets, p) then 1 else 0 {
      CountWithout(w, live, p, x);
    }
    forall x | x in Held(productAssets, p) ensures RefCount(w, live, x) >= 1 { assert p in Users(live, x); }
  }

  method PatchAssets(byAsset: map<string, AssetTarget>, refs: map<string, int>, productAssets: map<string, seq<string>>,
                     p: string, found: Option<Activation>, w: World, ghost live: Live)
    returns (byAsset': map<string, AssetTarget>, refs': map<string, int>)
    requires AssetsAre(w, byAsset, refs, x => RefCount(w, live, x)) && ProductAssetsAre(productAssets, live)
    requires found.Some? ==> Installable(w, found.value)
    ensures AssetsAre(w, byAsset', refs', x => RefCount(w, LiveAfter(live, p, found), x))
  {
    hide AssetsOf, AssetsAre, ProductAssetsAre, RefCount, Held;
    HeldAre(productAssets, w, live, p);
    byAsset', refs' := ReleaseAssets(Held(productAssets, p), byAsset, refs, w, x => RefCount(w, live, x),
                                     x => RefCount(w, live - {p}, x));
    if found.None? {
      SameCounts(w, byAsset', refs', x => RefCount(w, live - {p}, x), x => RefCount(w, LiveAfter(live, p, found), x));
      return;
    }
    var added := AssetsOf(found.value);
    InstalledAssets(w, found.value);
    forall x
      ensures RefCount(w, LiveAfter(live, p, found), x) == RefCount(w, live - {p}, x) + if x in added then 1 else 0
    {
      CountWith(w, live - {p}, p, found.value, x);
    }
    byAsset', refs' := AddAssets(added, w.assets, byAsset', refs', w,
                                 x => RefCount(w, live - {p}, x), x => RefCount(w, LiveAfter(live, p, found), x));
  }

  method PatchProductAssets(productAssets: map<string, seq<string>>, p: string, found: Option<Activation>,
                            ghost live: Live)
    returns (r: map<string, seq<string>>)
    requires ProductAssetsAre(productAssets, live)
    ensures ProductAssetsAre(r, LiveAfter(live, p, found))
  {
    hide AssetsOf;
    r := productAssets - {p};
    if found.Some? && AssetsOf(found.value) != [] { r := r[p := AssetsOf(found.value)]; }
  }

  lemma DistinctAssets(a: Activation)
    ensures Distinct(AssetsOf(a))
  {
  }

  method PatchViews(views: seq<View>, p: string, found: Option<Activation>, ghost live: Live) returns (r: seq<View>)
    requires ViewsAre(views, live) && ViewsKeyed(live) && (found.Some? ==> found.value.view.id == p)
    ensures ViewsAre(r, LiveAfter(live, p, found))
  {
    hide ViewLess;
    r := DropView(views, p);
    ghost var after := LiveAfter(live, p, found);
    forall v ensures v in r <==> IsView(live - {p}, v) {
      if v in r { var id :| id in live && live[id].view == v; assert id in live - {p}; }
      if IsView(live - {p}, v) { var id :| id in live - {p} && (live - {p})[id].view == v; assert IsView(live, v); }
    }
    if found.None? { return; }
    var view := found.value.view;
    forall k | 0 <= k < |r| ensures r[k].id != view.id { assert r[k] in r; }
    var at := SearchPosition(r, view);
    Splice(ViewLess, r, at, view);
    ghost var before := r;
    r := r[..at] + [view] + r[at..];
    forall v ensures v in r <==> IsView(after, v) {
      if v in before {
        var id :| id in live - {p} && (live - {p})[id].view == v;
        assert id in after && after[id].view == v;
      }
      if v == view { assert p in after && after[p].view == v; }
      if IsView(after, v) {
        var id :| id in after && after[id].view == v;
        if id != p { assert id in live - {p} && (live - {p})[id].view == v; }
      }
    }
  }

  /** The source declares the index unhealthy: the publication is another product's, its files or
      assets are not intact, or another publication holds one of its routes. */
  ghost predicate Refused(w: World, live: Live, p: string, a: Activation) {
    a.productID != p || !Installable(w, a) || Conflicts(live - {p}, a)
  }

  /** The incremental install of one product. The route history is that of the items whenever no
      two of them redirect one route; otherwise the product's last item of a route stands. */
  method PatchTables(t: Tables, p: string, found: Option<Activation>, added: seq<RouteHistory>, w: World,
                     ghost live: Live, ghost items: set<RouteHistory>)
    returns (r: Option<Tables>)
    requires ValidWorld(w) && Represents(t, w, live, items) && ViewsKeyed(live) && RoutesDisjoint(live)
    requires ProductReading(p, found, added)
    ensures r.None? <==> found.Some? && Refused(w, live, p, found.value)
    ensures r.Some? ==> RoutesDisjoint(LiveAfter(live, p, found)) && ViewsKeyed(LiveAfter(live, p, found))
    ensures r.Some? ==>
      TablesAre(r.value, w, LiveAfter(live, p, found)) && RoutesAre(r.value.byRoute, LiveAfter(live, p, found))
    ensures r.Some? ==> r.value.history == Overlay(WithoutProduct(t.history, p), added)
    ensures r.Some? && HistoryUnique(ItemsAfter(items, p, added)) ==>
      Represents(r.value, w, LiveAfter(live, p, found), ItemsAfter(items, p, added))
  {
    hide RoutesAre, AssetsAre, ViewsAre, HistoryIs, ViewLess, RefCount, RoutesDisjoint, HistoryUnique, BindingOf;
    hide AssetsOf;
    hide Installable, ProductAssetsAre, Conflicts, Overlay, WithoutProduct;
    if found.Some? && (found.value.productID != p || !Installable(w, found.value)) { return None; }
    var previous := if p in t.byID then Some(t.byID[p]) else None;
    var byRoute := PatchRoutes(t.byRoute, p, previous, found, live);
    if byRoute.None? { return None; }
    var byAsset, refs := PatchAssets(t.byAsset, t.assetReferences, t.productAssets, p, found, w, live);
    var productAssets := PatchProductAssets(t.productAssets, p, found, live);
    var history := DropHistory(t.history, p);
    history := AddHistory(history, added);
    DroppedHistoryIs(t.history, p, items);
    if HistoryUnique(ItemsAfter(items, p, added)) {
      OverlayIs(WithoutProduct(t.history, p), added, set h | h in items && h.productID != p);
    }
    var views := PatchViews(t.views, p, found, live);
    var byID := t.byID - {p};
    var inventory := t.specInventory - {p};
    if found.Some? {
      byID := byID[p := found.value];
      inventory := inventory[p := BindingOf(found.value)];
    }
    return Some(Tables(byID, byRoute.value, byAsset, refs, productAssets, history, views, inventory));
  }

  // ---- from scratch

  /** The intact publications of a listing, by product; one whose route is held already is skipped. */
  ghost function LiveListing(w: World, s: seq<Activation>): Live {
    if s == [] then map[]
    else
      var n := |s| - 1;
      var live := LiveListing(w, s[..n]);
      if Installs(w, live, s[n]) then live[s[n].productID := s[n]] else live
  }

  ghost predicate Installs(w: World, live: Live, a: Activation) { Installable(w, a) && !IsRoute(live, RouteOf(a, 0)) }

  ghost predicate OneEach(s: seq<Activation>) {
    && (forall i, j :: 0 <= i < j < |s| ==> s[i].productID != s[j].productID)
    && (forall k :: 0 <= k < |s| ==> s[k].view.id == s[k].productID)
  }

  ghost predicate InstalledAt(w: World, s: seq<Activation>, k: nat)
    requires k < |s|
  {
    Installs(w, LiveListing(w, s[..k]), s[k])
  }

  lemma InstalledPrefix(w: World, s: seq<Activation>, k: nat)
    requires k < |s| - 1
    ensures s[..|s| - 1][k] == s[k] && (InstalledAt(w, s[..|s| - 1], k) <==> InstalledAt(w, s, k))
  {
    assert s[..|s| - 1][..k] == s[..k];
  }

  lemma {:induction false} LiveFrom(w: World, s: seq<Activation>, id: string) returns (k: nat)
    requires id in LiveListing(w, s)
    ensures k < |s| && InstalledAt(w, s, k) && s[k].productID == id && LiveListing(w, s)[id] == s[k]
  {
    hide Installs;
    var n := |s| - 1;
    if InstalledAt(w, s, n) && s[n].productID == id {
      k := n;
    } else {
      k := LiveFrom(w, s[..n], id);
      InstalledPrefix(w, s, k);
    }
  }

  lemma {:induction false} LiveOnceInstalled(w: World, s: seq<Activation>, k: nat)
    requires OneEach(s) && k < |s| && InstalledAt(w, s, k)
    ensures s[k].productID in LiveListing(w, s) && LiveListing(w, s)[s[k].productID] == s[k]
  {
    hide Installs;
    if k == |s| - 1 {
    } else {
      InstalledPrefix(w, s, k);
      LiveOnceInstalled(w, s[..|s| - 1], k);
    }
  }

  /** A listed publication is live exactly when it is intact and no publication live before it
      holds its route; nothing else is live. */
  lemma LiveListingIs(w: World, s: seq<Activation>)
    requires OneEach(s)
    ensures forall id :: id in LiveListing(w, s) ==> IsLiveFrom(w, s, id)
    ensures forall k :: 0 <= k < |s| && InstalledAt(w, s, k) ==>
      s[k].productID in LiveListing(w, s) && LiveListing(w, s)[s[k].productID] == s[k]
  {
    hide Installs, LiveListing, InstalledAt;
    forall id | id in LiveListing(w, s) ensures IsLiveFrom(w, s, id) { var k := LiveFrom(w, s, id); }
    forall k | 0 <= k < |s| && InstalledAt(w, s, k)
      ensures s[k].productID in LiveListing(w, s) && LiveListing(w, s)[s[k].productID] == s[k]
    {
      LiveOnceInstalled(w, s, k);
    }
  }

  ghost predicate IsLiveFrom(w: World, s: seq<Activation>, id: string)
    requires id in LiveListing(w, s)
  {
    exists k :: 0 <= k < |s| && InstalledAt(w, s, k) && s[k].productID == id && LiveListing(w, s)[id] == s[k]
  }

  /** Of listed publications with disjoint routes every intact one is live. */
  lemma DisjointListing(w: World, s: seq<Activation>, k: nat)
    requires OneEach(s) && k < |s|
    requires forall i, j, x: nat, y: nat ::
      0 <= i < j < |s| && x < 3 && y < 3 ==> RouteOf(s[i], x) != RouteOf(s[j], y)
    ensures InstalledAt(w, s, k) <==> Installable(w, s[k])
  {
    hide Installable, RouteOf, LiveListing;
    var live := LiveListing(w, s[..k]);
    forall id, x: nat | id in live && x < 3 ensures RouteOf(live[id], x) != RouteOf(s[k], 0) {
      var i := LiveFrom(w, s[..k], id);
    }
  }

  lemma NewInListing(w: World, s: seq<Activation>, n: nat)
    requires OneEach(s) && n < |s|
    ensures s[n].productID !in LiveListing(w, s[..n])
  {
    hide Installs;
    if s[n].productID in LiveListing(w, s[..n]) { var k := LiveFrom(w, s[..n], s[n].productID); }
  }

  /** Every live route has an entry, each entry is of one, and it is the right one unless two
      publications share a route. */
  ghost predicate RoutesBuilt(byRoute: map<string, RouteTarget>, live: Live) {
    && (forall r :: r in byRoute <==> IsRoute(live, r))
    && (RoutesDisjoint(live) ==> RoutesAre(byRoute, live))
  }

  /** The tables while a rebuild runs: its views are still in listing order. */
  ghost predicate Building(t: Tables, w: World, live: Live) {
    && t.byID == live
    && RoutesBuilt(t.byRoute, live)
    && AssetsAre(w, t.byAsset, t.assetReferences, x => RefCount(w, live, x))
    && ProductAssetsAre(t.productAssets, live)
    && t.history == map[]
    && ListedAre(t.views, live)
    && InventoryIs(t.specInventory, live)
  }

  lemma MoreRoutesBuilt(byRoute: map<string, RouteTarget>, live: Live, p: string, a: Activation)
    requires RoutesBuilt(byRoute, live) && p !in live
    ensures RoutesBuilt(AddRoutes(byRoute, a), live[p := a])
  {
    var after, next := live[p := a], AddRoutes(byRoute, a);
    if RoutesDisjoint(after) {
      SubDisjoint(live, p, a);
      AddRoutesOk(byRoute, live, p, a);
    }
    hide RouteOf, Target, RoutesAre, RoutesDisjoint;
    forall r ensures r in next <==> IsRoute(after, r) {
      if r in byRoute {
        var id, k: nat :| id in live && k < 3 && RouteOf(live[id], k) == r;
        assert id in after && RouteOf(after[id], k) == r;
      }
      if r == RouteOf(a, 0) || r == RouteOf(a, 1) || r == RouteOf(a, 2) {
        assert p in after && after[p] == a;
      }
      if IsRoute(after, r) {
        var id, k: nat :| id in after && k < 3 && RouteOf(after[id], k) == r;
        if id != p { assert IsRoute(live, r); } else { assert k == 0 || k == 1 || k == 2; }
      }
    }
  }

  ghost predicate ListedAre(listed: seq<View>, live: Live) {
    && (forall v :: v in listed <==> IsView(live, v))
    && forall i, j :: 0 <= i < j < |listed| ==> listed[i].id != listed[j].id
  }

  method AddPublication(t: Tables, w: World, a: Activation, ghost live: Live) returns (r: Tables)
    requires Building(t, w, live) && Installable(w, a) && a.productID !in live
    requires forall v :: IsView(live, v) ==> v.id != a.view.id
    ensures Building(r, w, live[a.productID := a])
  {
    hide AssetsAre, RefCount, RoutesBuilt, BindingOf, AssetsOf, Installable, RouteOf, Target, ListedAre;
    hide ProductAssetsAre;
    ghost var after := live[a.productID := a];
    MoreRoutesBuilt(t.byRoute, live, a.productID, a);
    ListedMore(t.views, live, a);
    InstalledAssets(w, a);
    var ids := AssetsOf(a);
    forall x ensures RefCount(w, after, x) == RefCount(w, live, x) + if x in ids then 1 else 0 {
      CountWith(w, live, a.productID, a, x);
    }
    var byAsset, refs := AddAssets(ids, w.assets, t.byAsset, t.assetReferences, w, x => RefCount(w, live, x),
                                   x => RefCount(w, after, x));
    MoreProductAssets(t.productAssets, live, a);
    var productAssets := if ids != [] then t.productAssets[a.productID := ids] else t.productAssets;
    r := Tables(t.byID[a.productID := a], AddRoutes(t.byRoute, a), byAsset, refs, productAssets, t.history,
                t.views + [a.view], t.specInventory[a.productID := BindingOf(a)]);
  }

  lemma MoreProductAssets(productAssets: map<string, seq<string>>, live: Live, a: Activation)
    requires ProductAssetsAre(productAssets, live) && a.productID !in live
    ensures ProductAssetsAre(if AssetsOf(a) != [] then productAssets[a.productID := AssetsOf(a)] else productAssets,
                             live[a.productID := a])
  {
    hide AssetsOf;
  }

  /** The from-scratch install of the source, without its machine outputs. It represents the live
      publications of the listing; the routes are theirs when no two share one, and the history
      that of the items when no two redirect one route. */
  method InstallTables(w: World, s: seq<Activation>,
                       added: seq<RouteHistory>) returns (t: Tables, invalid: seq<Activation>)
    requires ValidWorld(w) && OneEach(s)
    ensures TablesAre(t, w, LiveListing(w, s)) && RoutesBuilt(t.byRoute, LiveListing(w, s))
    ensures t.history == Overlay(map[], added)
    ensures RoutesDisjoint(LiveListing(w, s)) && HistoryUnique(ItemsOf(added)) ==>
      Represents(t, w, LiveListing(w, s), ItemsOf(added))
    ensures forall a :: a in invalid <==> a in s && !Installable(w, a)
  {
    hide AssetsAre, ViewsAre, HistoryIs, RefCount, RoutesDisjoint, HistoryUnique, RoutesAre, Installable, RouteOf;
    hide ListedAre;
    hide ProductAssetsAre, InventoryIs, Building, Represents, TablesAre, RoutesBuilt, Overlay, IsRoute;
    var byAsset, refs := InstallSiteAssets(w);
    t := Tables(map[], map[], byAsset, refs, map[], map[], [], map[]);
    invalid := [];
    StartTables(w, byAsset, refs);
    for n := 0 to |s|
      invariant Building(t, w, LiveListing(w, s[..n]))
      invariant forall a :: a in invalid <==> a in s[..n] && !Installable(w, a)
    {
      var a := s[n];
      assert s[..n + 1] == s[..n] + [a] && s[..n + 1][..n] == s[..n];
      if !Installable(w, a) {
        invalid := invalid + [a];
        continue;
      }
      HeldRoute(t, w, LiveListing(w, s[..n]), a);
      if RouteOf(a, 0) in t.byRoute { continue; }
      NextListed(w, s, n);
      t := AddPublication(t, w, a, LiveListing(w, s[..n]));
    }
    assert s[..|s|] == s;
    t := FinishTables(t, w, LiveListing(w, s), added);
  }

  method InstallSiteAssets(w: World) returns (byAsset: map<string, AssetTarget>, refs: map<string, int>)
    requires ValidWorld(w)
    ensures AssetsAre(w, byAsset, refs, x => RefCount(w, map[], x))
  {
    hide RefCount;
    SiteCounts(w);
    byAsset, refs := AddAssets(w.siteAssets, w.assets, map[], map[], w, x => 0, x => RefCount(w, map[], x));
  }

  method FinishTables(t: Tables, w: World, ghost live: Live, added: seq<RouteHistory>) returns (r: Tables)
    requires Building(t, w, live)
    ensures TablesAre(r, w, live) && RoutesBuilt(r.byRoute, live) && r.history == Overlay(map[], added)
    ensures RoutesDisjoint(live) && HistoryUnique(ItemsOf(added)) ==> Represents(r, w, live, ItemsOf(added))
  {
    hide AssetsAre, ViewLess, RefCount, HistoryUnique, RoutesAre, RoutesDisjoint, ProductAssetsAre, InventoryIs;
    hide Overlay;
    var history := AddHistory(map[], added);
    if HistoryUnique(ItemsOf(added)) {
      assert {} + ItemsOf(added) == ItemsOf(added);
      OverlayIs(map[], added, {});
    }
    var views := SortViews(t.views);
    r := t.(history := history, views := views);
  }

  lemma NextListed(w: World, s: seq<Activation>, n: nat)
    requires OneEach(s) && n < |s|
    ensures s[n].productID !in LiveListing(w, s[..n])
    ensures forall v :: IsView(LiveListing(w, s[..n]), v) ==> v.id != s[n].view.id
  {
    hide Installs;
    NewInListing(w, s, n);
    forall v | IsView(LiveListing(w, s[..n]), v) ensures v.id != s[n].view.id { ListedApart(w, s, n, v); }
  }

  lemma HeldRoute(t: Tables, w: World, live: Live, a: Activation)
    requires Building(t, w, live)
    ensures RouteOf(a, 0) in t.byRoute <==> IsRoute(live, RouteOf(a, 0))
  {
    hide RouteOf, RoutesAre, RoutesDisjoint;
  }

  lemma StartTables(w: World, byAsset: map<string, AssetTarget>, refs: map<string, int>)
    requires AssetsAre(w, byAsset, refs, x => RefCount(w, map[], x))
    ensures Building(Tables(map[], map[], byAsset, refs, map[], map[], [], map[]), w, map[])
  {
    hide AssetsAre, RefCount;
  }

  lemma SiteCounts(w: World)
    ensures forall x :: RefCount(w, map[], x) == 0 + if x in w.siteAssets then 1 else 0
  {
    forall x ensures RefCount(w, map[], x) == 0 + if x in w.siteAssets then 1 else 0 { assert Users(map[], x) == {}; }
  }

  lemma InstalledAssets(w: World, a: Activation)
    requires Installable(w, a)
    ensures Distinct(AssetsOf(a)) && forall k :: 0 <= k < |AssetsOf(a)| ==> AssetsOf(a)[k] in w.assets
  {
  }

  lemma ListedApart(w: World, s: seq<Activation>, n: nat, v: View)
    requires OneEach(s) && n < |s| && IsView(LiveListing(w, s[..n]), v)
    ensures v.id != s[n].view.id
  {
    hide Installs;
    var id :| id in LiveListing(w, s[..n]) && LiveListing(w, s[..n])[id].view == v;
    var k := LiveFrom(w, s[..n], id);
    assert s[..n][k] == s[k];
  }

  lemma ListedMore(listed: seq<View>, before: Live, a: Activation)
    requires ListedAre(listed, before) && a.productID !in before
    requires forall v :: IsView(before, v) ==> v.id != a.view.id
    ensures ListedAre(listed + [a.view], before[a.productID := a])
  {
    var after := before[a.productID := a];
    forall k | 0 <= k < |listed| ensures listed[k].id != a.view.id { assert listed[k] in listed; }
    forall v ensures v in listed + [a.view] <==> IsView(after, v) {
      if IsView(before, v) {
        var id :| id in before && before[id].view == v;
        assert id in after && after[id].view == v;
      }
      if v == a.view { assert a.productID in after && after[a.productID].view == v; }
      if IsView(after, v) {
        var id :| id in after && after[id].view == v;
        if id != a.productID { assert id in before && before[id].view == v; }
      }
    }
  }
}
