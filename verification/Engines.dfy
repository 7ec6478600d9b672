/** The engine: its public index is patched or rebuilt under the gate, while what is derived from
    it is refreshed in steps that let other steps in between. */
module Engines {
  import opened Wrappers
  import opened Predicates
  import opened Publications
  import opened SpecIndex
  import opened SpecAdapter
  import opened PublicTables
  import opened SpecSearch

  /** The committed state the engine reads. */
  datatype Repository = Repository(
    w: World,
    site: string,
    siteEpoch: int,
    customCSSDisabled: bool,
    runtimeGeneration: int,
    live: Live,
    history: seq<RouteHistory>)

  /** What the repository guarantees: keyed publications, disjoint routes and one redirect a route. */
  ghost predicate ValidRepository(r: Repository) {
    && ValidWorld(r.w) && ViewsKeyed(r.live) && RoutesDisjoint(r.live) && HistoryUnique(ItemsOf(r.history))
  }

  function OtherHistory(s: seq<RouteHistory>, p: string): (r: seq<RouteHistory>)
    ensures forall h :: h in r <==> h in s && h.productID != p
  {
    if s == [] then []
    else
      assert s == [s[0]] + s[1..];
      (if s[0].productID != p then [s[0]] else []) + OtherHistory(s[1..], p)
  }

  /** One product published, republished or revoked, with its route history replaced. */
  function Commit(r: Repository, p: string, found: Option<Activation>, added: seq<RouteHistory>): Repository {
    r.(live := if found.Some? then (r.live - {p})[p := found.value] else r.live - {p},
       history := OtherHistory(r.history, p) + added)
  }

  lemma CommitIs(r: Repository, p: string, found: Option<Activation>, added: seq<RouteHistory>)
    ensures Commit(r, p, found, added).live == LiveAfter(r.live, p, found)
    ensures ItemsOf(Commit(r, p, found, added).history) == ItemsAfter(ItemsOf(r.history), p, added)
  {
  }

  /** The publications whose files and assets are intact: what an install makes public. */
  ghost function Installed(w: World, live: Live): Live { map id | id in live && Installable(w, live[id]) :: live[id] }

  lemma InstalledAfter(w: World, live: Live, p: string, found: Option<Activation>)
    requires found.Some? ==> Installable(w, found.value)
    ensures Installed(w, LiveAfter(live, p, found)) == LiveAfter(Installed(w, live), p, found)
  {
    hide Installable;
  }

  lemma InstalledKeeps(w: World, live: Live)
    ensures ViewsKeyed(live) ==> ViewsKeyed(Installed(w, live))
    ensures RoutesDisjoint(live) ==> RoutesDisjoint(Installed(w, live))
  {
    hide Installable, RouteOf;
  }

  /** A listing of a map's values, each once, in any order. */
  ghost predicate IsListing(s: seq<Activation>, live: Live) {
    && (forall a :: a in s <==> a.productID in live && live[a.productID] == a)
    && (forall i, j :: 0 <= i < j < |s| ==> s[i].productID != s[j].productID)
  }

  method Listing(live: Live) returns (s: seq<Activation>)
    requires Keyed(live)
    ensures IsListing(s, live)
  {
    s := [];
    var todo := live.Keys;
    while todo != {}
      invariant todo <= live.Keys
      invariant forall a :: a in s <==> a.productID in live && a.productID !in todo && live[a.productID] == a
      invariant forall i, j :: 0 <= i < j < |s| ==> s[i].productID != s[j].productID
      decreases |todo|
    {
      var id :| id in todo;
      forall k | 0 <= k < |s| ensures s[k].productID != id { assert s[k] in s; }
      s := s + [live[id]];
      todo := todo - {id};
    }
  }

  lemma ListedApart(live: Live, s: seq<Activation>)
    requires ViewsKeyed(live) && RoutesDisjoint(live) && IsListing(s, live)
    ensures OneEach(s)
    ensures forall i, j, x: nat, y: nat ::
      0 <= i < j < |s| && x < 3 && y < 3 ==> RouteOf(s[i], x) != RouteOf(s[j], y)
  {
    hide RouteOf;
    forall k | 0 <= k < |s| ensures s[k].productID in live && live[s[k].productID] == s[k] { assert s[k] in s; }
  }

  /** Whichever order publications with disjoint routes are listed in, the intact ones are live. */
  lemma ListingIsLive(w: World, live: Live, s: seq<Activation>)
    requires ViewsKeyed(live) && RoutesDisjoint(live) && IsListing(s, live)
    ensures OneEach(s) && LiveListing(w, s) == Installed(w, live)
  {
    hide Installable, RouteOf, RoutesDisjoint, InstalledAt, LiveListing, OneEach;
    ListedApart(live, s);
    forall k | 0 <= k < |s| ensures InstalledAt(w, s, k) <==> Installable(w, s[k]) { DisjointListing(w, s, k); }
    var listed, installed := LiveListing(w, s), Installed(w, live);
    forall id | id in listed ensures id in installed && installed[id] == listed[id] {
      var k := LiveFrom(w, s, id);
      assert s[k] in s;
    }
    forall id | id in installed ensures id in listed {
      assert live[id].productID == id;
      assert live[id] in s;
      var k :| 0 <= k < |s| && s[k] == live[id];
      LiveOnceInstalled(w, s, k);
    }
  }

  /** The digest of the publications' documents, unless one cannot be indexed. */
  method SpecActiveDigest(active: seq<Activation>, ghost live: Live) returns (digest: Option<Digest>)
    requires Keyed(live) && IsListing(active, live)
    ensures digest.Some? <==> AllIndexable(live)
    ensures digest.Some? ==> IsDigestOf(digest.value, live)
  {
    hide Indexable, DocumentOf;
    var docs := SpecBleveDocuments(active);
    forall id | id in live ensures live[id] in active { assert live[id].productID == id; }
    if docs.None? {
      var k :| 0 <= k < |active| && !Indexable(active[k]);
      assert active[k] in active;
      return None;
    }
    forall id | id in live ensures Indexable(live[id]) {
      assert live[id] in active;
      var k :| 0 <= k < |active| && active[k] == live[id];
    }
    DocumentsOfListing(live, active, docs.value);
    return Some(Sha256(docs.value));
  }

  ghost predicate IsDigestOf(digest: Digest, live: Live) {
    digest.Sha256? && IsDocuments(digest.documents, live) && AllIndexable(live)
  }

  /** The machine outputs, when there are any, are of the index's own views, site and epoch. */
  ghost predicate MachineCoherent(s: IndexState) {
    s.machine.Some? ==> s.machine.value == Machine(s.tables.views, s.site, s.siteEpoch)
  }

  /** Everything a healthy index owes the committed state and itself. */
  ghost predicate Serves(s: IndexState, r: Repository) {
    && Represents(s.tables, r.w, Installed(r.w, r.live), ItemsOf(r.history))
    && s.site == r.site && s.siteEpoch == r.siteEpoch
    && MachineCoherent(s)
    && (s.specDigest != NoDigest ==> IsDigestOf(s.specDigest, s.tables.byID))
  }

  /** The custom CSS switch may move without an install; a patch is only made where it has not. */
  predicate SameCSS(s: IndexState, r: Repository) {
    s.customCSSDisabled == r.customCSSDisabled && s.runtimeGeneration == r.runtimeGeneration
  }

  lemma ServesSite(s: IndexState, r: Repository)
    requires Serves(s, r)
    ensures s.siteEpoch == r.siteEpoch
  {
  }

  /** What one read of a product's publication returns: the committed one, unless it is another's. */
  ghost predicate ReadsProduct(p: string, found: Option<Activation>, read: Option<Activation>) {
    read == found || (read.Some? && read.value.productID != p)
  }

  lemma NoConflictCommitted(w: World, before: Repository, p: string, found: Option<Activation>,
                            added: seq<RouteHistory>)
    requires ValidRepository(before) && ValidRepository(Commit(before, p, found, added)) && found.Some?
    ensures found.value.productID == p && !Conflicts(Installed(w, before.live) - {p}, found.value)
  {
    hide Installable, Conflicts, RouteOf, Installed;
    CommitIs(before, p, found, added);
    var after := Commit(before, p, found, added).live;
    assert p in after && after[p] == found.value;
    RemovedDisjoint(before.live, p);
    DisjointMore(before.live - {p}, p, found.value);
    FewerConflicts(w, before.live, p, found.value);
  }

  lemma FewerConflicts(w: World, live: Live, p: string, a: Activation)
    ensures Conflicts(Installed(w, live) - {p}, a) ==> Conflicts(live - {p}, a)
  {
    hide Installable, RouteOf;
    if !Conflicts(Installed(w, live) - {p}, a) { return; }
    var k: nat :| k < 3 && IsRoute(Installed(w, live) - {p}, RouteOf(a, k));
    var id, l: nat :| id in Installed(w, live) - {p} && l < 3 && RouteOf(Installed(w, live)[id], l) == RouteOf(a, k);
    assert id in live - {p} && RouteOf((live - {p})[id], l) == RouteOf(a, k);
    assert IsRoute(live - {p}, RouteOf(a, k));
  }

  /** The healthy index after one commit, patched from the one before it; its derived data goes. */
  method PatchIndex(s: IndexState, w: World, ghost before: Repository, p: string, ghost found: Option<Activation>,
                    read: Option<Activation>, added: seq<RouteHistory>)
    returns (next: Option<IndexState>)
    requires Serves(s, before) && !s.unhealthy && w == before.w
    requires ValidRepository(before) && ValidRepository(Commit(before, p, found, added))
    requires ReadsProduct(p, found, read) && ProductReading(p, read, added)
    ensures next.None? <==> read.Some? && (read.value.productID != p || !Installable(before.w, read.value))
    ensures next.Some? ==> Serves(next.value, Commit(before, p, found, added)) && !next.value.unhealthy
    ensures next.Some? ==> SameCSS(next.value, before) == SameCSS(s, before)
    ensures next.Some? ==> next.value.machine.None? && next.value.specDigest == NoDigest
  {
    hide TablesAre, RoutesAre, RoutesDisjoint, HistoryUnique, ValidWorld, Installable, LiveAfter, ItemsAfter, Commit;
    hide Conflicts;
    ghost var after := Commit(before, p, found, added);
    CommitIs(before, p, found, added);
    CommitKeepsSite(before, p, found, added);
    InstalledKeeps(w, before.live);
    if read == found && found.Some? { NoConflictCommitted(w, before, p, found, added); }
    if read == found && (found.Some? ==> Installable(w, found.value)) { InstalledAfter(w, before.live, p, found); }
    var tables := PatchTables(s.tables, p, read, added, w, Installed(w, before.live), ItemsOf(before.history));
    if tables.None? { return None; }
    return Some(s.(tables := tables.value, machine := None, specDigest := NoDigest, specDigestFailed := false));
  }

  /** The healthy index of the committed state, built from scratch with its machine outputs and,
      unless a publication cannot be indexed, its digest. */
  method RebuildIndex(r: Repository) returns (s: IndexState)
    requires ValidRepository(r)
    ensures Serves(s, r) && !s.unhealthy && SameCSS(s, r) && s.machine.Some?
    ensures if AllIndexable(s.tables.byID) then s.specDigest != NoDigest else s.specDigestFailed
  {
    hide Represents, TablesAre, IsDocuments, RoutesDisjoint, HistoryUnique, ValidWorld, AllIndexable, IsListing;
    var listed := Listing(r.live);
    ListingIsLive(r.w, r.live, listed);
    InstalledKeeps(r.w, r.live);
    var tables, _ := InstallTables(r.w, listed, r.history);
    RepresentsLive(tables, r.w, Installed(r.w, r.live), ItemsOf(r.history));
    var active := Listing(tables.byID);
    var digest := SpecActiveDigest(active, tables.byID);
    s := IndexState(false, tables, r.site, r.siteEpoch, r.customCSSDisabled, r.runtimeGeneration,
                    Some(Machine(tables.views, r.site, r.siteEpoch)),
                    if digest.Some? then digest.value else NoDigest, digest.None?);
  }

  /** An installed index never changes; the engine's reference to it does. */
  class PublicIndex {
    const state: IndexState

    constructor (state: IndexState)
      ensures this.state == state
    {
      this.state := state;
    }
  }

  const NO_TABLES := Tables(map[], map[], map[], map[], map[], map[], [], map[])
  const UNHEALTHY := IndexState(true, NO_TABLES, "", 0, false, 0, None, NoDigest, false)

  /** Which of the repository's and the generator's calls succeed during an install. */
  datatype InstallIO = InstallIO(publications: bool, site: bool, css: bool, product: bool, history: bool, machine: bool)

  /** The calls a rebuild makes all succeed. */
  predicate RebuildReads(io: InstallIO) { io.publications && io.site && io.css && io.history && io.machine }

  predicate AtLeast(m: map<string, int>, id: string, revision: int) { id in m && m[id] >= revision }

  /** Where the numeric refresh stands; only one is ever under way. */
  datatype SpecRefresh =
    | Idle
    | Swapped(force: bool)
    | Captured(index: PublicIndex, active: seq<Activation>, digest: Digest, force: bool)
    | Replaced(index: PublicIndex, digest: Digest)
    | Failed

  /** Where the aggregate refresh stands. */
  datatype MachineRefresh = Resting | Generating(index: PublicIndex, pending: map<string,
                                                 int>) | Converging(pending: map<string, int>)

  class Engine {
    var repository: Repository
    var index: PublicIndex?
    var specDirty: bool
    const adapter: BleveSpecIndex
    var specRefresh: SpecRefresh
    var machineRefresh: MachineRefresh
    var pendingDependencies: map<string, int>
    /** The dependency revisions tracked so far, and the last one converged for each product. */
    ghost var owed: set<(string, int)>
    ghost var converged: map<string, int>
    /** A stored payload was read back as another valid one. */
    ghost var misread: bool

    ghost predicate Healthy()
      reads this`index
    {
      index != null && !index.state.unhealthy
    }

    /** The adapter answers from exactly the documents of these publications. */
    ghost predicate AdapterHolds(live: Live)
      reads adapter
    {
      adapter.sourceDigest == Sha256(adapter.documents) && IsDocuments(adapter.documents, live)
    }

    /** No refresh is ever lost. */
    ghost predicate NothingLost()
      reads this, adapter
    {
      Healthy() && specRefresh.Idle? && !specDirty ==> misread || AdapterHolds(index.state.tables.byID)
    }

    ghost predicate RefreshOk()
      reads this`specRefresh, this`misread, adapter
    {
      match specRefresh
      case Captured(i, active, digest, _) =>
        && Keyed(i.state.tables.byID) && IsListing(active, i.state.tables.byID)
        && IsDigestOf(digest, i.state.tables.byID)
      case Replaced(i, digest) =>
        && IsDigestOf(digest, i.state.tables.byID)
        && (misread || AdapterHolds(i.state.tables.byID))
      case _ => true
    }

    ghost predicate Valid()
      reads this, adapter
    {
      && ValidRepository(repository) && adapter.Valid()
      && (Healthy() ==> Serves(index.state, repository))
      && NothingLost() && RefreshOk()
      && MachineOk() && DependenciesKept()
    }

    ghost predicate MachineOk()
      reads this`machineRefresh
    {
      machineRefresh.Generating? ==> !machineRefresh.index.state.unhealthy
    }

    /** Every tracked revision is still pending or has been converged, or a later one has. */
    ghost predicate DependenciesKept()
      reads this`pendingDependencies, this`owed, this`converged
    {
      forall o :: o in owed ==> AtLeast(pendingDependencies, o.0, o.1) || AtLeast(converged, o.0, o.1)
    }

    /** Starts without an index, over an adapter that may hold what an earlier run left. */
    constructor (repository: Repository, adapter: BleveSpecIndex)
      requires ValidRepository(repository) && adapter.Valid()
      ensures Valid() && this.repository == repository && this.adapter == adapter && index == null
    {
      this.repository := repository;
      index, specDirty, misread := null, false, false;
      pendingDependencies, owed, converged := map[], {}, map[];
      specRefresh, machineRefresh := Idle, Resting;
      this.adapter := adapter;
    }

    // ---- installs

    method Fail()
      requires ValidRepository(repository) && adapter.Valid() && RefreshOk() && MachineOk() && DependenciesKept()
      modifies this`index
      ensures Valid() && !Healthy()
    {
      index := new PublicIndex(UNHEALTHY);
    }

    /** Rebuilds the index from the repository, or leaves an unhealthy one. */
    method InstallLocked(io: InstallIO)
      requires ValidRepository(repository) && adapter.Valid() && RefreshOk() && MachineOk() && DependenciesKept()
      modifies this`index, this`specDirty
      ensures Valid()
      ensures Healthy() <==> RebuildReads(io)
      ensures Healthy() ==> specDirty && SameCSS(index.state, repository)
    {
      hide Serves, ValidRepository, IsDigestOf, IsDocuments, IsListing;
      if !RebuildReads(io) { Fail(); return; }
      var next := RebuildIndex(repository);
      index := new PublicIndex(next);
      specDirty := true;
    }

    /** A website change is committed and the index rebuilt from the new state. */
    method InstallWebsite(next: Repository, io: InstallIO)
      requires Valid() && ValidRepository(next)
      modifies this`repository, this`index, this`specDirty
      ensures Valid() && repository == next && (Healthy() <==> RebuildReads(io))
    {
      repository := next;
      InstallLocked(io);
    }

    method ChangeCustomCSS(disabled: bool, generation: int)
      requires Valid()
      modifies this`repository
      ensures Valid() && repository == old(repository).(customCSSDisabled := disabled, runtimeGeneration := generation)
    {
      hide Represents, IsListing, IsDigestOf, IsDocuments, RoutesDisjoint, HistoryUnique, ValidWorld;
      repository := repository.(customCSSDisabled := disabled, runtimeGeneration := generation);
    }

    /** The publication read is the product's own, with its files and assets intact. */
    ghost predicate Fits(p: string, read: Option<Activation>)
      reads this`repository
    {
      read.Some? ==> read.value.productID == p && Installable(repository.w, read.value)
    }

    /** What the install of one product needs: the reads of a patch with a fitting publication, or
        those of a rebuild when the publication read is of another site epoch. */
    ghost predicate VisibilityReads(p: string, read: Option<Activation>, io: InstallIO)
      reads this`repository
    {
      && io.site && io.css && io.product
      && if read.Some? && read.value.siteEpoch != repository.siteEpoch then RebuildReads(io)
         else io.history && Fits(p, read)
    }

    /** One product is published, republished or revoked: the change is committed, then the index
        is patched where it can be, rebuilt where it must be, or declared unhealthy. */
    method InstallProductVisibility(p: string, found: Option<Activation>, read: Option<Activation>,
                                    added: seq<RouteHistory>,
                                    io: InstallIO)
      requires Valid() && ValidRepository(Commit(repository, p, found, added))
      requires ReadsProduct(p, found, read) && ProductReading(p, read, added)
      modifies this`repository, this`index, this`specDirty
      ensures Valid() && repository == Commit(old(repository), p, found, added)
      ensures Healthy() ==> specDirty && SameCSS(index.state, repository)
      ensures !old(Healthy()) || !SameCSS(old(index.state), repository) ==> (Healthy() <==> RebuildReads(io))
      ensures old(Healthy()) && SameCSS(old(index.state), repository) ==> (Healthy() <==> VisibilityReads(p, read, io))
    {
      hide Serves, IsListing, IsDigestOf, IsDocuments, Installable, ValidRepository, Commit;
      ghost var before := repository;
      repository := Commit(repository, p, found, added);
      CommitKeepsSite(before, p, found, added);
      var current := index;
      if current == null || current.state.unhealthy { InstallLocked(io); return; }
      var s := current.state;
      if !io.site || !io.css { Fail(); return; }
      ServesSite(s, before);
      if repository.siteEpoch != s.siteEpoch || !SameCSS(s, repository) {
        InstallLocked(io);
        return;
      }
      if !io.product { Fail(); return; }
      if read.Some? && read.value.siteEpoch != repository.siteEpoch { InstallLocked(io); return; }
      if !io.history { Fail(); return; }
      var next := PatchIndex(s, repository.w, before, p, found, read, added);
      if next.None? { Fail(); return; }
      index := new PublicIndex(next.value);
      specDirty := true;
    }

    /** Patched however often, the tables of a healthy index are those a rebuild gives. */
    method Rebuilt() returns (t: Tables)
      requires Valid() && Healthy()
      ensures t == index.state.tables
    {
      hide Represents, RoutesDisjoint, HistoryUnique, ValidWorld, IsListing;
      var r := repository;
      var s := Listing(r.live);
      ListingIsLive(r.w, r.live, s);
      InstalledKeeps(r.w, r.live);
      var rebuilt, _ := InstallTables(r.w, s, r.history);
      t := rebuilt;
      RepresentationIsUnique(t, index.state.tables, r.w, Installed(r.w, r.live), ItemsOf(r.history));
    }

    // ---- the aggregate refresh

    /** Records that what depends on a product must converge to a revision. */
    method TrackPublicationDependencies(p: string, revision: nat)
      requires Valid() && revision > 0
      modifies this`pendingDependencies, this`owed
      ensures Valid() && owed == old(owed) + {(p, revision)} && AtLeast(pendingDependencies, p, revision)
      ensures forall id :: id != p ==> (id in pendingDependencies <==> id in old(pendingDependencies))
      ensures forall id ::
        id != p && id in pendingDependencies ==> pendingDependencies[id] == old(pendingDependencies)[id]
    {
      hide Serves, IsListing, IsDigestOf, IsDocuments, ValidRepository;
      owed := owed + {(p, revision)};
      if revision > (if p in pendingDependencies then pendingDependencies[p] else 0) {
        pendingDependencies := pendingDependencies[p := revision];
      }
    }

    method MachineCapture() returns (ok: bool)
      requires Valid() && machineRefresh.Resting?
      modifies this`machineRefresh
      ensures Valid() && (ok <==> Healthy() || (index == null && pendingDependencies == map[]))
      ensures Healthy() ==> machineRefresh == Generating(index, pendingDependencies)
      ensures !Healthy() ==> machineRefresh == Resting
    {
      if index == null && |pendingDependencies| == 0 { return true; }
      if index == null || index.state.unhealthy { return false; }
      machineRefresh := Generating(index, pendingDependencies);
      return true;
    }

    /** Installs outputs generated outside the gate only on the very index they were generated from. */
    method MachineInstall(generated: bool)
      requires Valid() && machineRefresh.Generating?
      modifies this`machineRefresh, this`index
      ensures Valid() && (Healthy() <==> old(Healthy()))
      ensures old(index == machineRefresh.index) && generated ==> index.state.machine.Some?
      ensures old(index != machineRefresh.index) ==> index == old(index)
      ensures Healthy() ==> index.state.(machine := None) == old(index.state).(machine := None)
      ensures machineRefresh.Converging? ==> machineRefresh.pending == old(machineRefresh.pending)
    {
      var s := machineRefresh.index.state;
      var pending := machineRefresh.pending;
      if s.machine.None? {
        if !generated { machineRefresh := Resting; return; }
        var outputs := Machine(s.tables.views, s.site, s.siteEpoch);
        if index != machineRefresh.index { machineRefresh := Resting; return; }
        index := new PublicIndex(s.(machine := Some(outputs)));
      }
      machineRefresh := Converging(pending);
    }

    /** Converges one captured dependency; a revision tracked meanwhile stays pending. */
    method ConvergeDependency(id: string, converges: bool)
      requires Valid() && machineRefresh.Converging? && id in machineRefresh.pending
      modifies this`machineRefresh, this`pendingDependencies, this`converged
      ensures Valid()
      ensures !converges ==> machineRefresh == Resting && pendingDependencies == old(pendingDependencies)
      ensures converges ==> machineRefresh == Converging(old(machineRefresh.pending) - {id})
      ensures converges ==> AtLeast(converged, id, old(machineRefresh.pending)[id])
      ensures id in pendingDependencies ==>
        id in old(pendingDependencies) && pendingDependencies[id] == old(pendingDependencies)[id]
    {
      hide Serves, IsListing, IsDigestOf, IsDocuments, ValidRepository;
      if !converges { machineRefresh := Resting; return; }
      var revision := machineRefresh.pending[id];
      if !AtLeast(converged, id, revision) { converged := converged[id := revision]; }
      if id in pendingDependencies && pendingDependencies[id] == revision {
        pendingDependencies := pendingDependencies - {id};
      }
      machineRefresh := Converging(machineRefresh.pending - {id});
    }

    method MachineDone()
      requires Valid() && machineRefresh.Converging? && machineRefresh.pending == map[]
      modifies this`machineRefresh
      ensures Valid() && machineRefresh == Resting
    {
      machineRefresh := Resting;
    }

    // ---- the numeric refresh

    method SpecSwap(force: bool)
      requires Valid() && specRefresh.Idle?
      modifies this`specRefresh, this`specDirty
      ensures Valid()
      ensures force || old(specDirty) ==> specRefresh == Swapped(force) && !specDirty
      ensures !force && !old(specDirty) ==> specRefresh == Idle && !specDirty
    {
      if !force && !specDirty { return; }
      specDirty := false;
      specRefresh := Swapped(force);
    }

    method SpecCapture()
      requires Valid() && specRefresh.Swapped?
      modifies this`specRefresh
      ensures Valid() && (specRefresh.Captured? || specRefresh.Failed?)
      ensures specRefresh.Captured? <==>
        Healthy() && !index.state.specDigestFailed
        && (index.state.specDigest != NoDigest || AllIndexable(index.state.tables.byID))
      ensures specRefresh.Captured? ==> specRefresh.index == index && specRefresh.force == old(specRefresh.force)
    {
      hide Represents, IsDocuments, AllIndexable, IsListing, RoutesDisjoint, HistoryUnique, ValidWorld;
      var force := specRefresh.force;
      if index == null || index.state.unhealthy || index.state.specDigestFailed { specRefresh := Failed; return; }
      RepresentsLive(index.state.tables, repository.w, Installed(repository.w, repository.live),
                     ItemsOf(repository.history));
      InstalledKeeps(repository.w, repository.live);
      var active := Listing(index.state.tables.byID);
      var digest := index.state.specDigest;
      if digest == NoDigest {
        var computed := SpecActiveDigest(active, index.state.tables.byID);
        if computed.None? { specRefresh := Failed; return; }
        digest := computed.value;
      }
      specRefresh := Captured(index, active, digest, force);
    }

    method SpecReplace(cancelled: bool, io: ReplaceIO)
      requires Valid() && specRefresh.Captured?
      modifies this`specRefresh, this`misread, adapter
      ensures Valid() && (specRefresh.Replaced? || specRefresh.Failed?)
      ensures specRefresh.Replaced? ==> specRefresh.index == old(specRefresh.index)
      ensures specRefresh.Replaced? ==> (misread <==> io.load.Damaged?)
      ensures adapter.closed == old(adapter.closed)
      ensures !cancelled && !adapter.closed && old(adapter.Consistent()) && Works(io) ==> specRefresh.Replaced?
    {
      hide Represents, ValidRepository, IsListing, IsListingDocuments, IsDocuments, Listable, Works;
      WorksReads(io);
      ListingListable(specRefresh.active, specRefresh.index.state.tables.byID);
      var i, active, digest := specRefresh.index, specRefresh.active, specRefresh.digest;
      if cancelled { specRefresh := Failed; return; }
      var ok := adapter.ReplaceWithMode(active, specRefresh.force, io);
      if !ok { specRefresh := Failed; return; }
      misread := io.load.Damaged?;
      if IsListingDocuments(adapter.documents, active) {
        ListedDocuments(adapter.documents, active, i.state.tables.byID);
      }
      specRefresh := Replaced(i, digest);
    }

    method SpecFail()
      requires Valid() && specRefresh.Failed?
      modifies this`specRefresh, this`specDirty
      ensures Valid() && specDirty && specRefresh == Idle
    {
      specDirty := true;
      specRefresh := Idle;
    }

    /** The digest is installed only on the captured index; on any other the refresh stays due. */
    method SpecFinish()
      requires Valid() && specRefresh.Replaced?
      modifies this`specRefresh, this`specDirty, this`index
      ensures Valid() && specRefresh == Idle
      ensures old(index) != old(specRefresh.index) ==> specDirty && index == old(index)
      ensures (Healthy() <==> old(Healthy())) && (old(index) == old(specRefresh.index) ==> specDirty == old(specDirty))
      ensures old(index) == old(specRefresh.index) && Healthy() ==>
        IsDigestOf(index.state.specDigest, index.state.tables.byID)
      ensures Healthy() ==> index.state.(specDigest := NoDigest) == old(index.state).(specDigest := NoDigest)
    {
      hide Represents, IsListing, IsDocuments, AllIndexable, ValidRepository;
      var i := specRefresh.index;
      if index != i {
        specDirty := true;
      } else if i.state.specDigest == NoDigest {
        index := new PublicIndex(i.state.(specDigest := specRefresh.digest));
      }
      specRefresh := Idle;
    }

    /** A refresh has something to do, on a healthy index that can be digested and with an adapter in
        step with its stored index. */
    ghost predicate CanRefresh(force: bool)
      reads this, adapter
    {
      && (force || specDirty)
      && Healthy() && !index.state.specDigestFailed && AllIndexable(index.state.tables.byID)
      && !adapter.closed && adapter.Consistent()
    }

    /** Index and adapter are at one digest, and no refresh is due. */
    ghost predicate InStep()
      reads this, adapter
    {
      && Healthy() && !specDirty
      && AdapterHolds(index.state.tables.byID) && index.state.specDigest == adapter.sourceDigest
    }

    /** A refresh nothing comes between. When it has something to do and nothing fails, it leaves
        the index with its own digest and the adapter with the documents of that digest. */
    method RefreshSpecSearch(force: bool, cancelled: bool, io: ReplaceIO)
      requires Valid() && specRefresh.Idle?
      modifies this`specRefresh, this`specDirty, this`misread, this`index, adapter
      ensures Valid() && specRefresh == Idle
      ensures !force && !old(specDirty) ==> index == old(index) && !specDirty
      ensures old(CanRefresh(force)) && !cancelled && Works(io) ==>
        InStep() && index.state.tables == old(index.state.tables)
    {
      hide Represents, ValidRepository, IsListing, IsDocuments, AllIndexable, Works;
      WorksReads(io);
      SpecSwap(force);
      if specRefresh.Idle? { return; }
      SpecCapture();
      if specRefresh.Captured? { SpecReplace(cancelled, io); }
      if specRefresh.Failed? { SpecFail(); return; }
      ghost var captured := specRefresh.index;
      SpecFinish();
      if Healthy() && AdapterHolds(captured.state.tables.byID) {
        DocumentsUnique(adapter.documents, index.state.specDigest.documents, captured.state.tables.byID);
      }
    }

    // ---- the search

    /** The adapter is read outside the gate: any steps may come before the search that uses this. */
    method ReadSpecCandidates(predicates: seq<Predicate>, io: SearchIO) returns (r: Option<Snapshot>)
      requires Valid()
      ensures AdapterAnswer(r, predicates)
    {
      r := adapter.Candidates(predicates, io);
    }

    /** Whatever happened since the adapter was read, the answer is the exact scan of the current index. */
    method Search(request: Request, snapshot: Option<Snapshot>,
                  done: nat -> bool) returns (r: Result<SearchResult, SearchError>)
      requires Valid() && AdapterAnswer(snapshot, request.predicates)
      ensures r == Failure(Cancelled) || Answers(if index == null then None else Some(index.state), request, r)
      ensures r == Failure(Cancelled) ==> exists n :: done(n)
    {
      hide Represents, IsDocuments, AllIndexable, RoutesDisjoint, HistoryUnique, ValidWorld, AdapterAnswer, Answers;
      var state := if index == null then None else Some(index.state);
      if Available(state) {
        RepresentsLive(state.value.tables, repository.w, Installed(repository.w, repository.live),
                       ItemsOf(repository.history));
        InstalledKeeps(repository.w, repository.live);
      }
      r := SearchSpecs(state, request, snapshot, done);
    }

    /** The catalog's numeric and text conditions over listed views of the current index. */
    method FilterScope(scope: seq<View>, clauses: seq<Clause>, text: (View, Clause) -> bool, snapshot: Option<Snapshot>)
      returns (r: Result<seq<View>, SearchError>)
      requires Valid() && AdapterAnswer(snapshot, NumericOf(clauses))
      requires Healthy() ==> forall k :: 0 <= k < |scope| ==> scope[k] in index.state.tables.views
      ensures r == if Healthy() then Success(Filtered(scope, clauses, text)) else Failure(PublicUnavailable)
    {
      hide Represents, IsDocuments, AllIndexable, RoutesDisjoint, HistoryUnique, ValidWorld, AdapterAnswer, NumericOf;
      hide Filtered;
      if index == null || index.state.unhealthy { return Failure(PublicUnavailable); }
      RepresentsLive(index.state.tables, repository.w, Installed(repository.w, repository.live),
                     ItemsOf(repository.history));
      InstalledKeeps(repository.w, repository.live);
      var selected := FilterCatalog(index.state, scope, clauses, text, snapshot);
      return Success(selected);
    }
  }

  lemma WorksReads(io: ReplaceIO)
    ensures Works(io) ==> !io.load.Damaged?
  {
  }

  lemma ListingListable(s: seq<Activation>, live: Live)
    requires Keyed(live) && IsListing(s, live) && AllIndexable(live)
    ensures Listable(s)
  {
    hide Indexable;
    forall k | 0 <= k < |s| ensures Indexable(s[k]) { assert s[k] in s; }
  }

  lemma RepresentsLive(t: Tables, w: World, live: Live, items: set<RouteHistory>)
    requires Represents(t, w, live, items)
    ensures t.byID == live && InventoryIs(t.specInventory, live)
    ensures forall v :: v in t.views ==> IsView(live, v)
  {
  }

  lemma ListedDocuments(docs: seq<Document>, active: seq<Activation>, live: Live)
    requires Keyed(live) && IsListing(active, live) && IsListingDocuments(docs, active)
    ensures IsDocuments(docs, live)
  {
    hide Indexable, DocumentOf;
    DocumentsOfListing(live, active, docs);
  }

  lemma CommitKeepsSite(r: Repository, p: string, found: Option<Activation>, added: seq<RouteHistory>)
    ensures var next := Commit(r, p, found, added);
      next.w == r.w && next.site == r.site && next.siteEpoch == r.siteEpoch
      && next.customCSSDisabled == r.customCSSDisabled && next.runtimeGeneration == r.runtimeGeneration
  {
  }
}
