/** Preparing a restore: the order of the roots, their staged copies, and the first journal. */
module RestorePrepare {
  import opened Wrappers
  import opened Ordering
  import opened Values
  import opened Restore

  /** The contents a backup holds for each root and file, beside the database and the assets. */
  datatype Backup = Backup(database: Content, assets: Content, others: map<string, Content>)

  const PREFERRED: seq<string> := ["secrets", "config", "host-config"]

  function Present(s: seq<string>, names: set<string>): seq<string> {
    if s == [] then [] else (if s[0] in names then [s[0]] else []) + Present(s[1..], names)
  }

  /** Database and assets first, then the preferred names that exist, then the others in byte order. */
  ghost function Order(names: set<string>): seq<string> {
    ["database", "assets"] + Present(PREFERRED, names) + SortedKeys(names - {"secrets", "config", "host-config"})
  }

  method RestoreOrder(names: set<string>) returns (order: seq<string>)
    ensures order == Order(names)
  {
    var todo := names - {"secrets", "config", "host-config"};
    ghost var all := todo;
    var remaining: seq<string> := [];
    while todo != {}
      invariant todo <= all && StrictlySorted(LexLess, remaining)
      invariant forall x :: x in remaining <==> x in all && x !in todo
      decreases |todo|
    {
      var x :| x in todo;
      remaining := InsertString(remaining, x);
      todo := todo - {x};
    }
    LexIsAsymmetric();
    SortedUnique(LexLess, remaining, SortedKeys(all));
    order := ["database", "assets"] + Present(PREFERRED, names) + remaining;
  }

  predicate IsPreferred(n: string) { n == "secrets" || n == "config" || n == "host-config" }

  /** Database, assets, then secrets, config and host-config where there are any, then the rest in
      byte order: by positions. */
  lemma OrderPositions(names: set<string>, i: nat, k: nat)
    requires i < k < |Order(names)|
    ensures Order(names)[0] == "database" && Order(names)[1] == "assets"
    ensures i >= 2 ==> Earlier(Order(names)[i], Order(names)[k])
  {
    if i >= 2 {
      var preferred, rest := Present(PREFERRED, names), SortedKeys(names - {"secrets", "config", "host-config"});
      RestIsEarlier(names, rest);
      PreferredIsEarlier(names);
      hide Present, SortedKeys, Earlier, IsPreferred;
      Regions(["database", "assets"], preferred, rest, i, k);
    }
  }

  lemma Regions(head: seq<string>, middle: seq<string>, rest: seq<string>, i: nat, k: nat)
    requires |head| <= i < k < |head + middle + rest|
    requires forall a, b :: 0 <= a < b < |middle| ==> Earlier(middle[a], middle[b])
    requires forall a, b :: 0 <= a < b < |rest| ==> Earlier(rest[a], rest[b])
    requires forall a, b :: 0 <= a < |middle| && 0 <= b < |rest| ==> Earlier(middle[a], rest[b])
    ensures Earlier((head + middle + rest)[i], (head + middle + rest)[k])
  {
    hide Earlier;
  }

  lemma RestIsEarlier(names: set<string>, rest: seq<string>)
    requires rest == SortedKeys(names - {"secrets", "config", "host-config"})
    ensures forall a, b :: 0 <= a < b < |rest| ==> Earlier(rest[a], rest[b])
    ensures forall a, b :: 0 <= a < |Present(PREFERRED, names)| && 0 <= b < |rest| ==>
      Earlier(Present(PREFERRED, names)[a], rest[b])
  {
    hide LexLess, Present;
    PresentIs(names);
    forall b | 0 <= b < |rest| ensures !IsPreferred(rest[b]) { assert rest[b] in rest; }
    hide SortedKeys;
  }

  lemma PreferredIsEarlier(names: set<string>)
    ensures forall a, b :: 0 <= a < b < |Present(PREFERRED, names)| ==>
      Earlier(Present(PREFERRED, names)[a], Present(PREFERRED, names)[b])
  {
    hide LexLess, Present;
    PresentIs(names);
  }

  predicate Earlier(m: string, n: string) {
    || (m == "secrets" && n != "secrets")
    || (m == "config" && n != "secrets" && n != "config")
    || (m == "host-config" && !IsPreferred(n))
    || (!IsPreferred(m) && !IsPreferred(n) && LexLess(m, n))
  }

  lemma PresentIs(names: set<string>)
    ensures Present(PREFERRED, names) ==
            (if "secrets" in names then ["secrets"] else []) + (if "config" in names then ["config"] else [])
            + (if "host-config" in names then ["host-config"] else [])
  {
    assert PREFERRED[1..] == ["config", "host-config"] && PREFERRED[1..][1..] == ["host-config"];
    assert Present(["host-config"], names) == if "host-config" in names then ["host-config"] else [];
  }

  /** Every root of the backup is restored, and nothing else. */
  lemma OrderCovers(names: set<string>, n: string)
    ensures n in Order(names) <==> n == "database" || n == "assets" || n in names
  {
    PresentAre(PREFERRED, names, n);
    assert PREFERRED == ["secrets", "config", "host-config"];
    assert n in ["database", "assets"] <==> n == "database" || n == "assets";
    assert n in PREFERRED <==> n in {"secrets", "config", "host-config"};
  }

  lemma {:induction false} PresentAre(s: seq<string>, names: set<string>, n: string)
    ensures n in Present(s, names) <==> n in s && n in names
  {
    if s == [] {
    } else {
      PresentAre(s[1..], names, n);
    }
  }

  // ---- the paths of an operation

  /** The directory part of a clean path, with its separator. */
  function Dir(path: string): string {
    if path == "" then "" else if path[|path| - 1] == '/' then path else Dir(path[..|path| - 1])
  }

  function Base(path: string): string {
    if path == "" || path[|path| - 1] == '/' then "" else Base(path[..|path| - 1]) + [path[|path| - 1]]
  }

  lemma {:induction false} DirBase(path: string)
    ensures path == Dir(path) + Base(path) && '/' !in Base(path)
    ensures Dir(path) != "" ==> Dir(path)[|Dir(path)| - 1] == '/'
  {
    if path == "" || path[|path| - 1] == '/' {
    } else {
      DirBase(path[..|path| - 1]);
    }
  }

  const STAGED := ".restore-"
  const SET_ASIDE := ".pre-restore-"

  function RestoreStagePath(target: string, operationID: string): string {
    Dir(target) + "." + Base(target) + STAGED + operationID
  }

  lemma NoSeparatorAfter(d: string, b: string, i: nat)
    requires '/' !in b && |d| <= i < |d| + 1 + |b|
    ensures (d + "." + b)[i] != '/'
  {
    if i > |d| { assert (d + "." + b)[i] == b[i - |d| - 1]; }
  }

  /** A path splits in one way at its last separator. */
  lemma SplitOnce(d: string, b: string, e: string, c: string)
    requires '/' !in b && '/' !in c && d + "." + b == e + "." + c
    requires (d != "" ==> d[|d| - 1] == '/') && (e != "" ==> e[|e| - 1] == '/')
    ensures d == e && b == c
  {
    var x, y := d + "." + b, e + "." + c;
    assert d != "" ==> x[|d| - 1] == '/';
    assert e != "" ==> y[|e| - 1] == '/';
    if |d| < |e| { NoSeparatorAfter(d, b, |e| - 1); }
    if |e| < |d| { NoSeparatorAfter(e, c, |d| - 1); }
    assert x[..|d|] == d && y[..|e|] == e && x[|d| + 1..] == b && y[|e| + 1..] == c;
  }

  lemma SuffixCancels(a: string, b: string, suffix: string)
    requires a + suffix == b + suffix
    ensures a == b
  {
    assert (a + suffix)[..|a|] == a && (b + suffix)[..|b|] == b;
  }

  lemma StagePathInjective(s: string, t: string, operationID: string)
    requires RestoreStagePath(s, operationID) == RestoreStagePath(t, operationID)
    ensures s == t
  {
    DirBase(s);
    DirBase(t);
    var x, y := Dir(s) + "." + Base(s), Dir(t) + "." + Base(t);
    assert RestoreStagePath(s, operationID) == x + (STAGED + operationID);
    assert RestoreStagePath(t, operationID) == y + (STAGED + operationID);
    SuffixCancels(x, y, STAGED + operationID);
    SplitOnce(Dir(s), Base(s), Dir(t), Base(t));
  }

  predicate EndsWith(s: string, suffix: string) { |s| >= |suffix| && s[|s| - |suffix|..] == suffix }

  /** No target bears the mark of this operation already. */
  predicate FreshOperation(targets: map<string, string>, operationID: string) {
    forall n :: n in targets ==> Unmarked(targets[n], operationID)
  }

  predicate Unmarked(path: string, operationID: string) {
    !EndsWith(path, STAGED + operationID) && !EndsWith(path, SET_ASIDE + operationID)
  }

  predicate TargetsDistinct(targets: map<string, string>) {
    forall m, n :: m in targets && n in targets && targets[m] == targets[n] ==> m == n
  }

  /** The two marks cannot be confused: what comes before the shared part differs. */
  lemma MarksDiffer(x: string, y: string, operationID: string)
    ensures x + STAGED + operationID != y + SET_ASIDE + operationID
  {
    var a, b := x + STAGED + operationID, y + SET_ASIDE + operationID;
    assert a[|a| - |operationID| - 9] == STAGED[0];
    assert b[|b| - |operationID| - 9] == SET_ASIDE[4];
  }

  function PreparedJournal(order: seq<string>, targets: map<string, string>, operationID: string, digests: map<string,
                           string>): Journal {
    Journal(operationID, false, order, targets, map n | n in targets :: RestoreStagePath(targets[n], operationID),
            digests, map[])
  }

  /** A fresh operation over distinct targets never uses one path twice. */
  lemma PreparedPathsDistinct(j: Journal)
    requires Complete(j) && TargetsDistinct(j.targets) && FreshOperation(j.targets, j.operationID)
    requires forall n :: n in j.order ==> j.stages[n] == RestoreStagePath(j.targets[n], j.operationID)
    ensures PathsDistinct(j)
  {
    hide RestoreStagePath, Unmarked;
    forall m, n, x, y | m in j.order && n in j.order && PathOf(j, m, x) == PathOf(j, n, y) ensures m == n && x == y {
      PathIsPlace(j, m, x);
      PathIsPlace(j, n, y);
      hide PlaceOf, PathOf;
      PathsApart(j.targets[m], x, j.targets[n], y, j.operationID);
    }
  }

  lemma PathIsPlace(j: Journal, n: string, place: Place)
    requires Complete(j) && n in j.order && j.stages[n] == RestoreStagePath(j.targets[n], j.operationID)
    ensures PathOf(j, n, place) == PlaceOf(j.targets[n], place, j.operationID)
  {
    hide RestoreStagePath;
  }

  function PlaceOf(target: string, place: Place, operationID: string): string {
    match place
    case Live => target
    case Stage => RestoreStagePath(target, operationID)
    case Aside => target + SET_ASIDE + operationID
  }

  lemma PathsApart(s: string, x: Place, t: string, y: Place, operationID: string)
    requires PlaceOf(s, x, operationID) == PlaceOf(t, y, operationID) && Unmarked(s, operationID)
    requires Unmarked(t, operationID)
    ensures s == t && x == y
  {
    Marked(s, operationID);
    Marked(t, operationID);
    if x == y {
      if x.Stage? { StagePathInjective(s, t, operationID); }
      if x.Aside? { AsidesApart(s, t, operationID); }
    } else if x.Stage? && y.Aside? {
      MarksDiffer(Dir(s) + "." + Base(s), t, operationID);
    } else if x.Aside? && y.Stage? {
      MarksDiffer(Dir(t) + "." + Base(t), s, operationID);
    }
  }

  lemma AsidesApart(s: string, t: string, operationID: string)
    requires s + SET_ASIDE + operationID == t + SET_ASIDE + operationID
    ensures s == t
  {
    assert s + SET_ASIDE + operationID == s + (SET_ASIDE + operationID);
    assert t + SET_ASIDE + operationID == t + (SET_ASIDE + operationID);
    SuffixCancels(s, t, SET_ASIDE + operationID);
  }

  lemma Marked(t: string, operationID: string)
    ensures EndsWith(PlaceOf(t, Stage, operationID), STAGED + operationID)
    ensures EndsWith(PlaceOf(t, Aside, operationID), SET_ASIDE + operationID)
  {
    var x := Dir(t) + "." + Base(t);
    assert PlaceOf(t, Stage, operationID) == x + (STAGED + operationID);
    assert PlaceOf(t, Aside, operationID) == t + (SET_ASIDE + operationID);
  }

  // ---- preparing

  predicate ValidTargets(targets: map<string, string>, order: seq<string>) {
    |targets| == |order| && forall n :: n in order ==> n in targets && !Blank(targets[n])
  }

  /** What is staged for a root; the database is stripped of its sessions first. */
  function StagedContent(backup: Backup, policy: Content -> Content, n: string): Content
    requires Sourced(backup, n)
  {
    if n == "database" then policy(backup.database) else if n == "assets" then backup.assets else backup.others[n]
  }

  /** The stages of the first roots are filled and nothing but stages has changed. */
  ghost predicate StagedSoFar(before: Files, after: Files, targets: map<string, string>, operationID: string,
                              done: seq<string>,
                              backup: Backup, policy: Content -> Content, digests: map<string, string>,
                              hash: Content -> string)
    requires forall n :: n in done ==> n in targets && Sourced(backup, n)
  {
    && OnlyStages(before, after, targets, operationID)
    && (forall n :: n in done ==>
          && n in digests && RestoreStagePath(targets[n], operationID) in after
          && after[RestoreStagePath(targets[n], operationID)] == StagedContent(backup, policy, n)
          && digests[n] == hash(StagedContent(backup, policy, n)))
  }

  ghost predicate IsStage(targets: map<string, string>, operationID: string, path: string) {
    exists n :: n in targets && path == RestoreStagePath(targets[n], operationID)
  }

  ghost predicate OnlyStages(before: Files, after: Files, targets: map<string, string>, operationID: string) {
    forall path :: !IsStage(targets, operationID, path) ==> SameAt(before, after, path)
  }

  lemma StageChanged(before: Files, after: Files, targets: map<string, string>, operationID: string, n: string,
                     content: Content)
    requires OnlyStages(before, after, targets, operationID) && n in targets
    ensures OnlyStages(before, after[RestoreStagePath(targets[n], operationID) := content], targets, operationID)
  {
    hide RestoreStagePath;
    assert IsStage(targets, operationID, RestoreStagePath(targets[n], operationID));
  }

  predicate Sourced(backup: Backup, n: string) { n == "database" || n == "assets" || n in backup.others }

  /** Nothing of the operation is on the disk yet. */
  ghost predicate UnusedOperation(files: Files, targets: map<string, string>, operationID: string) {
    forall n :: n in targets ==> PlaceOf(targets[n], Aside, operationID) !in files
  }

  lemma StageMore(before: Files, after: Files, targets: map<string, string>, operationID: string, done: seq<string>,
                  backup: Backup, policy: Content -> Content, digests: map<string, string>, hash: Content -> string,
                  n: string)
    requires forall m :: m in done + [n] ==> m in targets && Sourced(backup, m)
    requires StagedSoFar(before, after, targets, operationID, done, backup, policy, digests, hash)
    requires RestoreStagePath(targets[n], operationID) !in after
    ensures var content := StagedContent(backup, policy, n);
      StagedSoFar(before, after[RestoreStagePath(targets[n], operationID) := content], targets, operationID, done + [n],
                  backup, policy, digests[n := hash(content)], hash)
  {
    StageChanged(before, after, targets, operationID, n, StagedContent(backup, policy, n));
    hide RestoreStagePath, StagedContent, OnlyStages;
  }

  lemma PreparedIsSafe(before: Files, after: Files, j: Journal, backup: Backup, policy: Content -> Content,
                       hash: Content -> string)
    requires TargetsDistinct(j.targets) && FreshOperation(j.targets, j.operationID)
    requires UnusedOperation(before, j.targets, j.operationID)
    requires j == PreparedJournal(j.order, j.targets, j.operationID, j.rootSHA256) && Complete(j)
    requires forall n :: n in j.order ==> Sourced(backup, n)
    requires StagedSoFar(before, after, j.targets, j.operationID, j.order, backup, policy, j.rootSHA256, hash)
    ensures Safe(before, after, j, hash)
  {
    hide RestoreStagePath, StagedContent, FreshOperation, TargetsDistinct;
    PreparedPathsDistinct(j);
    forall n | n in j.order ensures RootSafe(before, after, j, n, hash) {
      var live, aside := PathOf(j, n, Live), PathOf(j, n, Aside);
      NotAStage(j.targets, j.operationID, n, live);
      NotAStage(j.targets, j.operationID, n, aside);
      assert SameAt(before, after, live) && SameAt(before, after, aside);
      assert PlaceOf(j.targets[n], Aside, j.operationID) !in before;
    }
  }

  lemma NotAStage(targets: map<string, string>, operationID: string, n: string, path: string)
    requires FreshOperation(targets, operationID) && n in targets
    requires path == PlaceOf(targets[n], Live, operationID) || path == PlaceOf(targets[n], Aside, operationID)
    ensures !IsStage(targets, operationID, path)
  {
    hide RestoreStagePath;
    if IsStage(targets, operationID, path) {
      var m :| m in targets && path == RestoreStagePath(targets[m], operationID);
      PathsApart(targets[m], Stage, targets[n], if path == PlaceOf(targets[n], Live, operationID) then Live else Aside,
                 operationID);
    }
  }

  /** No two roots of the order have one target. */
  predicate DistinctAlong(targets: map<string, string>, order: seq<string>)
    requires forall n :: n in order ==> n in targets
  {
    forall i, j :: 0 <= i < j < |order| ==> targets[order[i]] != targets[order[j]]
  }

  lemma {:induction false} NamesCounted(order: seq<string>, names: set<string>)
    requires forall i, j :: 0 <= i < j < |order| ==> order[i] != order[j]
    requires forall n :: n in order ==> n in names
    ensures |order| <= |names|
    ensures |order| == |names| ==> forall n :: n in names ==> n in order
  {
    if order == [] {
      assert |names| == 0 ==> names == {};
    } else {
      var last := order[|order| - 1];
      var rest := order[..|order| - 1];
      assert order == rest + [last];
      NamesCounted(rest, names - {last});
    }
  }

  /** The targets named by an order of their number, each another one, are all there are. */
  lemma DistinctAlongAll(targets: map<string, string>, order: seq<string>)
    requires |targets| == |order| && (forall n :: n in order ==> n in targets) && DistinctAlong(targets, order)
    ensures TargetsDistinct(targets)
  {
    NamesCounted(order, targets.Keys);
    forall m, n | m in targets && n in targets && targets[m] == targets[n] ensures m == n {
      assert m in order && n in order;
    }
  }

  /** No stage of the order is on the disk. */
  predicate Unstaged(files: Files, targets: map<string, string>, operationID: string, order: seq<string>)
    requires forall n :: n in order ==> n in targets
  {
    forall k :: 0 <= k < |order| ==> RestoreStagePath(targets[order[k]], operationID) !in files
  }

  /** What is on the disk was there before or is the stage of a name already done. */
  ghost predicate OnlyAdds(before: Files, after: Files, targets: map<string, string>, operationID: string,
                           done: seq<string>)
    requires forall n :: n in done ==> n in targets
  {
    && (forall path :: path in before ==> path in after)
    && forall path :: path in after && path !in before ==> IsStageOf(path, targets, operationID, done)
  }

  ghost predicate IsStageOf(path: string, targets: map<string, string>, operationID: string, done: seq<string>)
    requires forall n :: n in done ==> n in targets
  {
    exists k :: 0 <= k < |done| && path == RestoreStagePath(targets[done[k]], operationID)
  }

  lemma AddsStage(before: Files, after: Files, targets: map<string, string>, operationID: string, done: seq<string>,
                  n: string, content: Content)
    requires (forall m :: m in done + [n] ==> m in targets) && OnlyAdds(before, after, targets, operationID, done)
    ensures OnlyAdds(before, after[RestoreStagePath(targets[n], operationID) := content],
                     targets, operationID, done + [n])
    ensures AllStaged(after, targets, operationID, done) ==>
      AllStaged(after[RestoreStagePath(targets[n], operationID) := content], targets, operationID, done + [n])
  {
    hide RestoreStagePath;
    var more := done + [n];
    assert more[|done|] == n;
    forall path | IsStageOf(path, targets, operationID, done) ensures IsStageOf(path, targets, operationID, more) {
      var k :| 0 <= k < |done| && path == RestoreStagePath(targets[done[k]], operationID);
      assert more[k] == done[k];
    }
  }

  ghost predicate AllStaged(after: Files, targets: map<string, string>, operationID: string, done: seq<string>)
    requires forall n :: n in done ==> n in targets
  {
    forall k :: 0 <= k < |done| ==> RestoreStagePath(targets[done[k]], operationID) in after
  }

  /** A stage is taken only when it was there before or an earlier root shares the target. */
  lemma StageTaken(before: Files, after: Files, targets: map<string, string>, operationID: string, order: seq<string>,
                   k: nat)
    requires (forall n :: n in order ==> n in targets) && k < |order|
    requires OnlyAdds(before, after, targets, operationID, order[..k])
    requires AllStaged(after, targets, operationID, order[..k])
    requires DistinctAlong(targets, order[..k]) && Unstaged(before, targets, operationID, order[..k])
    ensures RestoreStagePath(targets[order[k]], operationID) in after ==>
      !(DistinctAlong(targets, order) && Unstaged(before, targets, operationID, order))
    ensures RestoreStagePath(targets[order[k]], operationID) !in after ==>
      DistinctAlong(targets, order[..k + 1]) && Unstaged(before, targets, operationID, order[..k + 1])
  {
    var stage := RestoreStagePath(targets[order[k]], operationID);
    if stage in after && stage !in before {
      assert IsStageOf(stage, targets, operationID, order[..k]);
      var i :| 0 <= i < k && stage == RestoreStagePath(targets[order[..k][i]], operationID);
      StagePathInjective(targets[order[i]], targets[order[k]], operationID);
    }
    hide RestoreStagePath;
    assert order[..k + 1] == order[..k] + [order[k]];
    if stage !in after {
      forall i | 0 <= i < k ensures targets[order[i]] != targets[order[k]] {
        assert RestoreStagePath(targets[order[..k][i]], operationID) in after;
      }
    }
  }

  /** Fills the stages in order; one copy may be cut short, and a stage that exists is refused. */
  method StageRoots(disk: Disk, backup: Backup, targets: map<string, string>, operationID: string,
                    policy: Content -> Content, order: seq<string>, interrupted: nat, garbage: Content)
    returns (digests: Option<map<string, string>>)
    requires forall n :: n in order ==> n in targets && Sourced(backup, n)
    modifies disk`files
    ensures OnlyStages(old(disk.files), disk.files, targets, operationID)
    ensures digests.Some? <==>
      DistinctAlong(targets, order) && Unstaged(old(disk.files), targets, operationID, order) && interrupted >= |order|
    ensures digests.Some? ==>
      StagedSoFar(old(disk.files), disk.files, targets, operationID, order, backup, policy, digests.value, disk.hash)
  {
    hide RestoreStagePath, StagedContent, OnlyStages, OnlyAdds, Sourced, DistinctAlong, Unstaged, AllStaged;
    var hashes: map<string, string> := map[];
    NothingStaged(disk.files, targets, operationID);
    for k := 0 to |order|
      invariant interrupted >= k
      invariant StagedSoFar(old(disk.files), disk.files, targets, operationID, order[..k],
                            backup, policy, hashes, disk.hash)
      invariant OnlyAdds(old(disk.files), disk.files, targets, operationID, order[..k])
      invariant AllStaged(disk.files, targets, operationID, order[..k])
      invariant DistinctAlong(targets, order[..k]) && Unstaged(old(disk.files), targets, operationID, order[..k])
    {
      var n := order[k];
      var stage := RestoreStagePath(targets[n], operationID);
      assert order[..k + 1] == order[..k] + [n];
      StageTaken(old(disk.files), disk.files, targets, operationID, order, k);
      if stage in disk.files { return None; }
      if k == interrupted {
        StageChanged(old(disk.files), disk.files, targets, operationID, n, garbage);
        disk.files := disk.files[stage := garbage];
        return None;
      }
      StageMore(old(disk.files), disk.files, targets, operationID, order[..k], backup, policy, hashes, disk.hash, n);
      AddsStage(old(disk.files), disk.files, targets, operationID, order[..k], n, StagedContent(backup, policy, n));
      disk.files := disk.files[stage := StagedContent(backup, policy, n)];
      hashes := hashes[n := disk.hash(disk.files[stage])];
    }
    assert order[..|order|] == order;
    return Some(hashes);
  }

  lemma NothingStaged(files: Files, targets: map<string, string>, operationID: string)
    ensures OnlyStages(files, files, targets, operationID) && OnlyAdds(files, files, targets, operationID, [])
    ensures AllStaged(files, targets, operationID, [])
    ensures DistinctAlong(targets, []) && Unstaged(files, targets, operationID, [])
  {
  }

  /** The stage of a root holds these contents, and the journal has their digest. */
  predicate Holding(files: Files, j: Journal, hash: Content -> string, n: string, content: Content) {
    && n in j.order && n in j.stages && n in j.rootSHA256
    && j.stages[n] in files && files[j.stages[n]] == content && j.rootSHA256[n] == hash(content)
  }

  lemma StagedHolds(before: Files, after: Files, j: Journal, backup: Backup, policy: Content -> Content,
                    hash: Content -> string, n: string)
    requires j == PreparedJournal(j.order, j.targets, j.operationID, j.rootSHA256) && Complete(j)
    requires (forall m :: m in j.order ==> Sourced(backup, m)) && n in j.order
    requires StagedSoFar(before, after, j.targets, j.operationID, j.order, backup, policy, j.rootSHA256, hash)
    ensures Holding(after, j, hash, n, StagedContent(backup, policy, n))
  {
    hide RestoreStagePath, StagedContent, OnlyStages;
  }

  /** The stages hold what the backup has, with the policy applied to the database. */
  lemma PreparedHolds(before: Files, after: Files, j: Journal, backup: Backup, policy: Content -> Content,
                      hash: Content -> string)
    requires j == PreparedJournal(j.order, j.targets, j.operationID, j.rootSHA256) && Complete(j)
    requires j.order == Order(backup.others.Keys) && DistinctAlong(j.targets, j.order)
    requires forall n :: n in j.order <==> Sourced(backup, n)
    requires StagedSoFar(before, after, j.targets, j.operationID, j.order, backup, policy, j.rootSHA256, hash)
    ensures Holding(after, j, hash, "database", policy(backup.database))
    ensures Holding(after, j, hash, "assets", backup.assets)
    ensures forall n :: n in backup.others ==> Holding(after, j, hash, n, backup.others[n])
  {
    assert forall n :: n in j.order ==> n in j.targets;
    hide *;
    OrderTwice(backup.others.Keys, j.targets);
    SourcesAre(backup, policy);
    forall n | Sourced(backup, n) ensures Holding(after, j, hash, n, StagedContent(backup, policy, n)) {
      StagedHolds(before, after, j, backup, policy, hash, n);
    }
    forall n | n in backup.others ensures Holding(after, j, hash, n, backup.others[n]) {
      assert Holding(after, j, hash, n, StagedContent(backup, policy, n));
    }
  }

  lemma SourcesAre(backup: Backup, policy: Content -> Content)
    requires "database" !in backup.others && "assets" !in backup.others
    ensures Sourced(backup, "database") && StagedContent(backup, policy, "database") == policy(backup.database)
    ensures Sourced(backup, "assets") && StagedContent(backup, policy, "assets") == backup.assets
    ensures forall n :: n in backup.others ==>
      Sourced(backup, n) && StagedContent(backup, policy, n) == backup.others[n]
  {
  }

  lemma NotAlsoLater(head: seq<string>, middle: seq<string>, rest: seq<string>, i: nat, n: string,
                     targets: map<string, string>)
    requires forall m :: m in head + middle + rest ==> m in targets
    requires DistinctAlong(targets, head + middle + rest) && i < |head| && head[i] == n
    ensures n !in rest
  {
    var order := head + middle + rest;
    forall k | 0 <= k < |rest| ensures rest[k] != n {
      assert order[i] == n && order[|head| + |middle| + k] == rest[k];
    }
  }

  /** A backup with a root named as one of the first two orders it twice, so its targets coincide. */
  lemma OrderTwice(names: set<string>, targets: map<string, string>)
    requires (forall n :: n in Order(names) ==> n in targets) && DistinctAlong(targets, Order(names))
    ensures "database" !in names && "assets" !in names
  {
    var rest := SortedKeys(names - {"secrets", "config", "host-config"});
    hide DistinctAlong, Present, SortedKeys;
    NotAlsoLater(["database", "assets"], Present(PREFERRED, names), rest, 0, "database", targets);
    NotAlsoLater(["database", "assets"], Present(PREFERRED, names), rest, 1, "assets", targets);
  }

  /** The configuration the source accepts, with no stage in the way: the order's targets are all
      there are, none is blank and no two are one path. */
  predicate CanPrepare(files: Files, targets: map<string, string>, operationID: string, order: seq<string>) {
    ValidTargets(targets, order) && DistinctAlong(targets, order) && Unstaged(files, targets, operationID, order)
  }

  /** Stages every root and saves the first journal. Before that save nothing but stage paths has
      changed; after it the restore is safe to resume. Roots that share a target are refused, since
      the second finds its stage taken. */
  method PrepareRestore(disk: Disk, backup: Backup, targets: map<string, string>, operationID: string,
                        policy: Content -> Content, interrupted: nat, garbage: Content) returns (ok: bool)
    requires FreshOperation(targets, operationID) && UnusedOperation(disk.files, targets, operationID)
    modifies disk
    ensures OnlyStages(old(disk.files), disk.files, targets, operationID)
    ensures ok <==>
      CanPrepare(old(disk.files), targets, operationID, Order(backup.others.Keys))
      && interrupted >= |Order(backup.others.Keys)|
    ensures !ok ==> disk.journal == old(disk.journal)
    ensures ok ==> TargetsDistinct(targets) && Safe(old(disk.files), disk.files, disk.journal, disk.hash)
    ensures ok ==> disk.journal.targets == targets && disk.journal.order == Order(backup.others.Keys)
    ensures ok ==> disk.journal.operationID == operationID
    ensures ok ==> Holding(disk.files, disk.journal, disk.hash, "database", policy(backup.database))
    ensures ok ==> Holding(disk.files, disk.journal, disk.hash, "assets", backup.assets)
    ensures ok ==> forall n :: n in backup.others ==> Holding(disk.files, disk.journal, disk.hash, n, backup.others[n])
  {
    hide RestoreStagePath, FreshOperation, TargetsDistinct, Order, UnusedOperation, OnlyStages, OnlyAdds;
    hide Safe, StagedContent, Blank, DistinctAlong, Unstaged;
    var order := RestoreOrder(backup.others.Keys);
    forall n ensures n in order <==> Sourced(backup, n) { OrderCovers(backup.others.Keys, n); }
    NothingStaged(disk.files, targets, operationID);
    if !ValidTargets(targets, order) { return false; }
    var digests := StageRoots(disk, backup, targets, operationID, policy, order, interrupted, garbage);
    if digests.None? { return false; }
    var j := PreparedJournal(order, targets, operationID, digests.value);
    DistinctAlongAll(targets, order);
    PreparedIsSafe(old(disk.files), disk.files, j, backup, policy, disk.hash);
    PreparedHolds(old(disk.files), disk.files, j, backup, policy, disk.hash);
    disk.journal := j;
    return true;
  }

  /** The target has the digest of these contents. */
  predicate RestoredTo(files: Files, targets: map<string, string>, hash: Content -> string, n: string,
                       content: Content) {
    n in targets && targets[n] in files && hash(files[targets[n]]) == hash(content)
  }

  lemma HeldIsRestored(staged: Files, files: Files, j: Journal, k: Journal, hash: Content -> string, n: string,
                       content: Content)
    requires Complete(j) && Complete(k) && SameOperation(k, j) && AllVerified(files, k, hash)
    requires Holding(staged, j, hash, n, content)
    ensures RestoredTo(files, j.targets, hash, n, content)
  {
    assert Holds(files, PathOf(k, n, Live), hash, k.rootSHA256[n]);
  }

  /** What was at a target is still there or set aside beside it. */
  predicate Kept(files: Files, target: string, operationID: string, content: Content) {
    || (target in files && files[target] == content)
    || (target + SET_ASIDE + operationID in files && files[target + SET_ASIDE + operationID] == content)
  }

  lemma SafeKeeps(original: Files, files: Files, j: Journal, hash: Content -> string, n: string)
    requires Safe(original, files, j, hash) && n in j.order && j.targets[n] in original
    ensures Kept(files, j.targets[n], j.operationID, original[j.targets[n]])
  {
    SafeLosesNothing(original, files, j, hash);
    hide Safe;
    assert PathOf(j, n, Live) in original && StillThere(files, j, n, original[PathOf(j, n, Live)]);
  }

  /** Prepared, then restored through any crashes: every target has the digest of what the backup
      holds for it, the database without its sessions, and what was there before is not lost. */
  method RestoreBackup(disk: Disk, backup: Backup, targets: map<string, string>, operationID: string,
                       policy: Content -> Content, crashes: seq<nat>) returns (ok: bool)
    requires FreshOperation(targets, operationID) && UnusedOperation(disk.files, targets, operationID)
    modifies disk
    ensures ok <==> CanPrepare(old(disk.files), targets, operationID, Order(backup.others.Keys))
    ensures ok ==> disk.journal.verified && disk.journal.order == Order(backup.others.Keys)
    ensures ok ==> RestoredTo(disk.files, targets, disk.hash, "database", policy(backup.database))
    ensures ok ==> RestoredTo(disk.files, targets, disk.hash, "assets", backup.assets)
    ensures ok ==> forall n :: n in backup.others ==> RestoredTo(disk.files, targets, disk.hash, n, backup.others[n])
    ensures ok ==> forall n :: n in disk.journal.order && n in targets && targets[n] in old(disk.files) ==>
      Kept(disk.files, targets[n], operationID, old(disk.files)[targets[n]])
  {
    hide FreshOperation, UnusedOperation, DistinctAlong, Unstaged, Safe, AllVerified, Order, Holding, RestoredTo, Kept;
    hide Complete;
    ghost var original := disk.files;
    ok := PrepareRestore(disk, backup, targets, operationID, policy, |targets|, "");
    if !ok { return; }
    ghost var j, staged := disk.journal, disk.files;
    CompleteWhenSafe(original, staged, j, disk.hash);
    disk.RestoreThroughCrashes(crashes, original);
    HeldIsRestored(staged, disk.files, j, disk.journal, disk.hash, "database", policy(backup.database));
    HeldIsRestored(staged, disk.files, j, disk.journal, disk.hash, "assets", backup.assets);
    forall n | n in backup.others ensures RestoredTo(disk.files, targets, disk.hash, n, backup.others[n]) {
      HeldIsRestored(staged, disk.files, j, disk.journal, disk.hash, n, backup.others[n]);
    }
    forall n | n in disk.journal.order && n in targets && targets[n] in original
      ensures Kept(disk.files, targets[n], operationID, original[targets[n]])
    {
      SafeKeeps(original, disk.files, disk.journal, disk.hash, n);
    }
  }

  lemma CompleteWhenSafe(original: Files, files: Files, j: Journal, hash: Content -> string)
    requires Safe(original, files, j, hash)
    ensures Complete(j)
  {
  }
}
