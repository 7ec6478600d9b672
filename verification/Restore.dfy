/** The journaled restore: two renames and a durable journal write for each root, resumable from
    wherever a crash stops it. */
module Restore {

  /** The contents of a file or a whole directory tree. */
  type Content = string

  type Files = map<string, Content>

  datatype Journal = Journal(
    operationID: string,
    verified: bool,
    order: seq<string>,
    targets: map<string, string>,
    stages: map<string, string>,
    rootSHA256: map<string, string>,
    completed: map<string, string>)

  datatype Place = Live | Stage | Aside

  function PathOf(j: Journal, name: string, place: Place): string
    requires name in j.targets && name in j.stages
  {
    match place
    case Live => j.targets[name]
    case Stage => j.stages[name]
    case Aside => j.targets[name] + ".pre-restore-" + j.operationID
  }

  /** The journal names a target, a stage and a digest for every root in its order. */
  predicate Complete(j: Journal) { forall n :: n in j.order ==> n in j.targets && n in j.stages && n in j.rootSHA256 }

  /** No two roots share a path, live, staged or set aside. */
  ghost predicate PathsDistinct(j: Journal)
    requires Complete(j)
  {
    forall m, n, x, y :: m in j.order && n in j.order && PathOf(j, m, x) == PathOf(j, n, y) ==> m == n && x == y
  }

  /** The same contents, or nothing, at a path. */
  predicate SameAt(a: Files, b: Files,
                   path: string) { (path in a <==> path in b) && (path in a ==> a[path] == b[path]) }

  predicate Holds(f: Files, path: string, hash: Content -> string,
                  digest: string) { path in f && hash(f[path]) == digest }

  /** Nothing has happened to the root yet. */
  predicate Waiting(original: Files, f: Files, j: Journal, n: string, hash: Content -> string)
    requires Complete(j) && n in j.order
  {
    && SameAt(original, f, PathOf(j, n, Live)) && PathOf(j, n, Aside) !in f
    && Holds(f, PathOf(j, n, Stage), hash, j.rootSHA256[n])
  }

  /** Between its two renames. */
  predicate MovedAside(original: Files, f: Files, j: Journal, n: string, hash: Content -> string)
    requires Complete(j) && n in j.order
  {
    && PathOf(j, n, Live) in original && PathOf(j, n, Live) !in f
    && PathOf(j, n, Aside) in f && f[PathOf(j, n, Aside)] == original[PathOf(j, n, Live)]
    && Holds(f, PathOf(j, n, Stage), hash, j.rootSHA256[n])
  }

  /** The staged contents are live. */
  predicate Activated(original: Files, f: Files, j: Journal, n: string, hash: Content -> string)
    requires Complete(j) && n in j.order
  {
    && Holds(f, PathOf(j, n, Live), hash, j.rootSHA256[n])
    && (PathOf(j, n, Live) in original <==> PathOf(j, n, Aside) in f)
    && (PathOf(j, n, Live) in original ==> f[PathOf(j, n, Aside)] == original[PathOf(j, n, Live)])
  }

  predicate Done(f: Files, j: Journal, n: string, hash: Content -> string)
    requires Complete(j) && n in j.order
  {
    n in j.completed ==> j.completed[n] == j.rootSHA256[n] && Holds(f, PathOf(j, n, Live), hash, j.rootSHA256[n])
  }

  predicate RootSafe(original: Files, f: Files, j: Journal, n: string, hash: Content -> string)
    requires Complete(j) && n in j.order
  {
    && Done(f, j, n, hash)
    && (Waiting(original, f, j, n, hash) || MovedAside(original, f, j, n, hash) || Activated(original, f, j, n, hash))
  }

  /** Every root is in one of its three states, and the journal says nothing untrue. */
  ghost predicate Safe(original: Files, f: Files, j: Journal, hash: Content -> string) {
    && Complete(j) && PathsDistinct(j)
    && (forall n :: n in j.order ==> RootSafe(original, f, j, n, hash))
    && (j.verified ==> AllVerified(f, j, hash))
  }

  ghost predicate AllVerified(f: Files, j: Journal, hash: Content -> string)
    requires Complete(j)
  {
    forall n :: n in j.order ==> Holds(f, PathOf(j, n, Live), hash, j.rootSHA256[n])
  }

  predicate StillThere(f: Files, j: Journal, n: string, content: Content)
    requires Complete(j) && n in j.order
  {
    || (PathOf(j, n, Live) in f && f[PathOf(j, n, Live)] == content)
    || (PathOf(j, n, Aside) in f && f[PathOf(j, n, Aside)] == content)
  }

  /** What was at a target before the restore is still there or set aside beside it; a missing
      target has its replacement staged; and a recorded completion is true. */
  ghost predicate NothingLost(original: Files, f: Files, j: Journal, hash: Content -> string)
    requires Complete(j)
  {
    forall n :: n in j.order ==>
      && (PathOf(j, n, Live) in original ==> StillThere(f, j, n, original[PathOf(j, n, Live)]))
      && (PathOf(j, n, Live) !in f ==> Holds(f, PathOf(j, n, Stage), hash, j.rootSHA256[n]))
      && (n in j.completed ==> j.completed[n] == j.rootSHA256[n] && Holds(f, PathOf(j, n, Live), hash, j.rootSHA256[n]))
  }

  lemma SafeLosesNothing(original: Files, f: Files, j: Journal, hash: Content -> string)
    requires Safe(original, f, j, hash)
    ensures NothingLost(original, f, j, hash)
  {
  }

  // ---- how much is left

  function Incomplete(order: seq<string>, completed: map<string, string>): nat {
    if order == [] then 0 else Incomplete(order[1..], completed) + if order[0] in completed then 0 else 1
  }

  lemma {:induction false} MoreCompleted(order: seq<string>, completed: map<string, string>, n: string, digest: string)
    ensures Incomplete(order, completed[n := digest]) <= Incomplete(order, completed)
  {
    if order == [] {
    } else {
      MoreCompleted(order[1..], completed, n, digest);
    }
  }

  /** The effects a run needs: three for each incomplete root, and the final journal write. */
  function EffectsLeft(j: Journal): nat { if j.verified then 0 else 3 * Incomplete(j.order, j.completed) + 1 }

  datatype RestoreError =
    ManifestChanged | EvidenceMismatch | BothExist | StageUnavailable | HashMismatch | FinalVerification

  datatype Outcome = Finished | Crashed | Refused(error: RestoreError)

  /** The files agree wherever the root has no path of its own. */
  ghost predicate OnlyTouches(f: Files, g: Files, j: Journal, n: string)
    requires Complete(j) && n in j.order
  {
    forall path :: (forall x :: path != PathOf(j, n, x)) ==> SameAt(f, g, path)
  }

  /** Whatever happens at the paths of one root, the others stay as safe as they were. */
  lemma OthersKept(original: Files, f: Files, g: Files, j: Journal, hash: Content -> string, n: string)
    requires Complete(j) && PathsDistinct(j) && n in j.order && OnlyTouches(f, g, j, n)
    requires forall m :: m in j.order ==> RootSafe(original, f, j, m, hash)
    ensures forall m :: m in j.order && m != n ==> RootSafe(original, g, j, m, hash)
  {
    forall m | m in j.order && m != n ensures RootSafe(original, g, j, m, hash) {
      assert RootSafe(original, f, j, m, hash);
      forall z ensures SameAt(f, g, PathOf(j, m, z)) { hide PathOf; }
      assert SameAt(f, g, PathOf(j, m, Live)) && SameAt(f, g, PathOf(j, m, Stage)) && SameAt(f, g, PathOf(j, m, Aside));
    }
  }

  /** The disk: its files, the saved journal, and how many more effects happen before the crash. */
  class Disk {
    var files: Files
    var journal: Journal
    var power: nat
    const hash: Content -> string

    constructor (files: Files, journal: Journal, hash: Content -> string)
      ensures this.files == files && this.journal == journal && this.hash == hash
    {
      this.files, this.journal, this.power, this.hash := files, journal, 0, hash;
    }

    method Rename(from: string, to: string) returns (ok: bool)
      requires from in files && to !in files
      modifies this`files, this`power
      ensures ok <==> old(power) > 0
      ensures ok ==> files == (old(files) - {from})[to := old(files)[from]] && power == old(power) - 1
      ensures !ok ==> files == old(files) && power == 0
    {
      if power == 0 { return false; }
      files := (files - {from})[to := files[from]];
      power := power - 1;
      return true;
    }

    method Save(j: Journal) returns (ok: bool)
      modifies this`journal, this`power
      ensures ok <==> old(power) > 0
      ensures ok ==> journal == j && power == old(power) - 1
      ensures !ok ==> journal == old(journal) && power == 0
    {
      if power == 0 { return false; }
      journal := j;
      power := power - 1;
      return true;
    }

    method ActivateRestoreRoot(j: Journal, n: string, ghost original: Files) returns (r: Outcome)
      requires Complete(j) && n in j.order && PathsDistinct(j)
      modifies this`files, this`power
      ensures OnlyTouches(old(files), files, j, n)
      ensures r.Finished? ==> old(PathOf(j, n, Stage) in files) && PathOf(j, n, Live) in files
      ensures r.Finished? ==> files[PathOf(j, n, Live)] == old(files[PathOf(j, n, Stage)])
      ensures old(RootSafe(original, files, j, n, hash) && !Holds(files, PathOf(j, n, Live), hash, j.rootSHA256[n])) ==>
        RootSafe(original, files, j, n, hash) && !r.Refused? && (r.Finished? ==> Activated(original, files, j, n, hash))
      ensures r.Finished? ==> power + 2 >= old(power)
      ensures r.Crashed? ==> old(power) < 2
    {
      var live, stage, aside := PathOf(j, n, Live), PathOf(j, n, Stage), PathOf(j, n, Aside);
      if live in files {
        if aside in files { return Refused(BothExist); }
        var moved := Rename(live, aside);
        if !moved { return Crashed; }
      }
      if stage !in files { return Refused(StageUnavailable); }
      var activated := Rename(stage, live);
      return if activated then Finished else Crashed;
    }

    method VerifyActivatedRestore(j: Journal) returns (ok: bool)
      requires Complete(j)
      ensures ok <==> AllVerified(files, j, hash)
    {
      for k := 0 to |j.order|
        invariant forall i :: 0 <= i < k ==> Holds(files, PathOf(j, j.order[i], Live), hash, j.rootSHA256[j.order[i]])
      {
        if !Holds(files, PathOf(j, j.order[k], Live), hash, j.rootSHA256[j.order[k]]) { return false; }
      }
      return true;
    }

    /** One root: recorded, found in place, or activated; then the journal is saved. */
    method RestoreRoot(n: string, ghost original: Files) returns (r: Outcome)
      requires Complete(journal) && PathsDistinct(journal) && n in journal.order && !journal.verified
      modifies this
      ensures journal == old(journal) || (n !in old(journal).completed && journal == Recorded(old(journal), n))
      ensures r.Finished? ==> n in journal.completed
      ensures old(Safe(original, files, journal, hash)) ==> Safe(original, files, journal, hash) && !r.Refused?
      ensures r.Finished? ==> power + (if n in old(journal).completed then 0 else 3) >= old(power)
      ensures r.Crashed? ==> old(power) < 3 && n !in old(journal).completed
    {
      hide Waiting, MovedAside, PathOf;
      ghost var safe := Safe(original, files, journal, hash);
      var j := journal;
      var digest := j.rootSHA256[n];
      if n in j.completed {
        if j.completed[n] != digest || !Holds(files, PathOf(j, n, Live), hash, digest) {
          return Refused(EvidenceMismatch);
        }
        return Finished;
      }
      if !Holds(files, PathOf(j, n, Live), hash, digest) {
        ghost var before := files;
        r := ActivateRestoreRoot(j, n, original);
        if safe { OthersKept(original, before, files, j, hash, n); }
        if !r.Finished? { return r; }
        if !Holds(files, PathOf(j, n, Live), hash, digest) { return Refused(HashMismatch); }
      }
      if safe { RecordedSafe(original, files, j, hash, n); }
      var saved := Save(Recorded(j, n));
      return if saved then Finished else Crashed;
    }

    /** Finishing means every root verified, whatever state the disk was in. From a safe state the
        run never refuses, a crash leaves a safe state, and enough effects finish it. */
    method ResumeRestore(manifestIntact: bool, ghost original: Files) returns (r: Outcome)
      requires Complete(journal) && PathsDistinct(journal)
      modifies this
      ensures Complete(journal) && SameOperation(journal, old(journal))
      ensures r.Finished? ==> journal.verified && AllVerified(files, journal, hash)
      ensures old(journal).completed.Keys <= journal.completed.Keys
      ensures old(Safe(original, files, journal, hash)) ==> Safe(original, files, journal, hash)
      ensures old(Safe(original, files, journal, hash)) && r.Refused? ==> !manifestIntact && !old(journal.verified)
      ensures old(Safe(original, files, journal, hash)) && r.Crashed? ==> old(power) < old(EffectsLeft(journal))
    {
      hide PathsDistinct, Incomplete, AllVerified, Safe;
      ghost var safe := Safe(original, files, journal, hash);
      if journal.verified {
        if safe { SafeWhenVerified(original, files, journal, hash); }
        var verified := VerifyActivatedRestore(journal);
        return if verified then Finished else Refused(FinalVerification);
      }
      if !manifestIntact { return Refused(ManifestChanged); }
      r := RestoreRoots(original);
      if !r.Finished? { return r; }
      var verified := VerifyActivatedRestore(journal);
      if safe { CompletedVerifies(original, files, journal, hash); }
      if !verified { return Refused(FinalVerification); }
      SamePaths(journal, journal.(verified := true));
      StillVerified(files, journal, hash);
      if safe { VerifiedSafe(original, files, journal, hash); }
      var saved := Save(journal.(verified := true));
      return if saved then Finished else Crashed;
    }

    /** The loop over the roots. */
    method RestoreRoots(ghost original: Files) returns (r: Outcome)
      requires Complete(journal) && PathsDistinct(journal) && !journal.verified
      modifies this
      ensures Complete(journal) && PathsDistinct(journal) && SameOperation(journal, old(journal)) && !journal.verified
      ensures old(journal).completed.Keys <= journal.completed.Keys
      ensures old(Safe(original, files, journal, hash)) ==> Safe(original, files, journal, hash) && !r.Refused?
      ensures r.Finished? ==> forall i :: 0 <= i < |journal.order| ==> journal.order[i] in journal.completed
      ensures old(power) >= old(EffectsLeft(journal)) ==> if r.Finished? then power >= 1 else r.Refused?
    {
      hide PathsDistinct, Safe, Incomplete, Recorded;
      ghost var safe := Safe(original, files, journal, hash);
      var order := journal.order;
      assert order[0..] == order;
      for k := 0 to |order|
        invariant journal.order == order && Complete(journal) && PathsDistinct(journal) && !journal.verified
        invariant SameOperation(journal, old(journal))
        invariant old(journal).completed.Keys <= journal.completed.Keys
        invariant forall i :: 0 <= i < k ==> order[i] in journal.completed
        invariant safe ==> Safe(original, files, journal, hash)
        invariant old(power) >= old(EffectsLeft(journal)) ==> power >= 3 * Incomplete(order[k..], journal.completed) + 1
      {
        ghost var before := journal;
        RecordedKeeps(journal, order[k], order, k);
        r := RestoreRoot(order[k], original);
        if !r.Finished? { return r; }
      }
      return Finished;
    }

    /** However often and wherever the restore crashes, one uninterrupted run then finishes it. */
    method RestoreThroughCrashes(crashes: seq<nat>, ghost original: Files)
      requires Safe(original, files, journal, hash)
      modifies this
      ensures journal.verified && SameOperation(journal, old(journal)) && Complete(journal)
      ensures AllVerified(files, journal, hash)
      ensures Safe(original, files, journal, hash)
    {
      hide RootSafe, PathOf, AllVerified;
      for k := 0 to |crashes|
        invariant Safe(original, files, journal, hash) && SameOperation(journal, old(journal))
      {
        power := crashes[k];
        var _ := ResumeRestore(true, original);
      }
      power := EffectsLeft(journal);
      var r := ResumeRestore(true, original);
    }
  }

  function Recorded(j: Journal, n: string): Journal
    requires n in j.rootSHA256
  {
    j.(completed := j.completed[n := j.rootSHA256[n]])
  }

  /** The journals differ only in their progress. */
  predicate SameOperation(j: Journal, k: Journal) {
    j.(completed := map[], verified := true) == k.(completed := map[], verified := true)
  }

  lemma SamePaths(j: Journal, k: Journal)
    requires Complete(j) && SameOperation(j, k)
    ensures Complete(k) && (PathsDistinct(j) <==> PathsDistinct(k))
  {
    forall n, x | n in j.order ensures PathOf(j, n, x) == PathOf(k, n, x) {}
    hide PathOf;
  }

  lemma RecordedKeeps(j: Journal, n: string, order: seq<string>, k: nat)
    requires Complete(j) && n in j.order && k < |order| && order[k] == n
    ensures SameOperation(Recorded(j, n), j) && Complete(Recorded(j, n))
    ensures (PathsDistinct(Recorded(j, n)) <==> PathsDistinct(j))
    ensures Recorded(j, n).verified == j.verified && Recorded(j, n).order == j.order
    ensures Recorded(j, n).completed.Keys == j.completed.Keys + {n}
    ensures n in j.completed ==> Incomplete(order[k..], j.completed) >= Incomplete(order[k + 1..], j.completed)
    ensures n !in j.completed ==>
      Incomplete(order[k..], j.completed) >= Incomplete(order[k + 1..], Recorded(j, n).completed) + 1
  {
    SamePaths(j, Recorded(j, n));
    assert order[k..][1..] == order[k + 1..];
    MoreCompleted(order[k + 1..], j.completed, n, j.rootSHA256[n]);
  }

  lemma RecordedSafe(original: Files, f: Files, j: Journal, hash: Content -> string, n: string)
    requires Safe(original, f, j, hash) && n in j.order && Holds(f, PathOf(j, n, Live), hash, j.rootSHA256[n])
    ensures Safe(original, f, Recorded(j, n), hash)
  {
    var k := Recorded(j, n);
    SamePaths(j, k);
    forall m | m in k.order ensures RootSafe(original, f, k, m, hash) { assert RootSafe(original, f, j, m, hash); }
  }

  lemma CompletedVerifies(original: Files, f: Files, j: Journal, hash: Content -> string)
    requires Safe(original, f, j, hash) && forall i :: 0 <= i < |j.order| ==> j.order[i] in j.completed
    ensures AllVerified(f, j, hash)
  {
    forall n | n in j.order
      ensures Holds(f, PathOf(j, n, Live), hash, j.rootSHA256[n])
    {
      assert RootSafe(original, f, j, n, hash);
    }
  }

  lemma StillVerified(f: Files, j: Journal, hash: Content -> string)
    requires Complete(j) && AllVerified(f, j, hash)
    ensures AllVerified(f, j.(verified := true), hash)
  {
    var k := j.(verified := true);
    forall n | n in k.order ensures Holds(f, PathOf(k, n, Live), hash, k.rootSHA256[n]) {
      assert Holds(f, PathOf(j, n, Live), hash, j.rootSHA256[n]);
    }
  }

  lemma SafeWhenVerified(original: Files, f: Files, j: Journal, hash: Content -> string)
    requires Safe(original, f, j, hash) && j.verified
    ensures AllVerified(f, j, hash)
  {
  }

  lemma VerifiedSafe(original: Files, f: Files, j: Journal, hash: Content -> string)
    requires Safe(original, f, j, hash) && AllVerified(f, j, hash)
    ensures Safe(original, f, j.(verified := true), hash) && AllVerified(f, j.(verified := true), hash)
  {
    var k := j.(verified := true);
    SamePaths(j, k);
    forall m | m in k.order
      ensures RootSafe(original, f, k, m, hash) && Holds(f, PathOf(k, m, Live), hash, k.rootSHA256[m])
    {
      assert RootSafe(original, f, j, m, hash);
      assert Holds(f, PathOf(j, m, Live), hash, j.rootSHA256[m]);
    }
  }
}
