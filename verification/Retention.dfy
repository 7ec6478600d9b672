/** Which backups are kept: one pass over the listing fills the buckets, and what fills none expires. */
module Retention {
  import opened Wrappers

  datatype Kind = Scheduled | PreUpgrade | PreRestore | OtherKind(name: string)

  /** A listed backup; its time is absent when its timestamp does not parse, and its bucket keys
      are those of its time in the configured zone. */
  datatype Backup = Backup(id: string, created: Option<int>, kind: Kind, day: string, week: string, month: string)

  /** The key of a bucket so many steps back from now. */
  datatype Calendar = Calendar(day: nat -> string, week: nat -> string, month: nat -> string)

  datatype Settings = Settings(daily: int, weekly: int, monthly: int, preUpgrade: int, preRestore: int)

  datatype Policy = Policy(calendar: Calendar, settings: Settings, now: int)

  datatype Reason = ClockSkew | Daily(key: string) | Weekly(key: string) | Monthly(key: string)
                  | BeforeUpgrade | BeforeRestore | Manual | LastGood

  /** The keys of the most recent count buckets. */
  ghost function Buckets(key: nat -> string, count: int): set<string> { set i: nat | i < count :: key(i) }

  method FillBuckets(key: nat -> string, count: int) returns (r: set<string>)
    ensures r == Buckets(key, count)
  {
    r := {};
    var offset := 0;
    while offset < count
      invariant 0 <= offset && (offset <= count || offset == 0)
      invariant r == Buckets(key, offset)
    {
      r := r + {key(offset)};
      offset := offset + 1;
    }
    assert count <= 0 ==> Buckets(key, count) == {};
  }

  /** The backup has a time, and it is not in the future. */
  predicate Dated(b: Backup, now: int) { b.created.Some? && b.created.value <= now }

  predicate DatedAs(b: Backup, now: int, kind: Kind) { Dated(b, now) && b.kind == kind }

  /** Backups of one kind among those listed earlier. */
  function CountKind(s: seq<Backup>, now: int, kind: Kind): nat {
    if s == [] then 0 else CountKind(s[..|s| - 1], now, kind) + if DatedAs(s[|s| - 1], now, kind) then 1 else 0
  }

  /** Nothing scheduled and listed earlier shares the key. */
  ghost predicate FirstIn(earlier: seq<Backup>, now: int, key: Backup -> string, b: Backup) {
    forall e :: e in earlier && DatedAs(e, now, Scheduled) ==> key(e) != key(b)
  }

  function DayOf(b: Backup): string { b.day }
  function WeekOf(b: Backup): string { b.week }
  function MonthOf(b: Backup): string { b.month }

  /** The backup is the first listed of an active bucket. */
  ghost predicate Fills(earlier: seq<Backup>, now: int, key: Backup -> string, b: Backup,
                        bucket: nat -> string, count: int) {
    key(b) in Buckets(bucket, count) && FirstIn(earlier, now, key, b)
  }

  ghost function ScheduledReasons(earlier: seq<Backup>, b: Backup, p: Policy): set<Reason> {
    (if Fills(earlier, p.now, DayOf, b, p.calendar.day, p.settings.daily) then {Daily(b.day)} else {})
    + (if Fills(earlier, p.now, WeekOf, b, p.calendar.week, p.settings.weekly) then {Weekly(b.week)} else {})
    + (if Fills(earlier, p.now, MonthOf, b, p.calendar.month, p.settings.monthly) then {Monthly(b.month)} else {})
  }

  /** Why a backup is kept, given those listed before it. */
  ghost function ReasonsAfter(earlier: seq<Backup>, b: Backup, p: Policy): set<Reason> {
    if b.created.None? then {}
    else if b.created.value > p.now then {ClockSkew}
    else match b.kind
      case Scheduled => ScheduledReasons(earlier, b, p)
      case PreUpgrade => if CountKind(earlier, p.now, PreUpgrade) < p.settings.preUpgrade then {BeforeUpgrade} else {}
      case PreRestore => if CountKind(earlier, p.now, PreRestore) < p.settings.preRestore then {BeforeRestore} else {}
      case OtherKind(_) => {Manual}
  }

  /** The same, with the newest backup always kept. */
  ghost function KeptFor(earlier: seq<Backup>, b: Backup, p: Policy): set<Reason> {
    var reasons := ReasonsAfter(earlier, b, p);
    if earlier == [] && reasons == {} then {LastGood} else reasons
  }

  ghost predicate Kept(earlier: seq<Backup>, b: Backup, p: Policy) { KeptFor(earlier, b, p) != {} }

  ghost function KeptList(s: seq<Backup>, p: Policy): seq<Backup> {
    if s == [] then []
    else
      var n := |s| - 1;
      KeptList(s[..n], p) + if Kept(s[..n], s[n], p) then [s[n]] else []
  }

  ghost function ExpiredList(s: seq<Backup>, p: Policy): seq<string> {
    if s == [] then []
    else
      var n := |s| - 1;
      ExpiredList(s[..n], p) + if Kept(s[..n], s[n], p) then [] else [s[n].id]
  }

  // ---- properties

  lemma {:induction false} KeptAreListed(s: seq<Backup>, p: Policy)
    ensures forall b :: b in KeptList(s, p) ==> b in s
    ensures forall kind :: CountKind(KeptList(s, p), p.now, kind) <= CountKind(s, p.now, kind)
    ensures s != [] ==> KeptList(s, p) != []
  {
    hide KeptFor;
    if s == [] {
    } else {
      var n := |s| - 1;
      KeptAreListed(s[..n], p);
      FirstIsKept(s[0], p);
      assert s == s[..n] + [s[n]];
      var k := KeptList(s[..n], p);
      assert k + [] == k;
      forall kind ensures CountKind(KeptList(s, p), p.now, kind) <= CountKind(s, p.now, kind) {
        CountMore(k, s[n], p.now, kind);
        CountMore(s[..n], s[n], p.now, kind);
      }
    }
  }

  lemma FirstIsKept(b: Backup, p: Policy)
    ensures Kept([], b, p)
  {
  }

  /** Fewer backups listed earlier, and no smaller counts, never cost a backup its place. */
  lemma FewerEarlierKeeps(earlier: seq<Backup>, fewer: seq<Backup>, b: Backup, p: Policy, q: Policy)
    requires forall e :: e in fewer ==> e in earlier
    requires forall kind :: CountKind(fewer, p.now, kind) <= CountKind(earlier, p.now, kind)
    requires fewer == [] <==> earlier == []
    requires NoSmaller(p, q) && Kept(earlier, b, p)
    ensures Kept(fewer, b, q)
  {
    if b.kind.Scheduled? && Dated(b, p.now) {
      BucketsGrow(p.calendar.day, p.settings.daily, q.settings.daily);
      BucketsGrow(p.calendar.week, p.settings.weekly, q.settings.weekly);
      BucketsGrow(p.calendar.month, p.settings.monthly, q.settings.monthly);
      assert ScheduledReasons(earlier, b, p) <= ScheduledReasons(fewer, b, q);
    }
  }

  /** The same moment and calendar, and every count at least as large. */
  ghost predicate NoSmaller(p: Policy, q: Policy) {
    && p.calendar == q.calendar && p.now == q.now
    && p.settings.daily <= q.settings.daily && p.settings.weekly <= q.settings.weekly
    && p.settings.monthly <= q.settings.monthly
    && p.settings.preUpgrade <= q.settings.preUpgrade && p.settings.preRestore <= q.settings.preRestore
  }

  lemma BucketsGrow(key: nat -> string, fewer: int, more: int)
    requires fewer <= more
    ensures Buckets(key, fewer) <= Buckets(key, more)
  {
  }

  /** Applying retention again at the same moment expires nothing. */
  lemma {:induction false} RetentionIsIdempotent(s: seq<Backup>, p: Policy)
    ensures KeptList(KeptList(s, p), p) == KeptList(s, p) && ExpiredList(KeptList(s, p), p) == []
  {
    hide Kept;
    if s == [] {
    } else {
      var n := |s| - 1;
      var k := KeptList(s[..n], p);
      RetentionIsIdempotent(s[..n], p);
      KeptAreListed(s[..n], p);
      if Kept(s[..n], s[n], p) {
        FewerEarlierKeeps(s[..n], k, s[n], p, p);
        KeptMore(k, s[n], p);
      } else {
        assert k + [] == k;
      }
    }
  }

  /** Raising any count never expires a backup that was kept. */
  lemma {:induction false} MoreCountsKeepMore(s: seq<Backup>, p: Policy, q: Policy)
    requires NoSmaller(p, q)
    ensures forall b :: b in KeptList(s, p) ==> b in KeptList(s, q)
    ensures forall id :: id in ExpiredList(s, q) ==> id in ExpiredList(s, p)
  {
    hide Kept;
    if s == [] {
    } else {
      var n := |s| - 1;
      MoreCountsKeepMore(s[..n], p, q);
      if Kept(s[..n], s[n], p) { FewerEarlierKeeps(s[..n], s[..n], s[n], p, q); }
    }
  }

  lemma KeptMore(s: seq<Backup>, b: Backup, p: Policy)
    ensures KeptList(s + [b], p) == KeptList(s, p) + if Kept(s, b, p) then [b] else []
    ensures ExpiredList(s + [b], p) == ExpiredList(s, p) + if Kept(s, b, p) then [] else [b.id]
  {
    assert (s + [b])[..|s|] == s;
  }

  /** Every listed backup is kept or expired, and with distinct identifiers never both. */
  lemma {:induction false} KeptOrExpired(s: seq<Backup>, p: Policy, k: nat)
    requires k < |s| && DistinctIDs(s)
    ensures s[k] in KeptList(s, p) <==> Kept(s[..k], s[k], p)
    ensures s[k].id in ExpiredList(s, p) <==> !Kept(s[..k], s[k], p)
  {
    hide Kept;
    var n := |s| - 1;
    KeptAreListed(s[..n], p);
    ExpiredAreListed(s[..n], p);
    forall b | b in s[..n] ensures b.id != s[n].id { var i :| 0 <= i < n && s[..n][i] == b; assert s[i] == b; }
    if k < n {
      KeptOrExpired(s[..n], p, k);
      assert s[..n][..k] == s[..k] && s[..n][k] == s[k];
    }
  }

  predicate DistinctIDs(s: seq<Backup>) { forall i, j :: 0 <= i < j < |s| ==> s[i].id != s[j].id }

  lemma {:induction false} ExpiredAreListed(s: seq<Backup>, p: Policy)
    ensures forall id :: id in ExpiredList(s, p) ==> exists b :: b in s && b.id == id
  {
    hide Kept;
    if s == [] {
    } else {
      var n := |s| - 1;
      ExpiredAreListed(s[..n], p);
      assert s == s[..n] + [s[n]];
      forall id | id in ExpiredList(s, p) ensures exists b :: b in s && b.id == id {
        if id !in ExpiredList(s[..n], p) { assert s[n] in s; }
      }
    }
  }

  // ---- what is kept, by position in the listing

  /** Earlier positions of backups of one kind that are not from the future. */
  function EarlierOf(s: seq<Backup>, k: nat, now: int, kind: Kind): set<int>
    requires k <= |s|
  {
    set j | 0 <= j < k && s[j].created.Some? && s[j].created.value <= now && s[j].kind == kind
  }

  /** The bucket is one of the recent ones, and no earlier scheduled backup is in it. */
  ghost predicate Opens(s: seq<Backup>, k: nat, now: int, key: Backup -> string, bucket: nat -> string, count: int)
    requires k < |s|
  {
    && (exists back: nat :: back < count && bucket(back) == key(s[k]))
    && forall j :: j in EarlierOf(s, k, now, Scheduled) ==> key(s[j]) != key(s[k])
  }

  lemma {:induction false} CountIsEarlier(s: seq<Backup>, k: nat, now: int, kind: Kind)
    requires k <= |s|
    ensures CountKind(s[..k], now, kind) == |EarlierOf(s, k, now, kind)|
  {
    if k == 0 {
    } else {
      CountIsEarlier(s, k - 1, now, kind);
      EarlierMore(s, k - 1, now, kind);
      CountMore(s[..k - 1], s[k - 1], now, kind);
      hide EarlierOf, CountKind;
      assert s[..k] == s[..k - 1] + [s[k - 1]];
    }
  }

  lemma EarlierMore(s: seq<Backup>, k: nat, now: int, kind: Kind)
    requires k < |s|
    ensures |EarlierOf(s, k + 1, now, kind)| ==
      |EarlierOf(s, k, now, kind)| + if DatedAs(s[k], now, kind) then 1 else 0
  {
    var before, after := EarlierOf(s, k, now, kind), EarlierOf(s, k + 1, now, kind);
    var added := if DatedAs(s[k], now, kind) then {k} else {};
    assert forall j :: j in after <==> j in before || j in added;
    hide EarlierOf, DatedAs;
    assert after == before + added;
  }

  lemma FillsIsOpens(s: seq<Backup>, k: nat, now: int, key: Backup -> string, bucket: nat -> string, count: int)
    requires k < |s|
    ensures Fills(s[..k], now, key, s[k], bucket, count) <==> Opens(s, k, now, key, bucket, count)
  {
    assert forall j :: 0 <= j < k ==> s[..k][j] == s[j];
    if Opens(s, k, now, key, bucket, count) {
      forall e | e in s[..k] && DatedAs(e, now, Scheduled) ensures key(e) != key(s[k]) {
        var j :| 0 <= j < k && s[..k][j] == e;
        assert j in EarlierOf(s, k, now, Scheduled);
      }
    }
    if Fills(s[..k], now, key, s[k], bucket, count) {
      forall j | j in EarlierOf(s, k, now, Scheduled) ensures key(s[j]) != key(s[k]) {
        assert s[j] in s[..k];
      }
    }
  }

  /** Why the backup at a position is kept, other than by its bucket: a time in the future, fewer of
      its kind before it than the count, a kind of its own, or else that it is first in the listing. */
  lemma ReasonsAre(s: seq<Backup>, p: Policy, k: nat)
    requires k < |s|
    ensures var b, why := s[k], KeptFor(s[..k], s[k], p);
      var past := b.created.Some? && b.created.value <= p.now;
      && (ClockSkew in why <==> b.created.Some? && b.created.value > p.now)
      && (Manual in why <==> past && b.kind.OtherKind?)
      && (BeforeUpgrade in why <==>
            past && b.kind.PreUpgrade? && |EarlierOf(s, k, p.now, PreUpgrade)| < p.settings.preUpgrade)
      && (BeforeRestore in why <==>
            past && b.kind.PreRestore? && |EarlierOf(s, k, p.now, PreRestore)| < p.settings.preRestore)
      && (LastGood in why <==> k == 0 && why == {LastGood})
  {
    CountIsEarlier(s, k, p.now, PreUpgrade);
    CountIsEarlier(s, k, p.now, PreRestore);
    AfterReasonsAre(s[..k], s[k], p);
    hide CountKind, EarlierOf, ReasonsAfter;
    LastResort(s[..k], s[k], p);
    hide KeptFor;
  }

  lemma LastResort(earlier: seq<Backup>, b: Backup, p: Policy)
    requires LastGood !in ReasonsAfter(earlier, b, p)
    ensures var why, after := KeptFor(earlier, b, p), ReasonsAfter(earlier, b, p);
      && (LastGood in why <==> earlier == [] && why == {LastGood})
      && (forall r :: r in why && r != LastGood <==> r in after)
  {
    hide ReasonsAfter;
  }

  lemma AfterReasonsAre(earlier: seq<Backup>, b: Backup, p: Policy)
    ensures var why := ReasonsAfter(earlier, b, p);
      var past := b.created.Some? && b.created.value <= p.now;
      && (ClockSkew in why <==> b.created.Some? && b.created.value > p.now)
      && (Manual in why <==> past && b.kind.OtherKind?)
      && (BeforeUpgrade in why <==>
            past && b.kind.PreUpgrade? && CountKind(earlier, p.now, PreUpgrade) < p.settings.preUpgrade)
      && (BeforeRestore in why <==>
            past && b.kind.PreRestore? && CountKind(earlier, p.now, PreRestore) < p.settings.preRestore)
      && LastGood !in why
  {
    ScheduledReasonsAre(earlier, b, p);
    hide CountKind, ScheduledReasons;
  }

  /** A backup is kept for a day, a week or a month exactly when it is a scheduled one with a past
      time that opens that bucket. */
  lemma BucketReasonsAre(s: seq<Backup>, p: Policy, k: nat, x: string)
    requires k < |s|
    ensures var b, why := s[k], KeptFor(s[..k], s[k], p);
      var due := b.created.Some? && b.created.value <= p.now && b.kind.Scheduled?;
      && (Daily(x) in why <==> due && x == b.day && Opens(s, k, p.now, DayOf, p.calendar.day, p.settings.daily))
      && (Weekly(x) in why <==> due && x == b.week && Opens(s, k, p.now, WeekOf, p.calendar.week, p.settings.weekly))
      && (Monthly(x) in why <==>
            due && x == b.month && Opens(s, k, p.now, MonthOf, p.calendar.month, p.settings.monthly))
  {
    FillsIsOpens(s, k, p.now, DayOf, p.calendar.day, p.settings.daily);
    FillsIsOpens(s, k, p.now, WeekOf, p.calendar.week, p.settings.weekly);
    FillsIsOpens(s, k, p.now, MonthOf, p.calendar.month, p.settings.monthly);
    ScheduledReasonsAre(s[..k], s[k], p);
    hide Fills, Opens, CountKind, ScheduledReasons;
  }

  lemma ScheduledReasonsAre(earlier: seq<Backup>, b: Backup, p: Policy)
    ensures var why := ScheduledReasons(earlier, b, p);
      && (forall x :: Daily(x) in why <==>
            x == b.day && Fills(earlier, p.now, DayOf, b, p.calendar.day, p.settings.daily))
      && (forall x :: Weekly(x) in why <==>
            x == b.week && Fills(earlier, p.now, WeekOf, b, p.calendar.week, p.settings.weekly))
      && (forall x :: Monthly(x) in why <==>
            x == b.month && Fills(earlier, p.now, MonthOf, b, p.calendar.month, p.settings.monthly))
      && (forall r :: r in why ==> r.Daily? || r.Weekly? || r.Monthly?)
  {
    hide Fills;
  }

  /** A scheduled backup, not from the future, opens a recent day, week or month. */
  ghost predicate OpensAny(s: seq<Backup>, p: Policy, k: nat)
    requires k < |s|
  {
    || Opens(s, k, p.now, DayOf, p.calendar.day, p.settings.daily)
    || Opens(s, k, p.now, WeekOf, p.calendar.week, p.settings.weekly)
    || Opens(s, k, p.now, MonthOf, p.calendar.month, p.settings.monthly)
  }

  /** What expires, exactly: never the first of the listing, never one from the future and never a
      manual one; a scheduled one unless it opens a bucket, a one before an upgrade or a restore
      unless it is among the first of its kind, and any without a readable time. */
  lemma ExpiredExactly(s: seq<Backup>, p: Policy, k: nat)
    requires k < |s| && DistinctIDs(s)
    ensures s[k] in KeptList(s, p) <==> s[k].id !in ExpiredList(s, p)
    ensures k == 0 ==> s[k].id !in ExpiredList(s, p)
    ensures k > 0 && s[k].created.None? ==> s[k].id in ExpiredList(s, p)
    ensures s[k].created.Some? && s[k].created.value > p.now ==> s[k].id !in ExpiredList(s, p)
    ensures k > 0 && s[k].created.Some? && s[k].created.value <= p.now ==>
      (s[k].id in ExpiredList(s, p) <==>
         match s[k].kind
         case OtherKind(_) => false
         case Scheduled => !OpensAny(s, p, k)
         case PreUpgrade => |EarlierOf(s, k, p.now, PreUpgrade)| >= p.settings.preUpgrade
         case PreRestore => |EarlierOf(s, k, p.now, PreRestore)| >= p.settings.preRestore)
  {
    KeptOrExpired(s, p, k);
    CountIsEarlier(s, k, p.now, PreUpgrade);
    CountIsEarlier(s, k, p.now, PreRestore);
    FillsIsOpens(s, k, p.now, DayOf, p.calendar.day, p.settings.daily);
    FillsIsOpens(s, k, p.now, WeekOf, p.calendar.week, p.settings.weekly);
    FillsIsOpens(s, k, p.now, MonthOf, p.calendar.month, p.settings.monthly);
    hide Fills, Opens, CountKind, EarlierOf, KeptList, ExpiredList, DistinctIDs;
  }

  // ---- the selection

  /** What the pass remembers: the buckets filled and the backups counted so far. */
  datatype Pass = Pass(days: set<string>, weeks: set<string>, months: set<string>, upgrades: int, restores: int)

  ghost predicate Filled(selected: set<string>, active: set<string>, s: seq<Backup>, now: int, key: Backup -> string) {
    && selected <= active
    && forall k :: k in active ==> (k in selected <==> exists e :: e in s && DatedAs(e, now, Scheduled) && key(e) == k)
  }

  function Capped(n: nat, limit: int): int { if limit <= 0 then 0 else if n < limit then n else limit }

  ghost predicate Remembers(m: Pass, s: seq<Backup>, p: Policy) {
    && Filled(m.days, Buckets(p.calendar.day, p.settings.daily), s, p.now, DayOf)
    && Filled(m.weeks, Buckets(p.calendar.week, p.settings.weekly), s, p.now, WeekOf)
    && Filled(m.months, Buckets(p.calendar.month, p.settings.monthly), s, p.now, MonthOf)
    && m.upgrades == Capped(CountKind(s, p.now, PreUpgrade), p.settings.preUpgrade)
    && m.restores == Capped(CountKind(s, p.now, PreRestore), p.settings.preRestore)
  }

  lemma FilledMore(selected: set<string>, active: set<string>, s: seq<Backup>, now: int, key: Backup -> string,
                   b: Backup)
    requires Filled(selected, active, s, now, key)
    ensures DatedAs(b, now, Scheduled) ==>
      Filled(if key(b) in active then selected + {key(b)} else selected, active, s + [b], now, key)
    ensures !DatedAs(b, now, Scheduled) ==> Filled(selected, active, s + [b], now, key)
    ensures key(b) in active ==> (key(b) in selected <==> !FirstIn(s, now, key, b))
  {
    hide DatedAs;
    forall k | k in active
      ensures (exists e :: e in s + [b] && DatedAs(e, now, Scheduled) && key(e) == k) <==>
              (exists e :: e in s && DatedAs(e, now, Scheduled) && key(e) == k)
              || (DatedAs(b, now, Scheduled) && key(b) == k)
    {
      if DatedAs(b, now, Scheduled) && key(b) == k { assert b in s + [b]; }
      if exists e :: e in s && DatedAs(e, now, Scheduled) && key(e) == k {
        var e :| e in s && DatedAs(e, now, Scheduled) && key(e) == k;
        assert e in s + [b];
      }
    }
  }

  lemma CountMore(s: seq<Backup>, b: Backup, now: int, kind: Kind)
    ensures CountKind(s + [b], now, kind) == CountKind(s, now, kind) + if DatedAs(b, now, kind) then 1 else 0
  {
    assert (s + [b])[..|s|] == s;
  }

  /** One backup of the pass: its reasons, and what is remembered after it. */
  method Consider(m: Pass, b: Backup, p: Policy, daily: set<string>, weekly: set<string>, monthly: set<string>,
                  ghost earlier: seq<Backup>)
    returns (reasons: set<Reason>, next: Pass)
    requires Remembers(m, earlier, p)
    requires daily == Buckets(p.calendar.day, p.settings.daily)
    requires weekly == Buckets(p.calendar.week, p.settings.weekly)
    requires monthly == Buckets(p.calendar.month, p.settings.monthly)
    ensures reasons == ReasonsAfter(earlier, b, p) && Remembers(next, earlier + [b], p)
  {
    hide Buckets, Filled, FirstIn;
    FilledMore(m.days, daily, earlier, p.now, DayOf, b);
    FilledMore(m.weeks, weekly, earlier, p.now, WeekOf, b);
    FilledMore(m.months, monthly, earlier, p.now, MonthOf, b);
    CountMore(earlier, b, p.now, PreUpgrade);
    CountMore(earlier, b, p.now, PreRestore);
    hide CountKind;
    reasons, next := {}, m;
    if b.created.None? { return; }
    if b.created.value > p.now { return {ClockSkew}, m; }
    match b.kind {
      case Scheduled =>
        if b.day in daily && b.day !in m.days {
          reasons, next := reasons + {Daily(b.day)}, next.(days := m.days + {b.day});
        }
        if b.week in weekly && b.week !in m.weeks {
          reasons, next := reasons + {Weekly(b.week)}, next.(weeks := m.weeks + {b.week});
        }
        if b.month in monthly && b.month !in m.months {
          reasons, next := reasons + {Monthly(b.month)}, next.(months := m.months + {b.month});
        }
        assert b.day in m.days ==> m.days + {b.day} == m.days;
        assert b.week in m.weeks ==> m.weeks + {b.week} == m.weeks;
        assert b.month in m.months ==> m.months + {b.month} == m.months;
      case PreUpgrade =>
        if m.upgrades < p.settings.preUpgrade { reasons, next := {BeforeUpgrade}, m.(upgrades := m.upgrades + 1); }
      case PreRestore =>
        if m.restores < p.settings.preRestore { reasons, next := {BeforeRestore}, m.(restores := m.restores + 1); }
      case OtherKind(_) =>
        reasons := {Manual};
    }
  }

  /** The reasons of every backup, as the specification gives them. */
  ghost predicate Explains(reasons: seq<set<Reason>>, s: seq<Backup>, p: Policy) {
    |reasons| == |s| && forall k :: 0 <= k < |s| ==> reasons[k] == KeptFor(s[..k], s[k], p)
  }

  method SelectReasons(s: seq<Backup>, p: Policy) returns (reasons: seq<set<Reason>>)
    ensures Explains(reasons, s, p)
  {
    hide ReasonsAfter, Remembers;
    reasons := [];
    if |s| == 0 { return; }
    var daily := FillBuckets(p.calendar.day, p.settings.daily);
    var weekly := FillBuckets(p.calendar.week, p.settings.weekly);
    var monthly := FillBuckets(p.calendar.month, p.settings.monthly);
    var m := Pass({}, {}, {}, 0, 0);
    NothingRemembered(p);
    assert s[..0] == [];
    for k := 0 to |s|
      invariant |reasons| == k && Remembers(m, s[..k], p)
      invariant forall j :: 0 <= j < k ==> reasons[j] == ReasonsAfter(s[..j], s[j], p)
    {
      var why, next := Consider(m, s[k], p, daily, weekly, monthly, s[..k]);
      assert s[..k + 1] == s[..k] + [s[k]];
      reasons, m := reasons + [why], next;
    }
    if reasons[0] == {} { reasons := reasons[0 := {LastGood}]; }
  }

  lemma NothingRemembered(p: Policy)
    ensures Remembers(Pass({}, {}, {}, 0, 0), [], p)
  {
  }

  /** The removal of the n-th backup failed, after those expired before it were removed. */
  ghost predicate StoppedAt(s: seq<Backup>, p: Policy, n: nat, expired: seq<string>, deleted: seq<string>,
                            removable: string -> bool)
    requires n < |s|
  {
    && !Kept(s[..n], s[n], p) && !removable(s[n].id)
    && deleted == ExpiredList(s[..n], p) && expired == deleted + [s[n].id]
  }

  /** The whole pass: expires exactly what nothing keeps, in listing order, and deletes nothing
      else; a deletion that fails ends it after the ones before. */
  method BackupRetention(s: seq<Backup>, p: Policy, deleteExpired: bool, removable: string -> bool)
    returns (reasons: seq<set<Reason>>, expired: seq<string>, deleted: seq<string>, ok: bool)
    ensures Explains(reasons, s, p)
    ensures ok ==> expired == ExpiredList(s, p) && deleted == if deleteExpired then expired else []
    ensures !ok ==> deleteExpired && exists n :: 0 <= n < |s| && StoppedAt(s, p, n, expired, deleted, removable)
    ensures ok <==> !deleteExpired || forall id :: id in ExpiredList(s, p) ==> removable(id)
  {
    hide KeptFor;
    reasons := SelectReasons(s, p);
    expired, deleted := [], [];
    for k := 0 to |s|
      invariant expired == ExpiredList(s[..k], p) && deleted == if deleteExpired then expired else []
      invariant deleteExpired ==> forall id :: id in expired ==> removable(id)
    {
      assert s[..k + 1][..k] == s[..k];
      if reasons[k] != {} { continue; }
      expired := expired + [s[k].id];
      if !deleteExpired { continue; }
      if !removable(s[k].id) {
        ExpiredPrefix(s, p, k + 1);
        assert s[k].id in ExpiredList(s[..k + 1], p);
        assert StoppedAt(s, p, k, expired, deleted, removable);
        return reasons, expired, deleted, false;
      }
      deleted := deleted + [s[k].id];
    }
    assert s[..|s|] == s;
    ok := true;
  }

  lemma {:induction false} ExpiredPrefix(s: seq<Backup>, p: Policy, n: nat)
    requires n <= |s|
    ensures forall id :: id in ExpiredList(s[..n], p) ==> id in ExpiredList(s, p)
    decreases |s| - n
  {
    hide Kept;
    if n < |s| {
      ExpiredPrefix(s, p, n + 1);
      assert s[..n + 1][..n] == s[..n];
    } else {
      assert s[..n] == s;
    }
  }
}
