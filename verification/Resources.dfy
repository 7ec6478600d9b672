/** Capacity reservations: what a volume has free, less what admitted operations still hold. */
module Resources {
  import opened Wrappers
  import opened Values

  const MAX_UINT64 := 0xFFFF_FFFF_FFFF_FFFF

  type uint64 = x: int | 0 <= x <= MAX_UINT64

  /** Machine addition, which wraps. */
  function Wrap(x: nat): uint64 { x % (MAX_UINT64 + 1) }

  datatype Stats = Stats(volumeID: string, totalBytes: uint64, freeBytes: uint64, freeInodes: uint64,
                         supportsInodes: bool)

  datatype Request = Request(
    operation: string,
    path: string,
    requiredBytes: uint64,
    byteHeadroom: uint64,
    minFreePercent: uint64,
    requiredInodes: uint64,
    inodeHeadroom: uint64)

  datatype Reserved = Reserved(bytes: uint64, inodes: uint64)

  const NOTHING := Reserved(0, 0)

  datatype ResourceError = Unavailable | Critical

  function AddOverflows(left: uint64, right: uint64): bool { left > MAX_UINT64 - right }

  function PercentageCeiling(total: uint64, percent: uint64): (r: uint64)
    requires percent <= 100
  {
    var whole := total / 100 * percent;
    var remainder := total % 100 * percent;
    CeilingFits(total / 100, total % 100, percent);
    whole + (remainder + 99) / 100
  }

  lemma CeilingFits(hundreds: nat, rest: nat, percent: nat)
    requires rest < 100 && percent <= 100
    ensures 0 <= hundreds * percent <= 100 * hundreds
    ensures 0 <= rest * percent <= 100 * rest
    ensures 0 <= hundreds * percent + (rest * percent + 99) / 100 <= hundreds * 100 + rest
  {
    Products(hundreds, percent);
    Products(rest, percent);
  }

  lemma Products(x: nat, percent: nat)
    requires percent <= 100
    ensures 0 <= x * percent <= 100 * x
  {
    assert x * percent + x * (100 - percent) == 100 * x;
  }

  /** The ceiling is exact and within the total: the 64-bit arithmetic never wraps. */
  lemma PercentageCeilingIsExact(total: uint64, percent: uint64)
    requires percent <= 100
    ensures 100 * (PercentageCeiling(total, percent) - 1) < total * percent <= 100 * PercentageCeiling(total, percent)
    ensures PercentageCeiling(total, percent) <= total
  {
    var h, rest := total / 100, total % 100;
    CeilingFits(h, rest, percent);
    assert total * percent == 100 * (h * percent) + rest * percent by {
      assert total == 100 * h + rest;
      Distribute(h, rest, percent);
    }
  }

  lemma Distribute(h: int, rest: int, percent: int)
    ensures (100 * h + rest) * percent == 100 * (h * percent) + rest * percent
  {
  }

  predicate ValidRequest(q: Request) {
    && !Blank(q.operation) && !Blank(q.path) && q.minFreePercent <= 100
    && !AddOverflows(q.requiredBytes, q.byteHeadroom) && !AddOverflows(q.requiredInodes, q.inodeHeadroom)
  }

  /** The larger of the fixed and the relative headroom. */
  function Headroom(q: Request, stats: Stats): uint64
    requires q.minFreePercent <= 100
  {
    if q.minFreePercent > 0 && PercentageCeiling(stats.totalBytes, q.minFreePercent) > q.byteHeadroom
    then PercentageCeiling(stats.totalBytes, q.minFreePercent)
    else q.byteHeadroom
  }

  /** What a volume has reserved after an admission, or why there is none. */
  function Decide(reserved: Reserved, q: Request, stats: Stats): Result<Reserved, ResourceError> {
    if !ValidRequest(q) then Failure(Critical)
    else if stats.volumeID == "" then Failure(Unavailable)
    else if q.minFreePercent > 0 && stats.totalBytes == 0 then Failure(Unavailable)
    else if reserved.bytes > stats.freeBytes then Failure(Critical)
    else if q.requiredBytes > stats.freeBytes - reserved.bytes then Failure(Critical)
    else if Headroom(q, stats) > stats.freeBytes - reserved.bytes - q.requiredBytes then Failure(Critical)
    else if stats.supportsInodes && reserved.inodes > stats.freeInodes then Failure(Critical)
    else if stats.supportsInodes && q.requiredInodes + q.inodeHeadroom > stats.freeInodes - reserved.inodes then
      Failure(Critical)
    else Success(Reserved(Wrap(reserved.bytes + q.requiredBytes), Wrap(reserved.inodes + q.requiredInodes)))
  }

  /** Over unbounded integers: admission succeeds exactly when everything reserved, the request and
      the full headroom fit in what is free; the bytes never wrap. */
  lemma AdmissionIsExact(reserved: Reserved, q: Request, stats: Stats)
    ensures Decide(reserved, q, stats).Success? <==>
      && ValidRequest(q) && stats.volumeID != "" && (q.minFreePercent > 0 ==> stats.totalBytes > 0)
      && reserved.bytes + q.requiredBytes + q.byteHeadroom <= stats.freeBytes
      && 100 * (stats.freeBytes - reserved.bytes - q.requiredBytes) >= stats.totalBytes * q.minFreePercent
      && (stats.supportsInodes ==> reserved.inodes + q.requiredInodes + q.inodeHeadroom <= stats.freeInodes)
    ensures Decide(reserved, q, stats).Success? ==>
      Decide(reserved, q, stats).value.bytes == reserved.bytes + q.requiredBytes
  {
    if q.minFreePercent <= 100 {
      PercentageCeilingIsExact(stats.totalBytes, q.minFreePercent);
      hide PercentageCeiling;
      var left := stats.freeBytes - reserved.bytes - q.requiredBytes;
      assert PercentageCeiling(stats.totalBytes, q.minFreePercent) <= left
        <==> stats.totalBytes * q.minFreePercent <= 100 * left;
      if q.minFreePercent == 0 { assert stats.totalBytes * q.minFreePercent == 0; }
    }
  }

  // ---- what is held

  datatype Entry = Entry(volumeID: string, bytes: nat, inodes: nat, released: bool)

  function HeldBytes(ledger: seq<Entry>, volume: string): nat {
    if ledger == [] then 0
    else
      var e := ledger[|ledger| - 1];
      HeldBytes(ledger[..|ledger| - 1], volume) + if e.volumeID == volume && !e.released then e.bytes else 0
  }

  function HeldInodes(ledger: seq<Entry>, volume: string): nat {
    if ledger == [] then 0
    else
      var e := ledger[|ledger| - 1];
      HeldInodes(ledger[..|ledger| - 1], volume) + if e.volumeID == volume && !e.released then e.inodes else 0
  }

  lemma HeldMore(ledger: seq<Entry>, e: Entry, volume: string)
    ensures HeldBytes(ledger + [e], volume) == HeldBytes(ledger, volume) +
      if e.volumeID == volume && !e.released then e.bytes else 0
    ensures HeldInodes(ledger + [e], volume) == HeldInodes(ledger, volume) +
      if e.volumeID == volume && !e.released then e.inodes else 0
  {
    assert (ledger + [e])[..|ledger|] == ledger;
  }

  lemma {:induction false} HeldReleased(ledger: seq<Entry>, i: nat, volume: string)
    requires i < |ledger| && !ledger[i].released
    ensures var next := ledger[i := ledger[i].(released := true)];
      && HeldBytes(next, volume) ==
         HeldBytes(ledger, volume) - (if ledger[i].volumeID == volume then ledger[i].bytes else 0)
      && HeldInodes(next, volume) ==
         HeldInodes(ledger, volume) - (if ledger[i].volumeID == volume then ledger[i].inodes else 0)
  {
    var n := |ledger| - 1;
    var next := ledger[i := ledger[i].(released := true)];
    if i < n {
      HeldReleased(ledger[..n], i, volume);
      assert next[..n] == ledger[..n][i := ledger[i].(released := true)];
    } else {
      assert next[..n] == ledger[..n];
    }
  }

  function Lookup(byVol: map<string, Reserved>,
                  volume: string): Reserved { if volume in byVol then byVol[volume] else NOTHING }

  /** What is left of a volume's count, which never goes below nothing. */
  function Without(current: Reserved, bytes: uint64, inodes: uint64): Reserved {
    Reserved(if current.bytes >= bytes then current.bytes - bytes else 0,
             if current.inodes >= inodes then current.inodes - inodes else 0)
  }

  /** One volume's count goes down and no other changes. */
  ghost predicate TakenOff(before: map<string, Reserved>, after: map<string, Reserved>, volume: string, bytes: uint64,
                           inodes: uint64) {
    && Lookup(after, volume) == Without(Lookup(before, volume), bytes, inodes)
    && forall v :: v != volume ==> Lookup(after, v) == Lookup(before, v)
  }

  ghost predicate BytesAre(byVol: map<string, Reserved>, ledger: seq<Entry>) {
    forall v :: Lookup(byVol, v).bytes == HeldBytes(ledger, v)
  }

  /** Every volume's inode count is what its unreleased reservations hold. */
  ghost predicate InodesAre(byVol: map<string, Reserved>, ledger: seq<Entry>) {
    forall v :: Lookup(byVol, v).inodes == HeldInodes(ledger, v)
  }

  /** One admission on the books: the bytes stay exact, and exact inode counts stay so exactly when
      the sum fits. */
  lemma AdmissionOnBooks(byVol: map<string, Reserved>, ledger: seq<Entry>, q: Request, stats: Stats)
    requires BytesAre(byVol, ledger) && Decide(Lookup(byVol, stats.volumeID), q, stats).Success?
    ensures var next := byVol[stats.volumeID := Decide(Lookup(byVol, stats.volumeID), q, stats).value];
            var e := Entry(stats.volumeID, q.requiredBytes, q.requiredInodes, false);
      && BytesAre(next, ledger + [e])
      && (InodesAre(byVol, ledger) ==>
            (InodesAre(next, ledger + [e]) <==> Lookup(byVol, stats.volumeID).inodes + q.requiredInodes <= MAX_UINT64))
  {
    var decision := Decide(Lookup(byVol, stats.volumeID), q, stats).value;
    var next := byVol[stats.volumeID := decision];
    var e := Entry(stats.volumeID, q.requiredBytes, q.requiredInodes, false);
    AdmissionIsExact(Lookup(byVol, stats.volumeID), q, stats);
    assert decision.inodes == Wrap(Lookup(byVol, stats.volumeID).inodes + q.requiredInodes);
    hide Decide, HeldBytes, HeldInodes, ValidRequest;
    forall v
      ensures HeldBytes(ledger + [e], v) == HeldBytes(ledger, v) + if v == stats.volumeID then q.requiredBytes else 0
      ensures HeldInodes(ledger + [e], v) == HeldInodes(ledger, v) + if v == stats.volumeID then q.requiredInodes else 0
    {
      HeldMore(ledger, e, v);
    }
    assert Lookup(next, stats.volumeID) == decision;
  }

  /** A granted reservation; releasing it takes effect once. */
  class Reservation {
    const volumeID: string
    const bytes: uint64
    const inodes: uint64
    var released: bool
    ghost const number: nat

    constructor (volumeID: string, bytes: uint64, inodes: uint64, ghost number: nat)
      ensures this.volumeID == volumeID && this.bytes == bytes && this.inodes == inodes && !released
      ensures this.number == number
    {
      this.volumeID, this.bytes, this.inodes, this.released, this.number := volumeID, bytes, inodes, false, number;
    }
  }

  class ResourceGate {
    var byVol: map<string, Reserved>
    /** Every reservation granted, and what it still holds. */
    ghost var granted: seq<Reservation>
    ghost var ledger: seq<Entry>
    /** An admission has made an inode count wrap. */
    ghost var wrapped: bool
    /** After some step an inode count was not what was held. */
    ghost var miscounted: bool

    ghost predicate Valid()
      reads this, granted
    {
      && |granted| == |ledger|
      && (forall i :: 0 <= i < |granted| ==>
            granted[i].number == i && ledger[i] == Entry(granted[i].volumeID, granted[i].bytes, granted[i].inodes,
                                                         granted[i].released))
      && BytesAre(byVol, ledger)
      && (!wrapped ==> InodesAre(byVol, ledger))
      && (miscounted <==> wrapped)
    }

    ghost predicate Granted(r: Reservation)
      reads this
    {
      r.number < |granted| && granted[r.number] == r
    }

    constructor ()
      ensures Valid() && granted == [] && ledger == [] && byVol == map[] && !wrapped
    {
      byVol, granted, ledger, wrapped, miscounted := map[], [], [], false, false;
    }

    /** Grants exactly what the decision over the volume's held bytes and inodes allows. */
    method Admit(q: Request, probed: Option<Stats>) returns (r: Result<Reservation, ResourceError>)
      requires Valid()
      modifies this
      ensures Valid()
      ensures r.Success? <==>
        probed.Some? && Decide(Lookup(old(byVol), probed.value.volumeID), q, probed.value).Success?
      ensures r.Failure? ==>
        byVol == old(byVol) && ledger == old(ledger) && granted == old(granted) && wrapped == old(wrapped)
      ensures r.Failure? && ValidRequest(q) && probed.Some? ==>
        Failure(r.error) == Decide(Lookup(old(byVol), probed.value.volumeID), q, probed.value)
      ensures r.Failure? && ValidRequest(q) && probed.None? ==> r.error == Unavailable
      ensures miscounted == (old(miscounted) || !InodesAre(byVol, ledger))
      ensures r.Success? && !old(wrapped) ==>
        (InodesAre(byVol, ledger) <==> HeldInodes(old(ledger), probed.value.volumeID) + q.requiredInodes <= MAX_UINT64)
      ensures r.Success? ==>
        && byVol == old(byVol)[probed.value.volumeID :=
                                 Decide(Lookup(old(byVol), probed.value.volumeID), q, probed.value).value]
        && fresh(r.value) && granted == old(granted) + [r.value] && Granted(r.value) && !r.value.released
        && ledger == old(ledger) + [Entry(probed.value.volumeID, q.requiredBytes, q.requiredInodes, false)]
        && wrapped == (old(wrapped) || Lookup(old(byVol), probed.value.volumeID).inodes + q.requiredInodes > MAX_UINT64)
    {
      if !ValidRequest(q) { return Failure(Critical); }
      if probed.None? { return Failure(Unavailable); }
      var stats := probed.value;
      var reserved := Lookup(byVol, stats.volumeID);
      var decision := Decide(reserved, q, stats);
      if decision.Failure? { return Failure(decision.error); }
      AdmissionOnBooks(byVol, ledger, q, stats);
      hide Decide, ValidRequest, BytesAre, HeldBytes, HeldInodes;
      var reservation := new Reservation(stats.volumeID, q.requiredBytes, q.requiredInodes, |granted|);
      wrapped := wrapped || reserved.inodes + q.requiredInodes > MAX_UINT64;
      byVol := byVol[stats.volumeID := decision.value];
      granted := granted + [reservation];
      ledger := ledger + [Entry(stats.volumeID, q.requiredBytes, q.requiredInodes, false)];
      miscounted := miscounted || !InodesAre(byVol, ledger);
      return Success(reservation);
    }

    /** Gives back exactly what the reservation holds, the first time only. */
    method Release(r: Reservation)
      requires Valid() && Granted(r)
      modifies this`byVol, this`ledger, this`miscounted, r`released
      ensures Valid() && granted == old(granted) && r.released
      ensures ledger == old(ledger)[r.number := old(ledger)[r.number].(released := true)]
      ensures !old(r.released) ==> TakenOff(old(byVol), byVol, r.volumeID, r.bytes, r.inodes)
      ensures old(r.released) ==> byVol == old(byVol) && ledger == old(ledger)
      ensures miscounted == (old(miscounted) || !InodesAre(byVol, ledger))
    {
      if r.released { return; }
      var current := Lookup(byVol, r.volumeID);
      ghost var next := ledger[r.number := ledger[r.number].(released := true)];
      forall v
        ensures HeldBytes(next, v) == HeldBytes(ledger, v) - (if r.volumeID == v then r.bytes else 0)
        ensures HeldInodes(next, v) == HeldInodes(ledger, v) - (if r.volumeID == v then r.inodes else 0)
      {
        HeldReleased(ledger, r.number, v);
      }
      hide HeldBytes, HeldInodes;
      current := Without(current, r.bytes, r.inodes);
      if current == NOTHING { byVol := byVol - {r.volumeID}; } else { byVol := byVol[r.volumeID := current]; }
      r.released := true;
      ledger := next;
      miscounted := miscounted || !InodesAre(byVol, ledger);
      assert forall i :: 0 <= i < |granted| && i != r.number ==> granted[i] != r;
    }
  }

  // ---- inode counts that go wrong

  const HALF: uint64 := 0x8000_0000_0000_0000
  const UNLIMITED := Stats("volume", 0, 0, 0, false)

  function InodeRequest(inodes: uint64): Request { Request("stage", "/data", 0, 0, 0, inodes, 0) }

  lemma NothingStopsInodes(reserved: Reserved, inodes: uint64)
    requires reserved.bytes == 0
    ensures Decide(reserved, InodeRequest(inodes), UNLIMITED) == Success(Reserved(0, Wrap(reserved.inodes + inodes)))
  {
    assert !Blank("stage") by { assert "stage"[0] in "stage"; }
    assert !Blank("/data") by { assert "/data"[0] in "/data"; }
  }

  /** One admission of inodes on that volume: the count wraps, what is held does not. */
  method AdmitInodes(gate: ResourceGate, inodes: uint64) returns (r: Reservation)
    requires gate.Valid() && Lookup(gate.byVol, "volume").bytes == 0
    modifies gate
    ensures gate.Valid() && Lookup(gate.byVol, "volume").bytes == 0
    ensures Lookup(gate.byVol, "volume").inodes == Wrap(old(Lookup(gate.byVol, "volume").inodes) + inodes)
    ensures HeldInodes(gate.ledger, "volume") == old(HeldInodes(gate.ledger, "volume")) + inodes
    ensures fresh(r) && gate.granted == old(gate.granted) + [r] && gate.Granted(r)
    ensures gate.ledger == old(gate.ledger) + [Entry("volume", 0, inodes, false)]
    ensures gate.wrapped == (old(gate.wrapped) || old(Lookup(gate.byVol, "volume").inodes) + inodes > MAX_UINT64)
  {
    NothingStopsInodes(Lookup(gate.byVol, "volume"), inodes);
    HeldMore(gate.ledger, Entry("volume", 0, inodes, false), "volume");
    hide Decide, ValidRequest, HeldInodes, HeldBytes, BytesAre, InodesAre, Wrap;
    var admitted := gate.Admit(InodeRequest(inodes), Some(UNLIMITED));
    r := admitted.value;
  }

  lemma Wraps()
    ensures Wrap(0 + HALF) == HALF && Wrap(HALF + HALF) == 0 && Wrap(0 + 1) == 1
  {
  }

  /** On a volume without inode limits nothing stops a count from wrapping: two admissions of half
      the range leave none counted. */
  method TwoHalvesLeaveNone() returns (gate: ResourceGate, first: Reservation)
    ensures fresh(gate) && fresh(first) && gate.Valid() && gate.miscounted
    ensures gate.Granted(first) && !first.released && first.volumeID == "volume" && first.bytes == 0
    ensures first.inodes == HALF
    ensures Lookup(gate.byVol, "volume") == NOTHING && HeldInodes(gate.ledger, "volume") == 2 * HALF
  {
    gate := new ResourceGate();
    assert HeldInodes(gate.ledger, "volume") == 0;
    hide HeldInodes, HeldBytes, BytesAre, InodesAre, Wrap, Lookup;
    Wraps();
    NothingHeld();
    first := AdmitInodes(gate, HALF);
    var second := AdmitInodes(gate, HALF);
    assert gate.granted[0] == first && gate.ledger[0] == Entry("volume", 0, HALF, false);
  }

  /** Releasing the first of them then takes nothing off the count, so even an admission whose own
      sum fits leaves it wrong. */
  method CountStaysWrong() returns (gate: ResourceGate)
    ensures fresh(gate) && gate.Valid() && gate.miscounted
    ensures Lookup(gate.byVol, "volume").inodes == 1 && HeldInodes(gate.ledger, "volume") == HALF + 1
  {
    hide HeldInodes, HeldBytes, BytesAre, InodesAre, Wrap, Lookup;
    var first: Reservation;
    gate, first := TwoHalvesLeaveNone();
    Wraps();
    HeldReleased(gate.ledger, first.number, "volume");
    gate.Release(first);
    var third := AdmitInodes(gate, 1);
  }

  lemma NothingHeld()
    ensures Lookup(map[], "volume") == NOTHING
  {
  }

  // ---- all roots of a restore, or none

  lemma {:induction false} ReleasedHoldNothing(ledger: seq<Entry>, n: nat, volume: string)
    requires n <= |ledger| && forall i :: n <= i < |ledger| ==> ledger[i].released
    ensures HeldBytes(ledger, volume) == HeldBytes(ledger[..n], volume)
    ensures HeldInodes(ledger, volume) == HeldInodes(ledger[..n], volume)
  {
    if n < |ledger| {
      ReleasedHoldNothing(ledger[..|ledger| - 1], n, volume);
      assert ledger[..|ledger| - 1][..n] == ledger[..n];
    } else {
      assert ledger[..n] == ledger;
    }
  }

  /** The reservations are those granted from number n on. */
  ghost predicate GrantedFrom(gate: ResourceGate, n: nat, reservations: seq<Reservation>)
    reads gate
  {
    && |gate.granted| == n + |reservations|
    && forall k :: 0 <= k < |reservations| ==> gate.granted[n + k] == reservations[k]
  }

  method ReleaseReservations(gate: ResourceGate, reservations: seq<Reservation>, ghost n: nat)
    requires gate.Valid() && GrantedFrom(gate, n, reservations)
    modifies gate`byVol, gate`ledger, gate`miscounted, reservations
    ensures gate.Valid() && gate.granted == old(gate.granted) && gate.ledger[..n] == old(gate.ledger)[..n]
    ensures forall v :: Lookup(gate.byVol, v).bytes == HeldBytes(gate.ledger[..n], v)
    ensures !gate.wrapped ==> forall v :: Lookup(gate.byVol, v).inodes == HeldInodes(gate.ledger[..n], v)
    ensures forall k :: 0 <= k < |reservations| ==> reservations[k].released
  {
    for k := 0 to |reservations|
      invariant gate.Valid() && gate.granted == old(gate.granted) && gate.ledger[..n] == old(gate.ledger)[..n]
      invariant |gate.ledger| == n + |reservations|
      invariant forall i :: n <= i < n + k ==> gate.ledger[i].released
    {
      ghost var before := gate.ledger;
      var r := reservations[k];
      assert gate.granted[n + k] == r;
      gate.Release(r);
      assert gate.ledger == before[n + k := before[n + k].(released := true)];
      assert gate.ledger[..n] == before[..n];
    }
    forall v { ReleasedHoldNothing(gate.ledger, n, v); }
    forall k | 0 <= k < |reservations| ensures reservations[k].released {
      assert gate.granted[n + k] == reservations[k] && gate.ledger[n + k].released;
    }
  }

  /** What one root asks for, unless its sizes cannot be added up, and what its volume's probe says. */
  datatype RootRequest = RootRequest(request: Option<Request>, probed: Option<Stats>)

  /** Root after root, each decision being made on what the ones before it left. */
  predicate RestoreFits(byVol: map<string, Reserved>, roots: seq<RootRequest>)
    decreases |roots|
  {
    roots == [] ||
    (&& roots[0].request.Some? && roots[0].probed.Some?
     && var volume := roots[0].probed.value.volumeID;
        var decision := Decide(Lookup(byVol, volume), roots[0].request.value, roots[0].probed.value);
        decision.Success? && RestoreFits(byVol[volume := decision.value], roots[1..]))
  }

  ghost predicate Grants(root: RootRequest, r: Reservation)
    reads r
  {
    && root.request.Some? && !r.released
    && r.bytes == root.request.value.requiredBytes && r.inodes == root.request.value.requiredInodes
  }

  /** Reserves for every root of a restore, or leaves the gate answering as before. */
  method AdmitRestoreResources(gate: ResourceGate, roots: seq<RootRequest>) returns (r: Option<seq<Reservation>>)
    requires gate.Valid()
    modifies gate
    ensures gate.Valid()
    ensures r.Some? ==> |r.value| == |roots| && GrantedFrom(gate, |old(gate.granted)|, r.value)
    ensures r.Some? <==> RestoreFits(old(gate.byVol), roots)
    ensures r.Some? ==> forall k :: 0 <= k < |roots| ==> Grants(roots[k], r.value[k])
    ensures r.None? ==> forall v :: Lookup(gate.byVol, v).bytes == Lookup(old(gate.byVol), v).bytes
    ensures r.None? && !gate.wrapped ==> forall v :: Lookup(gate.byVol, v).inodes == Lookup(old(gate.byVol), v).inodes
  {
    hide Decide, ValidRequest;
    var reservations: seq<Reservation> := [];
    ghost var n := |gate.granted|;
    assert roots[0..] == roots;
    for k := 0 to |roots|
      invariant gate.Valid() && |reservations| == k && GrantedFrom(gate, n, reservations) && fresh(reservations)
      invariant gate.ledger[..n] == old(gate.ledger) && (old(gate.wrapped) ==> gate.wrapped)
      invariant forall i :: 0 <= i < k ==> Grants(roots[i], reservations[i])
      invariant RestoreFits(old(gate.byVol), roots) <==> RestoreFits(gate.byVol, roots[k..])
    {
      assert roots[k..][1..] == roots[k + 1..];
      if roots[k].request.None? {
        ReleaseReservations(gate, reservations, n);
        return None;
      }
      var admitted := gate.Admit(roots[k].request.value, roots[k].probed);
      if admitted.Failure? {
        ReleaseReservations(gate, reservations, n);
        return None;
      }
      reservations := reservations + [admitted.value];
    }
    return Some(reservations);
  }
}
