/**
 What the interrupt remapping table guarantees over every run of reserve, map and free, with hardware
 that reads any entry between any two accesses and may keep what it read until it is told to drop it.
 */
module IntRemapSafety {
  import opened Common
  import opened IntRemapTable

  /** A device's run of entries. */
  datatype Region = Region(start: nat, length: nat)

  type Regions = map<Device, Region>

  predicate Covers(r: Region, n: nat) {
    r.start <= n < r.start + r.length
  }

  predicate OwnedBy(regions: Regions, d: Device, n: nat) {
    d in regions && Covers(regions[d], n)
  }

  /** What the hardware may act on: a present entry verifies the full source id of the owner of its index. */
  predicate SafeEntry(regions: Regions, n: nat, e: Irte) {
    e.lo.p ==> OwnedBy(regions, e.hi.sid, n) && e.hi.sq == VERIFY_FULL_SID && e.hi.svt == VERIFY_SID_SQ
  }

  ghost predicate HwSafe(t: Table, regions: Regions) {
    forall n :: 0 <= n < |t| ==> SafeEntry(regions, n, t[n])
  }

  predicate RegionOk(t: Table, limit: nat, regions: Regions, d: Device)
    requires d in regions && limit <= |t|
  {
    regions[d].length > 0 && regions[d].start + regions[d].length <= limit &&
    forall n :: regions[d].start <= n < regions[d].start + regions[d].length ==> AssignedTo(t, n, d)
  }

  /**
   Between operations: the assigned entries of each device are one contiguous run, all other entries are
   unassigned, and every present entry is assigned to its owner with full verification.
   */
  ghost predicate TableInv(t: Table, limit: nat, regions: Regions) {
    && limit <= |t|
    && (forall d :: d in regions ==> RegionOk(t, limit, regions, d))
    && (forall n :: 0 <= n < |t| && t[n].lo.isAssigned ==> OwnedBy(regions, t[n].hi.sid, n))
    && (forall n :: 0 <= n < |t| && t[n].lo.p ==> t[n].lo.isAssigned)
    && HwSafe(t, regions)
  }

  /** Contiguity makes the first assigned entry the start of the device's own region. */
  lemma FindIsRegionStart(t: Table, limit: nat, regions: Regions, d: Device)
    requires TableInv(t, limit, regions)
    ensures Find(t, limit, d) == if d in regions then Some(regions[d].start) else None
  {
    if d in regions {
      assert RegionOk(t, limit, regions, d) && AssignedTo(t, regions[d].start, d);
    }
  }

  lemma RegionsDisjoint(t: Table, limit: nat, regions: Regions, c: Device, d: Device, n: nat)
    requires TableInv(t, limit, regions) && OwnedBy(regions, c, n) && OwnedBy(regions, d, n)
    ensures c == d
  {
    assert RegionOk(t, limit, regions, c) && RegionOk(t, limit, regions, d);
    assert AssignedTo(t, n, c) && AssignedTo(t, n, d);
  }

  /** The range check of a mapping amounts to "the device has a region and the vector is inside it". */
  lemma MapIndexExact(t: Table, limit: nat, regions: Regions, d: Device, vector: nat)
    requires TableInv(t, limit, regions)
    ensures MapIndex(t, limit, d, vector)
            == if d !in regions then Err(ENOENT)
               else if vector < regions[d].length then Ok(regions[d].start + vector)
               else Err(ERANGE)
  {
    FindIsRegionStart(t, limit, regions, d);
    if d in regions {
      assert RegionOk(t, limit, regions, d);
      var n := regions[d].start + vector;
      if vector < regions[d].length {
        assert AssignedTo(t, n, d);
      }
    }
  }

  /** Distinct interrupts never share an entry, so a device cannot reach another device's entries. */
  lemma DistinctHandles(t: Table, limit: nat, regions: Regions, c: Device, v: nat, d: Device, w: nat)
    requires TableInv(t, limit, regions) && (c, v) != (d, w)
    requires MapIndex(t, limit, c, v).Ok? && MapIndex(t, limit, d, w).Ok?
    ensures MapIndex(t, limit, c, v) != MapIndex(t, limit, d, w)
  {
    MapIndexExact(t, limit, regions, c, v);
    MapIndexExact(t, limit, regions, d, w);
    assert RegionOk(t, limit, regions, c) && RegionOk(t, limit, regions, d);
    assert AssignedTo(t, regions[c].start + v, c) && AssignedTo(t, regions[d].start + w, d);
  }

  /** Exactly when and how a mapping fails; it then makes no access at all. */
  lemma MapOutcomeExact(cfg: Config, t: Table, regions: Regions, d: Device, v: nat, msg: Message, filtered: Option<Message>)
    requires TableInv(t, cfg.limit, regions)
    ensures var r := MapPlan(t, cfg.limit, cfg.x2apic, d, v, msg, filtered);
      && (r == Err(ENOENT) <==> d !in regions)
      && (r == Err(ERANGE) <==> d in regions && v >= regions[d].length)
      && (r == Err(EINVAL) <==> d in regions && v < regions[d].length && msg.valid && msg.mode !in {DLVR_FIXED, DLVR_LOWPRI})
      && (r == Err(EPERM) <==> d in regions && v < regions[d].length && msg.valid && msg.mode in {DLVR_FIXED, DLVR_LOWPRI}
                               && filtered.None?)
      && (r.Err? ==> MapAccesses(t, cfg.limit, cfg.units, cfg.x2apic, d, v, msg, filtered) == [])
  {
    MapIndexExact(t, cfg.limit, regions, d, v);
  }

  // ---- The machine: table, hardware caches, and the accesses still to come ----

  /**
   `caches[u]` holds the entries unit `u` has read and not dropped. `config` are the accesses still to come of a
   reservation or release, `maps[c]` those of a mapping on CPU `c`. No lock protects the table: mappings run
   concurrently on all CPUs, while reservations and releases run alone.
   */
  datatype State = State(t: Table, regions: Regions, caches: seq<map<nat, Irte>>, config: seq<Access>, maps: seq<seq<Access>>)

  datatype Event =
    | Reserve(device: Device, length: nat)
    | Free(device: Device)             // with the length it was reserved with
    | Map(cpu: nat, device: Device, vector: nat, msg: Message, filtered: Option<Message>)
    | ConfigStep                       // the next access of the reservation or release
    | MapStep(cpu: nat)                // the next access of a CPU's mapping
    | Load(unit: nat, index: nat)      // hardware reads an entry

  datatype Config = Config(limit: nat, units: nat, x2apic: bool)

  function ForgetRegion(regions: Regions, a: Access): Regions {
    if a.Forget? then regions - {a.device} else regions
  }

  function Drop(caches: seq<map<nat, Irte>>, a: Access): (c: seq<map<nat, Irte>>)
    ensures |c| == |caches|
  {
    if a.Flush? && a.unit < |caches| then caches[a.unit := caches[a.unit] - {a.index}] else caches
  }

  /** No CPU is in the middle of a mapping. */
  predicate NoMaps(s: State) {
    forall c :: 0 <= c < |s.maps| ==> s.maps[c] == []
  }

  predicate Enabled(cfg: Config, s: State, e: Event) {
    cfg.limit <= |s.t| &&
    match e
    case ConfigStep => s.config != []
    case MapStep(c) => c < |s.maps| && s.maps[c] != []
    case Load(u, i) => u < |s.caches| && i < |s.t|
    case Free(_) => s.config == [] && NoMaps(s)
    case Reserve(_, _) => s.config == [] && NoMaps(s)
    case Map(c, _, _, _, _) => s.config == [] && c < |s.maps| && s.maps[c] == []
  }

  function After(cfg: Config, s: State, e: Event): State
    requires Enabled(cfg, s, e)
  {
    match e
    case ConfigStep =>
      var a := s.config[0];
      State(Apply(s.t, a), ForgetRegion(s.regions, a), Drop(s.caches, a), s.config[1..], s.maps)
    case MapStep(c) =>
      var a := s.maps[c][0];
      State(Apply(s.t, a), s.regions, Drop(s.caches, a), s.config, s.maps[c := s.maps[c][1..]])
    case Load(u, i) =>
      var cache: map<nat, Irte> := s.caches[u][i := s.t[i]];
      s.(caches := s.caches[u := cache])
    case Reserve(d, length) =>
      if length == 0 || Find(s.t, cfg.limit, d).Some? || FirstFit(s.t, cfg.limit, length).None? then s
      else
        var start := FirstFit(s.t, cfg.limit, length).value;
        s.(regions := s.regions[d := Region(start, length)], config := ReserveAccesses(start, length, d))
    case Free(d) =>
      if Find(s.t, cfg.limit, d).None? || d !in s.regions then s
      else s.(config := FreeAccesses(cfg.units, Find(s.t, cfg.limit, d).value, s.regions[d].length) + [Forget(d)])
    case Map(c, d, v, msg, filtered) =>
      s.(maps := s.maps[c := MapAccesses(s.t, cfg.limit, cfg.units, cfg.x2apic, d, v, msg, filtered)])
  }

  /** A zeroed table, no regions, empty caches. */
  predicate Initial(cfg: Config, s: State) {
    && cfg.limit <= |s.t| && |s.caches| == cfg.units && s.config == [] && NoMaps(s) && s.regions == map[]
    && (forall n :: 0 <= n < |s.t| ==> s.t[n].lo == FREE_LO)
    && (forall u :: 0 <= u < |s.caches| ==> s.caches[u] == map[])
  }

  function Exec(cfg: Config, s0: State, run: seq<Event>): Option<State> {
    if run == [] then Some(s0)
    else
      var e := run[|run| - 1];
      match Exec(cfg, s0, run[..|run| - 1])
      case None => None
      case Some(s) => if Enabled(cfg, s, e) then Some(After(cfg, s, e)) else None
  }

  // ---- The invariant ----

  /** Every unit is still going to be told to drop the entry. */
  ghost predicate FlushedBy(units: nat, index: nat, todo: seq<Access>) {
    forall u :: 0 <= u < units ==> Flush(u, index) in todo
  }

  /** The next access keeps the entry non-present, or a flush of the entry in every unit follows. */
  ghost predicate AccessOk(units: nat, t: Table, todo: seq<Access>)
    requires todo != []
  {
    var a := todo[0];
    a.Flush? || (a.Forget? && |todo| == 1) ||
    (!a.Forget? && a.index < |t| &&
     (FlushedBy(units, a.index, todo[1..]) || (!t[a.index].lo.p && !Apply(t, a)[a.index].lo.p)))
  }

  /** The accesses of a reservation or release pass through safe tables only, and end between operations. */
  ghost predicate Safe(cfg: Config, t: Table, regions: Regions, todo: seq<Access>)
    decreases |todo|
  {
    && HwSafe(t, regions)
    && if todo == [] then TableInv(t, cfg.limit, regions)
       else AccessOk(cfg.units, t, todo) && Safe(cfg, Apply(t, todo[0]), ForgetRegion(regions, todo[0]), todo[1..])
  }

  /** A cached entry equals the one in memory, unless neither is present. */
  predicate Agree(cached: Irte, current: Irte) {
    cached.lo.p || current.lo.p ==> cached == current
  }

  predicate Verified(hi: IrteHi) {
    hi.sq == VERIFY_FULL_SID && hi.svt == VERIFY_SID_SQ
  }

  /**
   What a CPU still has to do for a mapping, at each of its accesses. Another CPU may have mapped the same entry
   since this one read it; what it relies on is that the entry is still assigned, and to whom.
   */
  predicate MapOk(units: nat, t: Table, todo: seq<Access>) {
    todo == [] ||
    match todo[0]
    case Hi(i, hi) =>
      && i < |t| && t[i].lo.isAssigned && hi.sid == t[i].hi.sid && Verified(hi)
      && |todo| > 1 && todo[1].Lo? && todo[1].index == i && todo[1].lo.isAssigned && todo[2..] == Flushes(0, units, i)
    case Lo(i, lo) =>
      && i < |t| && t[i].lo.isAssigned && lo.isAssigned && (lo.p ==> Verified(t[i].hi))
      && todo[1..] == Flushes(0, units, i)
    case Flush(u, i) => todo == Flushes(u, units, i)
    case _ => false
  }

  ghost predicate FlushPending(s: State, u: nat, i: nat) {
    Flush(u, i) in s.config || exists c :: 0 <= c < |s.maps| && Flush(u, i) in s.maps[c]
  }

  ghost predicate CachedOk(s: State, u: nat, i: nat)
    requires u < |s.caches| && i in s.caches[u]
  {
    i < |s.t| && SafeEntry(s.regions, i, s.caches[u][i]) && (Agree(s.caches[u][i], s.t[i]) || FlushPending(s, u, i))
  }

  ghost predicate CachesOk(s: State) {
    forall u, i :: 0 <= u < |s.caches| && i in s.caches[u] ==> CachedOk(s, u, i)
  }

  ghost predicate MapsOk(cfg: Config, s: State) {
    forall c :: 0 <= c < |s.maps| ==> MapOk(cfg.units, s.t, s.maps[c])
  }

  ghost predicate Inv(cfg: Config, s: State) {
    && |s.caches| == cfg.units
    && (s.config != [] ==> NoMaps(s) && Safe(cfg, s.t, s.regions, s.config))
    && (s.config == [] ==> TableInv(s.t, cfg.limit, s.regions) && MapsOk(cfg, s))
    && CachesOk(s)
  }

  lemma {:induction false} SafeFlushes(cfg: Config, t: Table, regions: Regions, k: nat, index: nat, rest: seq<Access>)
    requires HwSafe(t, regions) && Safe(cfg, t, regions, rest)
    ensures Safe(cfg, t, regions, Flushes(k, cfg.units, index) + rest)
    decreases cfg.units - k
  {
    var f := Flushes(k, cfg.units, index);
    if k >= cfg.units {
      assert f + rest == rest;
    } else {
      SafeFlushes(cfg, t, regions, k + 1, index, rest);
      assert (f + rest)[1..] == Flushes(k + 1, cfg.units, index) + rest;
    }
  }

  lemma {:induction false} FlushesAll(k: nat, units: nat, index: nat, u: nat)
    requires k <= u < units
    ensures Flush(u, index) in Flushes(k, units, index)
    decreases units - k
  {
    if k < u {
      FlushesAll(k + 1, units, index, u);
    }
  }

  lemma UpdateFlushes(units: nat, index: nat, rest: seq<Access>)
    ensures FlushedBy(units, index, Flushes(0, units, index) + rest)
  {
    forall u | 0 <= u < units ensures Flush(u, index) in Flushes(0, units, index) + rest {
      FlushesAll(0, units, index, u);
    }
  }

  lemma SafeFirst(cfg: Config, t: Table, regions: Regions, a: Access, rest: seq<Access>)
    requires HwSafe(t, regions) && AccessOk(cfg.units, t, [a] + rest)
    requires Safe(cfg, Apply(t, a), ForgetRegion(regions, a), rest)
    ensures Safe(cfg, t, regions, [a] + rest)
  {
    assert ([a] + rest)[1..] == rest;
  }

  /** Clearing an entry is safe at every point: only the lower half is written. */
  lemma SafeClear(cfg: Config, t: Table, regions: Regions, i: nat, rest: seq<Access>)
    requires i < |t| && HwSafe(t, regions) && Safe(cfg, t[i := t[i].(lo := FREE_LO)], regions, rest)
    ensures Safe(cfg, t, regions, UpdateAccesses(cfg.units, i, Irte(FREE_LO, IrteHi(0, 0, 0))) + rest)
  {
    var f := Flushes(0, cfg.units, i) + rest;
    UpdateFlushes(cfg.units, i, rest);
    SafeFlushes(cfg, t[i := t[i].(lo := FREE_LO)], regions, 0, i, rest);
    SafeStore(cfg, t, regions, Lo(i, FREE_LO), f);
    assert UpdateAccesses(cfg.units, i, Irte(FREE_LO, IrteHi(0, 0, 0))) + rest == [Lo(i, FREE_LO)] + f;
  }

  /** Writing the upper half first changes nothing for a present entry, and nothing visible for another. */
  lemma HiWriteIsSafe(t: Table, regions: Regions, i: nat, hi: IrteHi)
    requires i < |t| && HwSafe(t, regions) && (t[i].lo.p ==> hi == t[i].hi)
    ensures HwSafe(Apply(t, Hi(i, hi)), regions)
    ensures t[i].lo.p ==> Apply(t, Hi(i, hi)) == t
  {
    forall n | 0 <= n < |t| ensures SafeEntry(regions, n, Apply(t, Hi(i, hi))[n]) {
      assert SafeEntry(regions, n, t[n]);
    }
  }

  lemma SafeStore(cfg: Config, t: Table, regions: Regions, a: Access, rest: seq<Access>)
    requires (a.Lo? || a.Hi?) && a.index < |t| && HwSafe(t, regions)
    requires FlushedBy(cfg.units, a.index, rest)
    requires Safe(cfg, Apply(t, a), regions, rest)
    ensures Safe(cfg, t, regions, [a] + rest)
  {
    assert ([a] + rest)[1..] == rest;
  }

  // ---- Each operation is safe at every access ----

  lemma RegionFrame(t: Table, t': Table, limit: nat, regions: Regions, c: Device)
    requires |t| == |t'| && limit <= |t| && c in regions && RegionOk(t, limit, regions, c)
    requires forall n :: 0 <= n < |t| && Covers(regions[c], n) && t'[n] != t[n] ==>
               AssignedTo(t', n, c)
    ensures RegionOk(t', limit, regions, c)
  {
    forall n | regions[c].start <= n < regions[c].start + regions[c].length ensures AssignedTo(t', n, c) {
      assert AssignedTo(t, n, c) && Covers(regions[c], n);
    }
  }

  /** A reservation in progress: `d`'s window is marked up to `pos` and free from there on. */
  ghost predicate Reserving(t: Table, limit: nat, regions: Regions, d: Device, pos: nat) {
    && limit <= |t| && d in regions && regions[d].length > 0
    && regions[d].start <= pos <= regions[d].start + regions[d].length <= limit
    && (forall c :: c in regions && c != d ==> RegionOk(t, limit, regions, c))
    && (forall n :: regions[d].start <= n < regions[d].start + regions[d].length ==>
          !t[n].lo.p && (if n < pos then AssignedTo(t, n, d) else !t[n].lo.isAssigned))
    && (forall n :: 0 <= n < |t| && t[n].lo.isAssigned ==> OwnedBy(regions, t[n].hi.sid, n))
    && (forall n :: 0 <= n < |t| && t[n].lo.p ==> t[n].lo.isAssigned)
    && HwSafe(t, regions)
  }

  lemma ReservingStep(t: Table, limit: nat, regions: Regions, d: Device, pos: nat)
    requires Reserving(t, limit, regions, d, pos) && pos < regions[d].start + regions[d].length
    ensures Reserving(Apply(Apply(t, Mark(pos)), Sid(pos, d)), limit, regions, d, pos + 1)
    ensures HwSafe(Apply(t, Mark(pos)), regions)
  {
    var t' := Apply(Apply(t, Mark(pos)), Sid(pos, d));
    assert forall n :: 0 <= n < |t| && n != pos ==> t'[n] == t[n];
    forall c | c in regions && c != d ensures RegionOk(t', limit, regions, c) {
      assert Covers(regions[c], pos) ==> AssignedTo(t, pos, c);
      RegionFrame(t, t', limit, regions, c);
    }
  }

  lemma SafeReserveStep(cfg: Config, t: Table, regions: Regions, d: Device, pos: nat, rest: seq<Access>)
    requires Reserving(t, cfg.limit, regions, d, pos) && pos < regions[d].start + regions[d].length
    requires Safe(cfg, Apply(Apply(t, Mark(pos)), Sid(pos, d)), regions, rest)
    ensures Safe(cfg, t, regions, [Mark(pos)] + ([Sid(pos, d)] + rest))
  {
    ReservingStep(t, cfg.limit, regions, d, pos);
    SafeFirst(cfg, Apply(t, Mark(pos)), regions, Sid(pos, d), rest);
    SafeFirst(cfg, t, regions, Mark(pos), [Sid(pos, d)] + rest);
  }

  lemma {:induction false} SafeReserve(cfg: Config, t: Table, regions: Regions, d: Device, pos: nat)
    requires Reserving(t, cfg.limit, regions, d, pos)
    ensures Safe(cfg, t, regions, ReserveAccesses(pos, regions[d].start + regions[d].length - pos, d))
    decreases regions[d].start + regions[d].length - pos
  {
    var left := regions[d].start + regions[d].length - pos;
    if left > 0 {
      var rest := ReserveAccesses(pos + 1, left - 1, d);
      assert ReserveAccesses(pos, left, d) == [Mark(pos)] + ([Sid(pos, d)] + rest);
      ReservingStep(t, cfg.limit, regions, d, pos);
      SafeReserve(cfg, Apply(Apply(t, Mark(pos)), Sid(pos, d)), regions, d, pos + 1);
      SafeReserveStep(cfg, t, regions, d, pos, rest);
    }
  }

  lemma StartReserve(cfg: Config, t: Table, regions: Regions, d: Device, start: nat, length: nat)
    requires TableInv(t, cfg.limit, regions) && Find(t, cfg.limit, d).None?
    requires length > 0 && start + length <= cfg.limit && FreeWindow(t, start, length)
    ensures Reserving(t, cfg.limit, regions[d := Region(start, length)], d, start)
  {
    FindIsRegionStart(t, cfg.limit, regions, d);
    var regions' := regions[d := Region(start, length)];
    forall n | 0 <= n < |t| && t[n].lo.isAssigned ensures OwnedBy(regions', t[n].hi.sid, n) {
      assert OwnedBy(regions, t[n].hi.sid, n);
    }
    forall n | 0 <= n < |t| ensures SafeEntry(regions', n, t[n]) {
      assert SafeEntry(regions, n, t[n]);
    }
    forall c | c in regions' && c != d ensures RegionOk(t, cfg.limit, regions', c) {
      assert RegionOk(t, cfg.limit, regions, c);
    }
  }

  /** A release in progress: `d`'s entries are cleared up to `pos` and assigned from there on. */
  ghost predicate Releasing(t: Table, limit: nat, regions: Regions, d: Device, pos: nat) {
    && limit <= |t| && d in regions
    && regions[d].start <= pos <= regions[d].start + regions[d].length <= limit
    && (forall c :: c in regions && c != d ==> RegionOk(t, limit, regions, c))
    && (forall n :: regions[d].start <= n < regions[d].start + regions[d].length ==>
          if n < pos then !t[n].lo.isAssigned else AssignedTo(t, n, d))
    && (forall n :: 0 <= n < |t| && t[n].lo.isAssigned ==> OwnedBy(regions, t[n].hi.sid, n))
    && (forall n :: 0 <= n < |t| && t[n].lo.p ==> t[n].lo.isAssigned)
    && HwSafe(t, regions)
  }

  lemma ReleasingStep(t: Table, limit: nat, regions: Regions, d: Device, pos: nat)
    requires Releasing(t, limit, regions, d, pos) && pos < regions[d].start + regions[d].length
    ensures Releasing(t[pos := t[pos].(lo := FREE_LO)], limit, regions, d, pos + 1)
  {
    var t' := t[pos := t[pos].(lo := FREE_LO)];
    forall c | c in regions && c != d ensures RegionOk(t', limit, regions, c) {
      assert Covers(regions[c], pos) ==> AssignedTo(t, pos, c);
      assert AssignedTo(t, pos, d);
      RegionFrame(t, t', limit, regions, c);
    }
    forall n | 0 <= n < |t'| ensures SafeEntry(regions, n, t'[n]) {
      assert SafeEntry(regions, n, t[n]);
    }
  }

  lemma ReleasingDone(t: Table, limit: nat, regions: Regions, d: Device)
    requires Releasing(t, limit, regions, d, if d in regions then regions[d].start + regions[d].length else 0)
    ensures TableInv(t, limit, regions - {d})
  {
    var regions' := regions - {d};
    forall n | 0 <= n < |t| && t[n].lo.isAssigned ensures OwnedBy(regions', t[n].hi.sid, n) {
      assert OwnedBy(regions, t[n].hi.sid, n);
      assert t[n].hi.sid != d;
    }
    forall n | 0 <= n < |t| ensures SafeEntry(regions', n, t[n]) {
      assert SafeEntry(regions, n, t[n]);
    }
    forall c | c in regions' ensures RegionOk(t, limit, regions', c) {
      assert RegionOk(t, limit, regions, c);
    }
  }

  lemma FreeFirst(units: nat, pos: nat, left: nat, d: Device)
    requires left > 0
    ensures FreeAccesses(units, pos, left) + [Forget(d)]
            == UpdateAccesses(units, pos, Irte(FREE_LO, IrteHi(0, 0, 0))) + (FreeAccesses(units, pos + 1, left - 1) + [Forget(d)])
  {
  }

  lemma {:induction false} SafeFree(cfg: Config, t: Table, regions: Regions, d: Device, pos: nat)
    requires Releasing(t, cfg.limit, regions, d, pos)
    ensures Safe(cfg, t, regions,
                 FreeAccesses(cfg.units, pos, regions[d].start + regions[d].length - pos) + [Forget(d)])
    decreases regions[d].start + regions[d].length - pos
  {
    var left := regions[d].start + regions[d].length - pos;
    if left == 0 {
      assert FreeAccesses(cfg.units, pos, left) + [Forget(d)] == [Forget(d)] + [];
      ReleasingDone(t, cfg.limit, regions, d);
      SafeFirst(cfg, t, regions, Forget(d), []);
    } else {
      FreeFirst(cfg.units, pos, left, d);
      ReleasingStep(t, cfg.limit, regions, d, pos);
      SafeFree(cfg, t[pos := t[pos].(lo := FREE_LO)], regions, d, pos + 1);
      SafeClear(cfg, t, regions, pos, FreeAccesses(cfg.units, pos + 1, left - 1) + [Forget(d)]);
    }
  }

  /** A mapping changes one entry of the device's own region and keeps the invariant. */
  lemma MapKeepsTableInv(cfg: Config, t: Table, regions: Regions, d: Device, v: nat, msg: Message, filtered: Option<Message>)
    requires TableInv(t, cfg.limit, regions)
    requires MapPlan(t, cfg.limit, cfg.x2apic, d, v, msg, filtered).Ok?
    ensures var (i, content) := MapPlan(t, cfg.limit, cfg.x2apic, d, v, msg, filtered).value;
      && OwnedBy(regions, d, i) && i == regions[d].start + v
      && (content.lo.p ==> SafeEntry(regions, i, content) && (t[i].lo.p ==> content.hi == t[i].hi))
      && TableInv(t[i := if content.lo.p then content else t[i].(lo := content.lo)], cfg.limit, regions)
  {
    MapIndexExact(t, cfg.limit, regions, d, v);
    var (i, content) := MapPlan(t, cfg.limit, cfg.x2apic, d, v, msg, filtered).value;
    assert SafeEntry(regions, i, t[i]);
    var t' := t[i := if content.lo.p then content else t[i].(lo := content.lo)];
    assert t'[i].lo.isAssigned == t[i].lo.isAssigned && t'[i].hi.sid == t[i].hi.sid;
    forall c | c in regions ensures RegionOk(t', cfg.limit, regions, c) {
      assert Covers(regions[c], i) ==> AssignedTo(t, i, c);
      RegionFrame(t, t', cfg.limit, regions, c);
    }
    forall n | 0 <= n < |t'| ensures SafeEntry(regions, n, t'[n]) {
      assert SafeEntry(regions, n, t[n]);
    }
  }

  // ---- Mappings on several CPUs ----

  /** What a mapping leaves of every entry: assignment and owner, and a verified upper half. */
  ghost predicate KeepsOwners(t: Table, t': Table) {
    |t'| == |t| &&
    forall n :: 0 <= n < |t| ==>
      && t'[n].lo.isAssigned == t[n].lo.isAssigned && t'[n].hi.sid == t[n].hi.sid
      && (Verified(t[n].hi) ==> Verified(t'[n].hi))
  }

  /** An access of a mapping changes no owner, and goes on with the rest of the mapping. */
  lemma MapStepOk(units: nat, t: Table, todo: seq<Access>)
    requires todo != [] && MapOk(units, t, todo)
    ensures KeepsOwners(t, Apply(t, todo[0])) && MapOk(units, Apply(t, todo[0]), todo[1..])
  {
    match todo[0]
    case Hi(i, _) =>
      assert todo[1..][0] == todo[1] && todo[1..][1..] == todo[2..];
    case Lo(i, _) =>
    case Flush(u, i) =>
      assert todo[1..] == Flushes(u + 1, units, i);
    case _ =>
  }

  /** The other CPUs' mappings are not disturbed. */
  lemma OtherMapOk(units: nat, t: Table, t': Table, todo: seq<Access>)
    requires MapOk(units, t, todo) && KeepsOwners(t, t')
    ensures MapOk(units, t', todo)
  {
  }

  /** The entry that an access of a mapping writes stays safe: a write of the upper half changes no present entry. */
  lemma MapStepSafe(units: nat, t: Table, limit: nat, regions: Regions, todo: seq<Access>)
    requires todo != [] && MapOk(units, t, todo) && TableInv(t, limit, regions)
    ensures HwSafe(Apply(t, todo[0]), regions)
    ensures todo[0].Hi? && t[todo[0].index].lo.p ==> Apply(t, todo[0]) == t
  {
    match todo[0]
    case Hi(i, hi) =>
      assert SafeEntry(regions, i, t[i]);
      HiWriteIsSafe(t, regions, i, hi);
    case Lo(i, lo) =>
      var t' := Apply(t, todo[0]);
      forall n | 0 <= n < |t'| ensures SafeEntry(regions, n, t'[n]) {
        assert SafeEntry(regions, n, t[n]);
        assert OwnedBy(regions, t[i].hi.sid, i);
      }
    case _ =>
  }

  lemma MapStepKeepsTable(units: nat, t: Table, limit: nat, regions: Regions, todo: seq<Access>)
    requires todo != [] && MapOk(units, t, todo) && TableInv(t, limit, regions)
    ensures TableInv(Apply(t, todo[0]), limit, regions)
  {
    MapStepOk(units, t, todo);
    MapStepSafe(units, t, limit, regions, todo);
    var t' := Apply(t, todo[0]);
    forall c | c in regions ensures RegionOk(t', limit, regions, c) {
      assert RegionOk(t, limit, regions, c);
      forall n | regions[c].start <= n < regions[c].start + regions[c].length ensures AssignedTo(t', n, c) {
        assert AssignedTo(t, n, c);
      }
    }
  }

  /** A mapping that has been planned but has made no access yet. */
  lemma PlannedMapOk(cfg: Config, t: Table, regions: Regions, d: Device, v: nat, msg: Message, filtered: Option<Message>)
    requires TableInv(t, cfg.limit, regions)
    ensures MapOk(cfg.units, t, MapAccesses(t, cfg.limit, cfg.units, cfg.x2apic, d, v, msg, filtered))
  {
    var plan := MapPlan(t, cfg.limit, cfg.x2apic, d, v, msg, filtered);
    if plan.Ok? {
      MapIndexExact(t, cfg.limit, regions, d, v);
      var (i, content) := plan.value;
      var todo := UpdateAccesses(cfg.units, i, content);
      if content.lo.p {
        assert todo[2..] == Flushes(0, cfg.units, i);
      } else {
        assert todo[1..] == Flushes(0, cfg.units, i);
      }
    }
  }

  /** After its write to an entry a mapping still has to flush it in every unit. */
  lemma WriteBeforeFlush(units: nat, t: Table, todo: seq<Access>, u: nat)
    requires todo != [] && MapOk(units, t, todo) && (todo[0].Lo? || todo[0].Hi?) && u < units
    ensures Flush(u, todo[0].index) in todo[1..]
  {
    var i := todo[0].index;
    FlushesAll(0, units, i, u);
    if todo[0].Hi? {
      var j :| 0 <= j < |todo[2..]| && todo[2..][j] == Flush(u, i);
      assert todo[1..][j + 1] == Flush(u, i);
    }
  }

  // ---- Every step keeps the invariant ----

  lemma ReserveKeepsInv(cfg: Config, s: State, d: Device, length: nat)
    requires Inv(cfg, s) && Enabled(cfg, s, Reserve(d, length))
    ensures Inv(cfg, After(cfg, s, Reserve(d, length)))
  {
    var s' := After(cfg, s, Reserve(d, length));
    if s' != s {
      StartReserve(cfg, s.t, s.regions, d, s'.regions[d].start, length);
      SafeReserve(cfg, s.t, s'.regions, d, s'.regions[d].start);
      FindIsRegionStart(s.t, cfg.limit, s.regions, d);
      forall u, i | 0 <= u < |s'.caches| && i in s'.caches[u] ensures CachedOk(s', u, i) {
        assert CachedOk(s, u, i);
      }
    }
  }

  lemma FreeKeepsInv(cfg: Config, s: State, d: Device)
    requires Inv(cfg, s) && Enabled(cfg, s, Free(d))
    ensures Inv(cfg, After(cfg, s, Free(d)))
  {
    var s' := After(cfg, s, Free(d));
    if s' != s {
      FindIsRegionStart(s.t, cfg.limit, s.regions, d);
      assert RegionOk(s.t, cfg.limit, s.regions, d);
      SafeFree(cfg, s.t, s.regions, d, s.regions[d].start);
      forall u, i | 0 <= u < |s'.caches| && i in s'.caches[u] ensures CachedOk(s', u, i) {
        assert CachedOk(s, u, i);
      }
    }
  }

  lemma MapKeepsInv(cfg: Config, s: State, e: Event)
    requires Inv(cfg, s) && Enabled(cfg, s, e) && e.Map?
    ensures Inv(cfg, After(cfg, s, e))
  {
    var s' := After(cfg, s, e);
    PlannedMapOk(cfg, s.t, s.regions, e.device, e.vector, e.msg, e.filtered);
    forall u, i | 0 <= u < |s'.caches| && i in s'.caches[u] ensures CachedOk(s', u, i) {
      assert CachedOk(s, u, i);
      if FlushPending(s, u, i) {
        PendingStays(s, s', e.cpu, u, i);
      }
    }
  }

  /** A pending flush of a CPU stays pending while that CPU's accesses do not change. */
  lemma PendingStays(s: State, s': State, cpu: nat, u: nat, i: nat)
    requires cpu < |s.maps| == |s'.maps| && s'.config == s.config && s'.maps == s.maps[cpu := s'.maps[cpu]]
    requires FlushPending(s, u, i) && (Flush(u, i) in s.maps[cpu] ==> Flush(u, i) in s'.maps[cpu])
    ensures FlushPending(s', u, i)
  {
    if Flush(u, i) !in s.config {
      var c :| 0 <= c < |s.maps| && Flush(u, i) in s.maps[c];
      assert Flush(u, i) in s'.maps[c];
    }
  }

  lemma ConfigStepKeepsInv(cfg: Config, s: State)
    requires Inv(cfg, s) && Enabled(cfg, s, ConfigStep)
    ensures Inv(cfg, After(cfg, s, ConfigStep))
  {
    var s', a := After(cfg, s, ConfigStep), s.config[0];
    assert Safe(cfg, s'.t, s'.regions, s'.config);
    forall u, i | 0 <= u < |s'.caches| && i in s'.caches[u] ensures CachedOk(s', u, i) {
      assert i in s.caches[u] && CachedOk(s, u, i);
      assert s.config == [a] + s'.config;
      assert SafeEntry(s'.regions, i, s'.t[i]);
      if a.Lo? || a.Hi? || a.Mark? || a.Sid? {
        if a.index == i && FlushedBy(cfg.units, i, s'.config) {
          assert Flush(u, i) in s'.config;
        }
      }
    }
  }

  lemma MapStepKeepsInv(cfg: Config, s: State, c: nat)
    requires Inv(cfg, s) && Enabled(cfg, s, MapStep(c))
    ensures Inv(cfg, After(cfg, s, MapStep(c)))
  {
    var s', todo := After(cfg, s, MapStep(c)), s.maps[c];
    MapStepKeepsTable(cfg.units, s.t, cfg.limit, s.regions, todo);
    MapStepOk(cfg.units, s.t, todo);
    forall d | 0 <= d < |s'.maps| ensures MapOk(cfg.units, s'.t, s'.maps[d]) {
      if d != c {
        OtherMapOk(cfg.units, s.t, s'.t, s.maps[d]);
      }
    }
    forall u, i | 0 <= u < |s'.caches| && i in s'.caches[u] ensures CachedOk(s', u, i) {
      CacheAfterMapStep(cfg, s, c, u, i);
    }
  }

  lemma CacheAfterMapStep(cfg: Config, s: State, c: nat, u: nat, i: nat)
    requires Inv(cfg, s) && Enabled(cfg, s, MapStep(c))
    requires u < |After(cfg, s, MapStep(c)).caches| && i in After(cfg, s, MapStep(c)).caches[u]
    ensures CachedOk(After(cfg, s, MapStep(c)), u, i)
  {
    var s', todo := After(cfg, s, MapStep(c)), s.maps[c];
    assert MapOk(cfg.units, s.t, todo);
    assert i in s.caches[u] && CachedOk(s, u, i);
    assert todo == [todo[0]] + todo[1..];
    if (todo[0].Lo? || todo[0].Hi?) && todo[0].index == i {
      WriteBeforeFlush(cfg.units, s.t, todo, u);
      assert Flush(u, i) in s'.maps[c];
    } else if FlushPending(s, u, i) {
      PendingStays(s, s', c, u, i);
    }
  }

  lemma LoadKeepsInv(cfg: Config, s: State, u: nat, i: nat)
    requires Inv(cfg, s) && Enabled(cfg, s, Load(u, i))
    ensures Inv(cfg, After(cfg, s, Load(u, i)))
  {
    var s' := After(cfg, s, Load(u, i));
    forall v, k | 0 <= v < |s'.caches| && k in s'.caches[v] ensures CachedOk(s', v, k) {
      assert SafeEntry(s.regions, i, s.t[i]);
      if v != u || k != i {
        assert CachedOk(s, v, k);
        assert FlushPending(s, v, k) ==> FlushPending(s', v, k);
      }
    }
  }

  lemma {:induction false} ReachableInv(cfg: Config, s0: State, run: seq<Event>)
    requires Initial(cfg, s0) && Exec(cfg, s0, run).Some?
    ensures Inv(cfg, Exec(cfg, s0, run).value)
  {
    if run != [] {
      var prefix, e := run[..|run| - 1], run[|run| - 1];
      ReachableInv(cfg, s0, prefix);
      var s := Exec(cfg, s0, prefix).value;
      match e
      case ConfigStep => ConfigStepKeepsInv(cfg, s);
      case MapStep(c) => MapStepKeepsInv(cfg, s, c);
      case Load(u, i) => LoadKeepsInv(cfg, s, u, i);
      case Reserve(d, length) => ReserveKeepsInv(cfg, s, d, length);
      case Free(d) => FreeKeepsInv(cfg, s, d);
      case Map(_, _, _, _, _) => MapKeepsInv(cfg, s, e);
    }
  }

  // ---- What every run guarantees ----

  /**
   No torn entry: whatever the hardware finds in the table between any two accesses of any CPUs, and whatever any
   unit still caches, is either not present or names the device that owns the index, fully verified.
   */
  lemma NoTornEntry(cfg: Config, s0: State, run: seq<Event>, n: nat)
    requires Initial(cfg, s0) && Exec(cfg, s0, run).Some?
    ensures var s := Exec(cfg, s0, run).value;
      && (n < |s.t| ==> SafeEntry(s.regions, n, s.t[n]))
      && (forall u :: 0 <= u < |s.caches| && n in s.caches[u] ==> SafeEntry(s.regions, n, s.caches[u][n]))
  {
    ReachableInv(cfg, s0, run);
    var s := Exec(cfg, s0, run).value;
    forall u | 0 <= u < |s.caches| && n in s.caches[u] ensures SafeEntry(s.regions, n, s.caches[u][n]) {
      assert CachedOk(s, u, n);
    }
  }

  /**
   At every access of every mapping, also with other mappings of the same entry under way, the write of the upper
   half changes nothing if the entry is present.
   */
  lemma PresentEntryKeepsUpperHalf(cfg: Config, s0: State, run: seq<Event>, c: nat)
    requires Initial(cfg, s0) && Exec(cfg, s0, run).Some? && Enabled(cfg, Exec(cfg, s0, run).value, MapStep(c))
    requires Exec(cfg, s0, run).value.maps[c][0].Hi?
    ensures var s := Exec(cfg, s0, run).value;
      var i := s.maps[c][0].index;
      i < |s.t| && (s.t[i].lo.p ==> After(cfg, s, MapStep(c)).t == s.t)
  {
    ReachableInv(cfg, s0, run);
    var s := Exec(cfg, s0, run).value;
    assert MapOk(cfg.units, s.t, s.maps[c]);
    MapStepSafe(cfg.units, s.t, cfg.limit, s.regions, s.maps[c]);
  }

  /**
   Outside of reservations and releases the table invariant holds, however many mappings are under way, and with
   it what is proved from it: handles, coherence of the shadow.
   */
  lemma ReachableTableInv(cfg: Config, s0: State, run: seq<Event>)
    requires Initial(cfg, s0) && Exec(cfg, s0, run).Some? && Exec(cfg, s0, run).value.config == []
    ensures var s := Exec(cfg, s0, run).value; TableInv(s.t, cfg.limit, s.regions)
  {
    ReachableInv(cfg, s0, run);
  }

  /** A unit acts on an entry that memory does not hold only while some CPU has still to flush it there. */
  lemma CachesCoherent(cfg: Config, s0: State, run: seq<Event>, u: nat, n: nat)
    requires Initial(cfg, s0) && Exec(cfg, s0, run).Some?
    requires u < |Exec(cfg, s0, run).value.caches| && n in Exec(cfg, s0, run).value.caches[u]
    ensures var s := Exec(cfg, s0, run).value;
      n < |s.t| && (Agree(s.caches[u][n], s.t[n]) || FlushPending(s, u, n))
  {
    ReachableInv(cfg, s0, run);
    assert CachedOk(Exec(cfg, s0, run).value, u, n);
  }

  /**
   Outside of reservations and releases, every device's entries are one contiguous run that starts where
   vtd_find_int_remap_region says, and every present entry is assigned.
   */
  lemma ContiguousRegions(cfg: Config, s0: State, run: seq<Event>, d: Device, n: nat)
    requires Initial(cfg, s0) && Exec(cfg, s0, run).Some? && Exec(cfg, s0, run).value.config == []
    ensures var s := Exec(cfg, s0, run).value;
      && cfg.limit <= |s.t|
      && Find(s.t, cfg.limit, d) == (if d in s.regions then Some(s.regions[d].start) else None)
      && (n < |s.t| ==> (AssignedTo(s.t, n, d) <==> OwnedBy(s.regions, d, n)))
      && (n < |s.t| && s.t[n].lo.p ==> s.t[n].lo.isAssigned)
  {
    ReachableInv(cfg, s0, run);
    var s := Exec(cfg, s0, run).value;
    FindIsRegionStart(s.t, cfg.limit, s.regions, d);
    if d in s.regions {
      assert RegionOk(s.t, cfg.limit, s.regions, d);
    }
  }

  /** The assignment map: which device each index belongs to. */
  function Assignment(t: Table): seq<Option<Device>> {
    seq(|t|, (n: nat) requires n < |t| => if t[n].lo.isAssigned then Some(t[n].hi.sid) else None)
  }

  lemma {:induction false} PlayReserve(t: Table, n: nat, length: nat, d: Device)
    requires n + length <= |t|
    ensures var t' := Play(t, ReserveAccesses(n, length, d));
      forall k :: 0 <= k < |t| ==>
        t'[k] == if n <= k < n + length then Irte(t[k].lo.(isAssigned := true), t[k].hi.(sid := d)) else t[k]
    decreases length
  {
    if length > 0 {
      ReserveFirst(t, n, length, d);
      PlayReserve(Apply(Apply(t, Mark(n)), Sid(n, d)), n + 1, length - 1, d);
    }
  }

  lemma {:induction false} PlayFree(t: Table, units: nat, n: nat, length: nat)
    requires n + length <= |t|
    ensures var t' := Play(t, FreeAccesses(units, n, length));
      forall k :: 0 <= k < |t| ==> t'[k] == if n <= k < n + length then t[k].(lo := FREE_LO) else t[k]
    decreases length
  {
    if length > 0 {
      var free := Irte(FREE_LO, IrteHi(0, 0, 0));
      PlayUpdate(t, units, n, free);
      PlayConcat(t, UpdateAccesses(units, n, free), FreeAccesses(units, n + 1, length - 1));
      PlayFree(t[n := t[n].(lo := FREE_LO)], units, n + 1, length - 1);
    }
  }

  /** Reserving for a device without a region and freeing the same length restores the assignment map. */
  lemma ReserveThenFree(t: Table, limit: nat, units: nat, d: Device, length: nat)
    requires limit <= |t| && length > 0 && Find(t, limit, d).None? && FirstFit(t, limit, length).Some?
    ensures var t1 := Play(t, ReserveAccesses(FirstFit(t, limit, length).value, length, d));
      && Find(t1, limit, d) == FirstFit(t, limit, length)
      && Assignment(Play(t1, FreeAccesses(units, Find(t1, limit, d).value, length))) == Assignment(t)
  {
    var start := FirstFit(t, limit, length).value;
    var t1 := Play(t, ReserveAccesses(start, length, d));
    PlayReserve(t, start, length, d);
    forall k | 0 <= k < start ensures !AssignedTo(t1, k, d) {
      assert !AssignedTo(t, k, d);
    }
    assert AssignedTo(t1, start, d);
    PlayFree(t1, units, start, length);
  }
}
