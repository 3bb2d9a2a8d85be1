/**
 What the emulated invalidation queue achieves (vtd.c): the physical remapping table agrees with the root
 target's own one wherever the root target has asked for it.
 */
module ShadowTable {
  import opened Common
  import opened IntRemapTable
  import opened IntRemapSafety
  import opened IrEmulation

  // ---- Coherence of the physical table with the guest's ----

  /** The guest's entry does not let the device interrupt. */
  predicate Denies(guest: Option<Irte>, d: Device) {
    guest.None? || !guest.value.lo.p || guest.value.hi.sid != d
  }

  function WireDestination(x2apic: bool, destination: bv32): bv32 {
    if x2apic then destination else destination << 8
  }

  /** Two messages that an entry cannot tell apart. */
  predicate SameWire(x2apic: bool, f: Message, g: Message) {
    f.vector == g.vector && f.mode == g.mode && f.level == g.level && f.destLogical == g.destLogical
    && f.redirHint == g.redirHint && WireDestination(x2apic, f.destination) == WireDestination(x2apic, g.destination)
  }

  predicate Carries(x2apic: bool, e: Irte, f: Message) {
    e.lo.vector == f.vector && e.lo.mode == f.mode && e.lo.level == f.level && e.lo.destLogical == f.destLogical
    && e.lo.redirHint == f.redirHint && e.lo.destination == WireDestination(x2apic, f.destination)
  }

  /**
   The physical entry is what the guest's entry asks for: not present when the guest's is absent, not
   present or for another source id; otherwise present, verified for the device, with the guest's message as
   filtered.
   */
  predicate Reflects(env: Env, e: Irte, guest: Option<Irte>, d: Device) {
    if Denies(guest, d) then !e.lo.p
    else
      var f := env.filter(GuestMessage(guest, env.x2apic, d));
      f.Some? && e.lo.p && e.hi == IrteHi(d, VERIFY_FULL_SID, VERIFY_SID_SQ) && Carries(env.x2apic, e, f.value)
  }

  /** Two guest entries ask for the same thing: both for nothing, or both for messages that look the same filtered. */
  predicate SameRequest(env: Env, g: Option<Irte>, h: Option<Irte>, d: Device) {
    if Denies(g, d) then Denies(h, d)
    else
      var f, k := env.filter(GuestMessage(g, env.x2apic, d)), env.filter(GuestMessage(h, env.x2apic, d));
      !Denies(h, d) && f.Some? && k.Some? && SameWire(env.x2apic, f.value, k.value)
  }

  /** A filter that leaves the message alone keeps the guest's destination, up to the bits xAPIC does not use. */
  lemma DestinationSurvives(destination: bv32)
    ensures ApicId(destination, false) << 8 == destination & 0xffff_ff00
  {
  }

  /** Destinations as the hardware reads them: all 32 bits in x2APIC mode, otherwise bits 15:8 and what lies above. */
  function UsedDestination(x2apic: bool, destination: bv32): bv32 {
    if x2apic then destination else destination & 0xffff_ff00
  }

  /** The physical entry raises the interrupt that the guest's entry describes, field by field. */
  predicate SameInterrupt(x2apic: bool, e: IrteLo, g: IrteLo) {
    && e.p && e.vector == g.vector && e.mode == g.mode && e.destLogical == g.destLogical && e.level == g.level
    && e.redirHint == g.redirHint && e.destination == UsedDestination(x2apic, g.destination)
  }

  lemma DestinationCarried(x2apic: bool, destination: bv32)
    ensures WireDestination(x2apic, ApicId(destination, x2apic)) == UsedDestination(x2apic, destination)
  {
    DestinationSurvives(destination);
  }

  /** If the filter changes no message, an entry that reflects an enabling guest entry raises the same interrupt. */
  lemma ReflectsSameInterrupt(env: Env, e: Irte, g: Irte, d: Device)
    requires Reflects(env, e, Some(g), d) && !Denies(Some(g), d)
    requires forall m :: env.filter(m).Some? ==> env.filter(m).value == m
    ensures SameInterrupt(env.x2apic, e.lo, g.lo) && e.hi.sid == g.hi.sid
  {
    DestinationCarried(env.x2apic, g.lo.destination);
  }

  /** Index `n` is in use and names interrupt `v` of device `d`. */
  predicate Names(usage: seq<Usage>, n: nat, d: Device, v: nat) {
    n < |usage| && usage[n].used && usage[n].device == d && usage[n].vector == v
  }

  /** The entry of an interrupt, if its device has one for it. */
  function HandleOf(regions: Regions, d: Device, v: nat): Option<nat> {
    if d in regions && v < regions[d].length then Some(regions[d].start + v) else None
  }

  ghost predicate EmuInv(env: Env, emu: Emu, regions: Regions) {
    TableInv(emu.t, env.limit, regions)
  }

  lemma HandleIsMapIndex(env: Env, emu: Emu, regions: Regions, d: Device, v: nat)
    requires EmuInv(env, emu, regions)
    ensures match HandleOf(regions, d, v)
      case None => MapIndex(emu.t, env.limit, d, v).Err?
      case Some(h) => MapIndex(emu.t, env.limit, d, v) == Ok(h) && h < |emu.t|
  {
    MapIndexExact(emu.t, env.limit, regions, d, v);
  }

  lemma DistinctInterrupts(env: Env, emu: Emu, regions: Regions, c: Device, w: nat, d: Device, v: nat)
    requires EmuInv(env, emu, regions) && HandleOf(regions, c, w).Some?
    requires HandleOf(regions, c, w) == HandleOf(regions, d, v)
    ensures c == d && w == v
  {
    HandleIsMapIndex(env, emu, regions, c, w);
    HandleIsMapIndex(env, emu, regions, d, v);
    if (c, w) != (d, v) {
      DistinctHandles(emu.t, env.limit, regions, c, w, d, v);
    }
  }

  /** The log has grown, by accesses to one entry only. */
  ghost predicate Touched(log: seq<Access>, log': seq<Access>, h: nat) {
    log <= log' && |log| < |log'| &&
    forall k :: |log| <= k < |log'| ==> !log'[k].Forget? && log'[k].index == h
  }

  /** What one used index does: its entry ends up as the guest asks for, and nothing else is touched. */
  ghost predicate UseEffect(env: Env, emu: Emu, emu': Emu, h: nat, entry: Option<Irte>, d: Device) {
    && h < |emu.t| && |emu'.t| == |emu.t| && emu'.t == emu.t[h := emu'.t[h]]
    && Reflects(env, emu'.t[h], entry, d)
    && Touched(emu.log, emu'.log, h)
  }

  /** What one index does to table and log. */
  ghost predicate IndexEffect(env: Env, emu: Emu, emu': Emu, regions: Regions, n: nat, entry: Option<Irte>) {
    if n < |emu.usage| && emu.usage[n].used then
      var d := emu.usage[n].device;
      HandleOf(regions, d, emu.usage[n].vector).Some?
      && UseEffect(env, emu, emu', HandleOf(regions, d, emu.usage[n].vector).value, entry, d)
    else emu' == emu
  }

  lemma {:induction false} FlushesTouch(k: nat, units: nat, h: nat)
    ensures forall j :: 0 <= j < |Flushes(k, units, h)| ==> Flushes(k, units, h)[j].Flush? && Flushes(k, units, h)[j].index == h
    decreases units - k
  {
    if k < units {
      FlushesTouch(k + 1, units, h);
    }
  }

  lemma UpdateTouches(log: seq<Access>, units: nat, h: nat, content: Irte)
    ensures Touched(log, log + UpdateAccesses(units, h, content), h)
  {
    FlushesTouch(0, units, h);
  }

  /** One index, seen as a single outcome. */
  lemma InvIndexEffect(env: Env, emu: Emu, regions: Regions, n: nat, entry: Option<Irte>, o: Outcome)
    requires EmuInv(env, emu, regions) && o == InvIndex(env, emu, n, entry) && o.result.Ok?
    ensures EmuInv(env, o.emu, regions)
    ensures IndexEffect(env, emu, o.emu, regions, n, entry)
  {
    if n < |emu.usage| && emu.usage[n].used {
      var d, v := emu.usage[n].device, emu.usage[n].vector;
      var msg := GuestMessage(entry, env.x2apic, d);
      HandleIsMapIndex(env, emu, regions, d, v);
      var cfg := Config(env.limit, env.units, env.x2apic);
      MapKeepsTableInv(cfg, emu.t, regions, d, v, msg, env.filter(msg));
      var (h, content) := MapPlan(emu.t, env.limit, env.x2apic, d, v, msg, env.filter(msg)).value;
      PlayUpdate(emu.t, env.units, h, content);
      UpdateTouches(emu.log, env.units, h, content);
    }
  }

  /** Only the usage entry of the index itself can change. */
  lemma InvIndexUsage(env: Env, emu: Emu, n: nat, entry: Option<Irte>, k: nat)
    requires env.limit <= |emu.t| && k < |emu.usage| && k != n
    ensures |InvIndex(env, emu, n, entry).emu.usage| == |emu.usage|
    ensures InvIndex(env, emu, n, entry).emu.usage[k] == emu.usage[k]
  {
  }

  /** An index whose mapping fails touches nothing. */
  lemma FailedIndexTouchesNothing(env: Env, emu: Emu, regions: Regions, n: nat, entry: Option<Irte>)
    requires EmuInv(env, emu, regions) && InvIndex(env, emu, n, entry).result.Err?
    ensures InvIndex(env, emu, n, entry).emu.t == emu.t && InvIndex(env, emu, n, entry).emu.log == emu.log
  {
    var d, v := emu.usage[n].device, emu.usage[n].vector;
    var msg := GuestMessage(entry, env.x2apic, d);
    MapOutcomeExact(Config(env.limit, env.units, env.x2apic), emu.t, regions, d, v, msg, env.filter(msg));
  }

  // ---- Ranges ----

  ghost predicate LastUse(usage: seq<Usage>, start: nat, count: nat, n: nat, d: Device, v: nat) {
    start <= n < start + count && Names(usage, n, d, v) &&
    forall m :: n < m < start + count ==> !Names(usage, m, d, v)
  }

  lemma RangeUnfold(env: Env, emu: Emu, start: nat, count: nat, irt: GuestTable)
    requires env.limit <= |emu.t| && count > 0 && InvRange(env, emu, start, count, irt).result.Ok?
    ensures InvRange(env, emu, start, count - 1, irt).result.Ok?
    ensures InvRange(env, emu, start, count, irt)
            == InvIndex(env, InvRange(env, emu, start, count - 1, irt).emu, start + count - 1, irt(start + count - 1))
  {
  }

  /** No index outside a range changes its use. */
  lemma {:induction false} RangeUsage(env: Env, emu: Emu, start: nat, count: nat, irt: GuestTable, k: nat)
    requires env.limit <= |emu.t| && InvRange(env, emu, start, count, irt).result.Ok?
    requires k < |emu.usage| && !(start <= k < start + count)
    ensures InvRange(env, emu, start, count, irt).emu.usage[k] == emu.usage[k]
    decreases count
  {
    if count > 0 {
      RangeUnfold(env, emu, start, count, irt);
      RangeUsage(env, emu, start, count - 1, irt, k);
      InvIndexUsage(env, InvRange(env, emu, start, count - 1, irt).emu, start + count - 1, irt(start + count - 1), k);
    }
  }

  /** Handling index `m` in a range; `usage` is the usage map from before the range, which still holds for `m`. */
  ghost predicate IsStep(env: Env, usage: seq<Usage>, regions: Regions, irt: GuestTable, m: nat, before: Emu, after: Emu) {
    && |before.usage| == |usage| && |before.t| == |after.t|
    && (m < |usage| ==> before.usage[m] == usage[m])
    && IndexEffect(env, before, after, regions, m, irt(m))
  }

  /** The states that the handling of the indices from `start` on passes through. */
  ghost predicate IsTrace(env: Env, usage: seq<Usage>, regions: Regions, irt: GuestTable, start: nat, trace: seq<Emu>) {
    trace != [] &&
    var n := |trace| - 1;
    n > 0 ==>
      && IsTrace(env, usage, regions, irt, start, trace[..n])
      && IsStep(env, usage, regions, irt, start + n - 1, trace[n - 1], trace[n])
  }

  lemma ExtendTrace(env: Env, usage: seq<Usage>, regions: Regions, irt: GuestTable, start: nat, trace: seq<Emu>, m: nat, after: Emu)
    requires IsTrace(env, usage, regions, irt, start, trace) && m == start + |trace| - 1
    requires IsStep(env, usage, regions, irt, m, trace[|trace| - 1], after)
    ensures IsTrace(env, usage, regions, irt, start, trace + [after])
  {
    assert (trace + [after])[..|trace|] == trace;
  }

  /** What the last index of a range does. */
  lemma LastStep(env: Env, emu: Emu, regions: Regions, start: nat, count: nat, irt: GuestTable, before: Emu, o: Outcome)
    requires env.limit <= |emu.t| && count > 0 && o == InvRange(env, emu, start, count, irt) && o.result.Ok?
    requires before == InvRange(env, emu, start, count - 1, irt).emu && EmuInv(env, before, regions)
    ensures InvRange(env, emu, start, count - 1, irt).result.Ok?
    ensures IsStep(env, emu.usage, regions, irt, start + count - 1, before, o.emu) && EmuInv(env, o.emu, regions)
  {
    var m := start + count - 1;
    RangeUnfold(env, emu, start, count, irt);
    if m < |emu.usage| {
      RangeUsage(env, emu, start, count - 1, irt, m);
    }
    InvIndexEffect(env, before, regions, m, irt(m), o);
  }

  /** Every successful range invalidation has a trace, and keeps the table invariant. */
  lemma {:induction false} RangeTrace(env: Env, emu: Emu, regions: Regions, start: nat, count: nat, irt: GuestTable)
    returns (trace: seq<Emu>)
    requires EmuInv(env, emu, regions) && InvRange(env, emu, start, count, irt).result.Ok?
    ensures |trace| == count + 1 && trace[0] == emu && trace[count] == InvRange(env, emu, start, count, irt).emu
    ensures IsTrace(env, emu.usage, regions, irt, start, trace) && EmuInv(env, trace[count], regions)
    decreases count
  {
    trace := [emu];
    if count > 0 {
      RangeUnfold(env, emu, start, count, irt);
      trace := RangeTrace(env, emu, regions, start, count - 1, irt);
      var o := InvRange(env, emu, start, count, irt);
      LastStep(env, emu, regions, start, count, irt, trace[|trace| - 1], o);
      ExtendTrace(env, emu.usage, regions, irt, start, trace, start + count - 1, o.emu);
      trace := trace + [o.emu];
    }
  }

  lemma RangeKeepsInv(env: Env, emu: Emu, regions: Regions, start: nat, count: nat, irt: GuestTable)
    requires EmuInv(env, emu, regions) && InvRange(env, emu, start, count, irt).result.Ok?
    ensures EmuInv(env, InvRange(env, emu, start, count, irt).emu, regions)
  {
    var trace := RangeTrace(env, emu, regions, start, count, irt);
  }

  /** Index `n` is used for the entry `h`. */
  predicate Uses(regions: Regions, usage: seq<Usage>, n: nat, h: nat) {
    n < |usage| && usage[n].used && HandleOf(regions, usage[n].device, usage[n].vector) == Some(h)
  }

  ghost predicate UnusedIn(regions: Regions, usage: seq<Usage>, start: nat, count: nat, h: nat) {
    forall n: nat :: start <= n < start + count ==> !Uses(regions, usage, n, h)
  }

  lemma EntryKept(env: Env, usage: seq<Usage>, regions: Regions, irt: GuestTable, m: nat, before: Emu, after: Emu, h: nat)
    requires IsStep(env, usage, regions, irt, m, before, after) && h < |before.t| && !Uses(regions, usage, m, h)
    ensures after.t[h] == before.t[h]
  {
  }

  lemma EntrySet(env: Env, usage: seq<Usage>, regions: Regions, irt: GuestTable, m: nat, before: Emu, after: Emu, h: nat)
    requires IsStep(env, usage, regions, irt, m, before, after) && Uses(regions, usage, m, h)
    ensures h < |after.t| && Reflects(env, after.t[h], irt(m), usage[m].device)
  {
  }

  /** An entry that no index in the range is used for is untouched. */
  lemma {:induction false} TraceKeepsEntry(env: Env, usage: seq<Usage>, regions: Regions, irt: GuestTable, start: nat,
                                           trace: seq<Emu>, h: nat)
    requires IsTrace(env, usage, regions, irt, start, trace) && h < |trace[0].t|
    requires UnusedIn(regions, usage, start, |trace| - 1, h)
    ensures h < |trace[|trace| - 1].t| && trace[|trace| - 1].t[h] == trace[0].t[h]
    decreases |trace|
  {
    var n := |trace| - 1;
    if n > 0 {
      assert !Uses(regions, usage, start + n - 1, h);
      TraceKeepsEntry(env, usage, regions, irt, start, trace[..n], h);
      EntryKept(env, usage, regions, irt, start + n - 1, trace[n - 1], trace[n], h);
    }
  }

  /** An entry is what the guest's entry at the last index in the range that is used for it asks for. */
  lemma {:induction false} TraceSetsEntry(env: Env, usage: seq<Usage>, regions: Regions, irt: GuestTable, start: nat,
                                          trace: seq<Emu>, m: nat, h: nat)
    requires IsTrace(env, usage, regions, irt, start, trace) && start <= m < start + |trace| - 1
    requires Uses(regions, usage, m, h) && UnusedIn(regions, usage, m + 1, start + |trace| - 2 - m, h)
    ensures h < |trace[|trace| - 1].t| && Reflects(env, trace[|trace| - 1].t[h], irt(m), usage[m].device)
    decreases |trace|
  {
    var n := |trace| - 1;
    if m < start + n - 1 {
      assert !Uses(regions, usage, start + n - 1, h);
      TraceSetsEntry(env, usage, regions, irt, start, trace[..n], m, h);
      EntryKept(env, usage, regions, irt, start + n - 1, trace[n - 1], trace[n], h);
    } else {
      EntrySet(env, usage, regions, irt, m, trace[n - 1], trace[n], h);
    }
  }

  lemma {:induction false} TraceHasHandle(env: Env, usage: seq<Usage>, regions: Regions, irt: GuestTable, start: nat,
                                          trace: seq<Emu>, m: nat)
    requires IsTrace(env, usage, regions, irt, start, trace) && start <= m < start + |trace| - 1
    requires m < |usage| && usage[m].used
    ensures HandleOf(regions, usage[m].device, usage[m].vector).Some?
    decreases |trace|
  {
    var n := |trace| - 1;
    if m < start + n - 1 {
      TraceHasHandle(env, usage, regions, irt, start, trace[..n], m);
    }
  }

  /** Every entry that is not the handle of a used index in the range is untouched. */
  lemma RangeFrame(env: Env, emu: Emu, regions: Regions, start: nat, count: nat, irt: GuestTable, i: nat)
    requires EmuInv(env, emu, regions) && InvRange(env, emu, start, count, irt).result.Ok? && i < |emu.t|
    requires forall n: nat :: start <= n < start + count && n < |emu.usage| && emu.usage[n].used ==>
               MapIndex(emu.t, env.limit, emu.usage[n].device, emu.usage[n].vector) != Ok(i)
    ensures InvRange(env, emu, start, count, irt).emu.t[i] == emu.t[i]
  {
    forall n: nat | start <= n < start + count ensures !Uses(regions, emu.usage, n, i) {
      if n < |emu.usage| && emu.usage[n].used {
        HandleIsMapIndex(env, emu, regions, emu.usage[n].device, emu.usage[n].vector);
      }
    }
    var trace := RangeTrace(env, emu, regions, start, count, irt);
    TraceKeepsEntry(env, emu.usage, regions, irt, start, trace, i);
  }

  /** An interrupt that no index in a range is used for. */
  ghost predicate UnnamedIn(usage: seq<Usage>, start: nat, count: nat, d: Device, v: nat) {
    forall m: nat :: start <= m < start + count ==> !Names(usage, m, d, v)
  }

  lemma UnnamedIsUnused(env: Env, emu: Emu, regions: Regions, start: nat, count: nat, d: Device, v: nat)
    requires EmuInv(env, emu, regions) && HandleOf(regions, d, v).Some? && UnnamedIn(emu.usage, start, count, d, v)
    ensures UnusedIn(regions, emu.usage, start, count, HandleOf(regions, d, v).value)
  {
    var h := HandleOf(regions, d, v).value;
    forall m: nat | start <= m < start + count ensures !Uses(regions, emu.usage, m, h) {
      if Uses(regions, emu.usage, m, h) {
        DistinctInterrupts(env, emu, regions, emu.usage[m].device, emu.usage[m].vector, d, v);
        assert Names(emu.usage, m, d, v);
      }
    }
  }

  /**
   After a successful invalidation of an index range, the entry of each interrupt that some used index in the
   range names is what the guest's entry at the last such index asks for.
   */
  lemma RangeReflects(env: Env, emu: Emu, regions: Regions, start: nat, count: nat, irt: GuestTable, n: nat, d: Device, v: nat)
    requires EmuInv(env, emu, regions) && InvRange(env, emu, start, count, irt).result.Ok?
    requires LastUse(emu.usage, start, count, n, d, v)
    ensures HandleOf(regions, d, v).Some? && HandleOf(regions, d, v).value < |emu.t|
    ensures Reflects(env, InvRange(env, emu, start, count, irt).emu.t[HandleOf(regions, d, v).value], irt(n), d)
  {
    var trace := RangeTrace(env, emu, regions, start, count, irt);
    TraceHasHandle(env, emu.usage, regions, irt, start, trace, n);
    UnnamedIsUnused(env, emu, regions, n + 1, start + count - 1 - n, d, v);
    TraceSetsEntry(env, emu.usage, regions, irt, start, trace, n, HandleOf(regions, d, v).value);
  }

  /**
   In terms of the guest's table alone: with a filter that changes no message, after a successful invalidation the
   interrupt of a used index is not present if the guest's entry at its last use denies it, and is raised exactly
   as that entry describes otherwise.
   */
  lemma RangeRaisesSame(env: Env, emu: Emu, regions: Regions, start: nat, count: nat, irt: GuestTable, n: nat, d: Device, v: nat)
    requires EmuInv(env, emu, regions) && InvRange(env, emu, start, count, irt).result.Ok?
    requires LastUse(emu.usage, start, count, n, d, v)
    requires forall m :: env.filter(m).Some? ==> env.filter(m).value == m
    ensures HandleOf(regions, d, v).Some? && HandleOf(regions, d, v).value < |emu.t|
    ensures var e := InvRange(env, emu, start, count, irt).emu.t[HandleOf(regions, d, v).value];
      match irt(n)
      case None => !e.lo.p
      case Some(g) => if g.lo.p && g.hi.sid == d then SameInterrupt(env.x2apic, e.lo, g.lo) && e.hi.sid == d else !e.lo.p
  {
    RangeReflects(env, emu, regions, start, count, irt, n, d, v);
    if !Denies(irt(n), d) {
      ReflectsSameInterrupt(env, InvRange(env, emu, start, count, irt).emu.t[HandleOf(regions, d, v).value], irt(n).value, d);
    }
  }

  // ---- When an invalidation succeeds ----

  /** What a used index asks for can be mapped. */
  predicate Mappable(env: Env, regions: Regions, u: Usage, guest: Option<Irte>) {
    HandleOf(regions, u.device, u.vector).Some? &&
    (Denies(guest, u.device) ||
     (guest.value.lo.mode in {DLVR_FIXED, DLVR_LOWPRI} && env.filter(GuestMessage(guest, env.x2apic, u.device)).Some?))
  }

  lemma IndexSucceedsIff(env: Env, emu: Emu, regions: Regions, n: nat, guest: Option<Irte>)
    requires EmuInv(env, emu, regions)
    ensures InvIndex(env, emu, n, guest).result.Ok?
            <==> (n < |emu.usage| && emu.usage[n].used ==> Mappable(env, regions, emu.usage[n], guest))
  {
    if n < |emu.usage| && emu.usage[n].used {
      var u := emu.usage[n];
      var msg := GuestMessage(guest, env.x2apic, u.device);
      MapOutcomeExact(Config(env.limit, env.units, env.x2apic), emu.t, regions, u.device, u.vector, msg, env.filter(msg));
    }
  }

  ghost predicate AllMappable(env: Env, regions: Regions, usage: seq<Usage>, start: nat, count: nat, irt: GuestTable) {
    forall n :: start <= n < start + count && n < |usage| && usage[n].used ==> Mappable(env, regions, usage[n], irt(n))
  }

  lemma AllMappableOneMore(env: Env, regions: Regions, usage: seq<Usage>, start: nat, count: nat, irt: GuestTable)
    requires count > 0
    ensures var m := start + count - 1;
      AllMappable(env, regions, usage, start, count, irt)
      <==> AllMappable(env, regions, usage, start, count - 1, irt)
           && (m < |usage| && usage[m].used ==> Mappable(env, regions, usage[m], irt(m)))
  {
  }

  lemma ErrorStays(env: Env, emu: Emu, start: nat, count: nat, irt: GuestTable)
    requires env.limit <= |emu.t| && count > 0 && InvRange(env, emu, start, count - 1, irt).result.Err?
    ensures InvRange(env, emu, start, count, irt).result.Err?
  {
  }

  /** A range invalidation succeeds if and only if what each used index in it asks for can be mapped. */
  lemma {:induction false} RangeSucceedsIff(env: Env, emu: Emu, regions: Regions, start: nat, count: nat, irt: GuestTable)
    requires EmuInv(env, emu, regions)
    ensures InvRange(env, emu, start, count, irt).result.Ok? <==> AllMappable(env, regions, emu.usage, start, count, irt)
    decreases count
  {
    if count > 0 {
      AllMappableOneMore(env, regions, emu.usage, start, count, irt);
      RangeSucceedsIff(env, emu, regions, start, count - 1, irt);
      if InvRange(env, emu, start, count - 1, irt).result.Ok? {
        RangeLastSucceedsIff(env, emu, regions, start, count, irt, InvRange(env, emu, start, count - 1, irt));
      } else {
        ErrorStays(env, emu, start, count, irt);
      }
    }
  }

  lemma RangeLastSucceedsIff(env: Env, emu: Emu, regions: Regions, start: nat, count: nat, irt: GuestTable, before: Outcome)
    requires EmuInv(env, emu, regions) && count > 0 && before == InvRange(env, emu, start, count - 1, irt) && before.result.Ok?
    ensures var m := start + count - 1;
      InvRange(env, emu, start, count, irt).result.Ok?
      <==> (m < |emu.usage| && emu.usage[m].used ==> Mappable(env, regions, emu.usage[m], irt(m)))
  {
    var m := start + count - 1;
    assert EmuInv(env, before.emu, regions) by {
      RangeKeepsInv(env, emu, regions, start, count - 1, irt);
    }
    if m < |emu.usage| {
      RangeUsage(env, emu, start, count - 1, irt, m);
    }
    IndexSucceedsIff(env, before.emu, regions, m, irt(m));
  }

  /** An index whose guest entry cannot be read is forgotten: invalidating it again does nothing. */
  lemma UnreadableIsForgotten(env: Env, emu: Emu, regions: Regions, n: nat, guest: Option<Irte>)
    requires EmuInv(env, emu, regions) && InvIndex(env, emu, n, None).result.Ok?
    ensures InvIndex(env, InvIndex(env, emu, n, None).emu, n, guest) == Outcome(Ok(0), InvIndex(env, emu, n, None).emu)
  {
  }

  // ---- Coherence of all used indices ----

  /** The entry of the interrupt that an index is used for is what the guest's entry at that index asks for. */
  predicate Coherent(env: Env, t: Table, u: Usage, guest: Option<Irte>)
    requires env.limit <= |t|
  {
    var i := MapIndex(t, env.limit, u.device, u.vector);
    i.Ok? && Reflects(env, t[i.value], guest, u.device)
  }

  ghost predicate AllCoherent(env: Env, t: Table, usage: seq<Usage>, irt: GuestTable)
    requires env.limit <= |t|
  {
    forall n :: 0 <= n < |usage| && usage[n].used ==> Coherent(env, t, usage[n], irt(n))
  }

  ghost predicate CoherentOutside(env: Env, t: Table, usage: seq<Usage>, irt: GuestTable, start: nat, count: nat)
    requires env.limit <= |t|
  {
    forall n :: 0 <= n < |usage| && usage[n].used && !(start <= n < start + count) ==> Coherent(env, t, usage[n], irt(n))
  }

  /** Every used index asks for the same as the last index in the range that is used for the same interrupt. */
  ghost predicate AgreeWithLast(env: Env, usage: seq<Usage>, irt: GuestTable, start: nat, count: nat) {
    forall n, m :: 0 <= n < |usage| && usage[n].used
                   && LastUse(usage, start, count, m, usage[n].device, usage[n].vector) ==>
      SameRequest(env, irt(n), irt(m), usage[n].device)
  }

  lemma ReflectsIff(env: Env, e: Irte, g: Option<Irte>, h: Option<Irte>, d: Device)
    requires Reflects(env, e, h, d)
    ensures Reflects(env, e, g, d) <==> SameRequest(env, g, h, d)
  {
  }

  /** Coherence in terms of the entry that the interrupt has. */
  lemma CoherentIsReflects(env: Env, emu: Emu, regions: Regions, u: Usage, guest: Option<Irte>)
    requires EmuInv(env, emu, regions)
    ensures match HandleOf(regions, u.device, u.vector)
      case None => !Coherent(env, emu.t, u, guest)
      case Some(h) => h < |emu.t| && (Coherent(env, emu.t, u, guest) <==> Reflects(env, emu.t[h], guest, u.device))
  {
    HandleIsMapIndex(env, emu, regions, u.device, u.vector);
  }

  /**
   A used index, anywhere in the guest's table, is coherent after an invalidation that handles its interrupt
   exactly if its guest entry and the one at the last index in the range for that interrupt ask for the same thing.
   */
  lemma CoherentIff(env: Env, emu: Emu, regions: Regions, start: nat, count: nat, irt: GuestTable, n: nat, m: nat)
    requires EmuInv(env, emu, regions) && InvRange(env, emu, start, count, irt).result.Ok?
    requires n < |emu.usage| && emu.usage[n].used
    requires LastUse(emu.usage, start, count, m, emu.usage[n].device, emu.usage[n].vector)
    ensures Coherent(env, InvRange(env, emu, start, count, irt).emu.t, emu.usage[n], irt(n))
            <==> SameRequest(env, irt(n), irt(m), emu.usage[n].device)
  {
    var u, after := emu.usage[n], InvRange(env, emu, start, count, irt).emu;
    RangeReflects(env, emu, regions, start, count, irt, m, u.device, u.vector);
    RangeKeepsInv(env, emu, regions, start, count, irt);
    CoherentIsReflects(env, after, regions, u, irt(n));
    ReflectsIff(env, after.t[HandleOf(regions, u.device, u.vector).value], irt(n), irt(m), u.device);
  }

  lemma {:induction false} LastUseExists(usage: seq<Usage>, start: nat, count: nat, n: nat, d: Device, v: nat) returns (m: nat)
    requires start <= n < start + count && Names(usage, n, d, v)
    ensures n <= m && LastUse(usage, start, count, m, d, v)
    decreases count
  {
    if Names(usage, start + count - 1, d, v) {
      m := start + count - 1;
    } else {
      m := LastUseExists(usage, start, count - 1, n, d, v);
    }
  }

  /** An interrupt that no index in the range is used for keeps its coherence. */
  lemma UnhandledStaysCoherent(env: Env, emu: Emu, regions: Regions, start: nat, count: nat, irt: GuestTable, u: Usage,
                               guest: Option<Irte>)
    requires EmuInv(env, emu, regions) && InvRange(env, emu, start, count, irt).result.Ok?
    requires UnnamedIn(emu.usage, start, count, u.device, u.vector) && Coherent(env, emu.t, u, guest)
    ensures Coherent(env, InvRange(env, emu, start, count, irt).emu.t, u, guest)
  {
    CoherentIsReflects(env, emu, regions, u, guest);
    UnnamedIsUnused(env, emu, regions, start, count, u.device, u.vector);
    var trace := RangeTrace(env, emu, regions, start, count, irt);
    TraceKeepsEntry(env, emu.usage, regions, irt, start, trace, HandleOf(regions, u.device, u.vector).value);
    CoherentIsReflects(env, InvRange(env, emu, start, count, irt).emu, regions, u, guest);
  }

  /**
   Shadow coherence, exactly. If the used indices outside the range were coherent, a successful invalidation makes
   all used indices coherent if and only if each of them asks for the same as the last index in the range that is
   used for the same interrupt.
   */
  lemma AllCoherentIff(env: Env, emu: Emu, regions: Regions, start: nat, count: nat, irt: GuestTable)
    requires EmuInv(env, emu, regions) && InvRange(env, emu, start, count, irt).result.Ok?
    requires CoherentOutside(env, emu.t, emu.usage, irt, start, count)
    ensures AllCoherent(env, InvRange(env, emu, start, count, irt).emu.t, emu.usage, irt)
            <==> AgreeWithLast(env, emu.usage, irt, start, count)
  {
    var t' := InvRange(env, emu, start, count, irt).emu.t;
    forall n, m | 0 <= n < |emu.usage| && emu.usage[n].used
                  && LastUse(emu.usage, start, count, m, emu.usage[n].device, emu.usage[n].vector)
      ensures Coherent(env, t', emu.usage[n], irt(n)) <==> SameRequest(env, irt(n), irt(m), emu.usage[n].device)
    {
      CoherentIff(env, emu, regions, start, count, irt, n, m);
    }
    forall n | 0 <= n < |emu.usage| && emu.usage[n].used
      ensures Coherent(env, t', emu.usage[n], irt(n))
              || exists m :: LastUse(emu.usage, start, count, m, emu.usage[n].device, emu.usage[n].vector)
    {
      LastUseOrCoherent(env, emu, regions, start, count, irt, n);
    }
  }

  lemma LastUseOrCoherent(env: Env, emu: Emu, regions: Regions, start: nat, count: nat, irt: GuestTable, n: nat)
    requires EmuInv(env, emu, regions) && InvRange(env, emu, start, count, irt).result.Ok?
    requires CoherentOutside(env, emu.t, emu.usage, irt, start, count) && n < |emu.usage| && emu.usage[n].used
    ensures Coherent(env, InvRange(env, emu, start, count, irt).emu.t, emu.usage[n], irt(n))
            || exists m :: LastUse(emu.usage, start, count, m, emu.usage[n].device, emu.usage[n].vector)
  {
    var d, v := emu.usage[n].device, emu.usage[n].vector;
    if k: nat :| start <= k < start + count && Names(emu.usage, k, d, v) {
      var m := LastUseExists(emu.usage, start, count, k, d, v);
    } else {
      assert Names(emu.usage, n, d, v);
      assert UnnamedIn(emu.usage, start, count, d, v);
      UnhandledStaysCoherent(env, emu, regions, start, count, irt, emu.usage[n], irt(n));
    }
  }

  ghost predicate DistinctUses(usage: seq<Usage>) {
    forall m, n :: 0 <= m < n < |usage| && usage[m].used && usage[n].used ==>
      usage[m].device != usage[n].device || usage[m].vector != usage[n].vector
  }

  /**
   In particular, when used indices name different interrupts, every used index in an invalidated range ends up
   with exactly what the guest's current entry asks for.
   */
  lemma ShadowCoherence(env: Env, emu: Emu, regions: Regions, start: nat, count: nat, irt: GuestTable, n: nat)
    requires EmuInv(env, emu, regions) && InvRange(env, emu, start, count, irt).result.Ok?
    requires DistinctUses(emu.usage) && start <= n < start + count && n < |emu.usage| && emu.usage[n].used
    ensures Coherent(env, InvRange(env, emu, start, count, irt).emu.t, emu.usage[n], irt(n))
  {
    var d, v, after := emu.usage[n].device, emu.usage[n].vector, InvRange(env, emu, start, count, irt).emu;
    assert LastUse(emu.usage, start, count, n, d, v);
    RangeReflects(env, emu, regions, start, count, irt, n, d, v);
    RangeKeepsInv(env, emu, regions, start, count, irt);
    CoherentIsReflects(env, after, regions, emu.usage[n], irt(n));
  }

  // ---- What the emulated queue achieves ----

  /** The descriptor that is handled in a view of guest memory. */
  predicate Reads(view: View, slot: nat, desc: RawDesc) {
    view.queue.Some? && slot < |view.queue.value| && view.queue.value[slot] == desc
  }

  /** A descriptor asks for an index to be refreshed. */
  predicate AsksFor(desc: RawDesc, irtEntries: nat, n: nat) {
    var request := Decode(desc, irtEntries);
    request.InvalidateInterrupts? && request.start <= n < request.start + request.count
  }

  /** The usage map records vectors as the ten-bit field holds them. */
  ghost predicate UsageOk(usage: seq<Usage>) {
    forall n :: 0 <= n < |usage| ==> usage[n].vector < VECTOR_FIELD
  }

  /** Indices are forgotten, and nothing else changes. */
  ghost predicate Forgets(usage: seq<Usage>, usage': seq<Usage>) {
    |usage'| == |usage| &&
    forall n :: 0 <= n < |usage| ==> usage'[n] == usage[n] || usage'[n] == usage[n].(used := false)
  }

  lemma IndexForgets(env: Env, emu: Emu, n: nat, guest: Option<Irte>)
    requires env.limit <= |emu.t| && UsageOk(emu.usage)
    ensures Forgets(emu.usage, InvIndex(env, emu, n, guest).emu.usage)
  {
  }

  lemma ForgetsTransitive(a: seq<Usage>, b: seq<Usage>, c: seq<Usage>)
    requires Forgets(a, b) && Forgets(b, c)
    ensures Forgets(a, c)
  {
    forall n | 0 <= n < |a| ensures c[n] == a[n] || c[n] == a[n].(used := false) {
      assert b[n] == a[n] || b[n] == a[n].(used := false);
    }
  }

  lemma RangeLast(env: Env, emu: Emu, start: nat, count: nat, irt: GuestTable)
    requires env.limit <= |emu.t| && count > 0
    ensures var before := InvRange(env, emu, start, count - 1, irt);
      InvRange(env, emu, start, count, irt)
      == if before.result.Err? then before else InvIndex(env, before.emu, start + count - 1, irt(start + count - 1))
  {
  }

  lemma StepForgets(env: Env, usage: seq<Usage>, emu: Emu, n: nat, guest: Option<Irte>, emu': Emu)
    requires env.limit <= |emu.t| && UsageOk(usage) && Forgets(usage, emu.usage)
    requires emu' == InvIndex(env, emu, n, guest).emu
    ensures Forgets(usage, emu'.usage)
  {
    IndexForgets(env, emu, n, guest);
    ForgetsTransitive(usage, emu.usage, emu'.usage);
  }

  lemma {:induction false} RangeForgets(env: Env, emu: Emu, start: nat, count: nat, irt: GuestTable)
    requires env.limit <= |emu.t| && UsageOk(emu.usage)
    ensures Forgets(emu.usage, InvRange(env, emu, start, count, irt).emu.usage)
    decreases count
  {
    if count > 0 {
      RangeForgets(env, emu, start, count - 1, irt);
      RangeLast(env, emu, start, count, irt);
      var before := InvRange(env, emu, start, count - 1, irt);
      if before.result.Ok? {
        StepForgets(env, emu.usage, before.emu, start + count - 1, irt(start + count - 1), InvRange(env, emu, start, count, irt).emu);
      }
    }
  }

  /**
   State of the refreshing of index `n`, whose use was `u` at the start: it is still in use, or its interrupt is
   coherent already.
   */
  ghost predicate Refreshed(env: Env, t: Table, usage: seq<Usage>, irt: GuestTable, n: nat, u: Usage, done: bool)
    requires env.limit <= |t|
  {
    n < |usage| && (done || !usage[n].used ==> Coherent(env, t, u, irt(n)))
  }

  /** A range invalidation refreshes the used indices in the range and disturbs no other. */
  lemma RangeRefreshes(env: Env, usage: seq<Usage>, emu: Emu, regions: Regions, start: nat, count: nat, irt: GuestTable,
                       n: nat, done: bool)
    requires EmuInv(env, emu, regions) && InvRange(env, emu, start, count, irt).result.Ok?
    requires DistinctUses(usage) && UsageOk(usage) && Forgets(usage, emu.usage)
    requires n < |usage| && usage[n].used && Refreshed(env, emu.t, emu.usage, irt, n, usage[n], done)
    ensures Refreshed(env, InvRange(env, emu, start, count, irt).emu.t, InvRange(env, emu, start, count, irt).emu.usage,
                      irt, n, usage[n], done || start <= n < start + count)
  {
    var o := InvRange(env, emu, start, count, irt);
    if emu.usage[n].used && start <= n < start + count {
      ForgetsKeepsDistinct(usage, emu.usage);
      ShadowCoherence(env, emu, regions, start, count, irt, n);
    } else {
      if !(start <= n < start + count) {
        RangeUsage(env, emu, start, count, irt, n);
      }
      if done || !emu.usage[n].used {
        OnlyNamesItself(usage, emu.usage, start, count, n);
        UnhandledStaysCoherent(env, emu, regions, start, count, irt, usage[n], irt(n));
      }
    }
  }

  lemma ForgetsKeepsDistinct(usage: seq<Usage>, usage': seq<Usage>)
    requires DistinctUses(usage) && Forgets(usage, usage')
    ensures DistinctUses(usage')
  {
    forall m, n | 0 <= m < n < |usage'| && usage'[m].used && usage'[n].used
      ensures usage'[m].device != usage'[n].device || usage'[m].vector != usage'[n].vector
    {
      assert usage'[m] == usage[m] && usage'[n] == usage[n];
    }
  }

  lemma OnlyNamesItself(usage: seq<Usage>, usage': seq<Usage>, start: nat, count: nat, n: nat)
    requires DistinctUses(usage) && Forgets(usage, usage') && n < |usage| && usage[n].used
    requires !usage'[n].used || !(start <= n < start + count)
    ensures UnnamedIn(usage', start, count, usage[n].device, usage[n].vector)
  {
    forall m: nat | start <= m < start + count ensures !Names(usage', m, usage[n].device, usage[n].vector) {
      if m < |usage| && usage'[m].used {
        assert usage'[m] == usage[m] && m != n;
        assert m < n || n < m;
      }
    }
  }

  /** What the handling of a request does to the emulation. */
  ghost predicate RequestEffect(env: Env, emu: Emu, view: View, request: Request, o: Outcome)
    requires env.limit <= |emu.t|
  {
    if request.InvalidateInterrupts? then
      var r := InvRange(env, emu, request.start, request.count, view.irt);
      o.emu == r.emu && o.result.Ok? == r.result.Ok?
    else if request.WriteStatus? && view.statusMapped then
      o == Outcome(Ok(0), emu.(status := emu.status + [(request.address, request.data)]))
    else
      o == Outcome(Err(EINVAL), emu)
  }

  lemma HandleEffect(env: Env, emu: Emu, slot: nat, view: View, desc: RawDesc)
    requires env.limit <= |emu.t| && Reads(view, slot, desc)
    ensures RequestEffect(env, emu, view, Decode(desc, |emu.usage|), Handle(env, emu, slot, view))
  {
  }

  /** The emulation on its way through the queue; `usage` is the usage map from the start. */
  ghost predicate OnTheWay(env: Env, usage: seq<Usage>, regions: Regions, irt: GuestTable, n: nat, now: Emu, done: bool) {
    && EmuInv(env, now, regions) && Forgets(usage, now.usage) && n < |usage|
    && Refreshed(env, now.t, now.usage, irt, n, usage[n], done)
  }

  /** Handling one descriptor successfully. */
  lemma HandleRefreshes(env: Env, usage: seq<Usage>, emu: Emu, regions: Regions, slot: nat, view: View, desc: RawDesc,
                        n: nat, done: bool, o: Outcome)
    requires OnTheWay(env, usage, regions, view.irt, n, emu, done) && DistinctUses(usage) && UsageOk(usage) && usage[n].used
    requires Reads(view, slot, desc) && o == Handle(env, emu, slot, view) && o.result.Ok?
    ensures OnTheWay(env, usage, regions, view.irt, n, o.emu, done || AsksFor(desc, |usage|, n))
  {
    HandleEffect(env, emu, slot, view, desc);
    var request := Decode(desc, |usage|);
    if request.InvalidateInterrupts? {
      var from, count := request.start, request.count;
      RangeKeepsInv(env, emu, regions, from, count, view.irt);
      RangeForgets(env, emu, from, count, view.irt);
      ForgetsTransitive(usage, emu.usage, InvRange(env, emu, from, count, view.irt).emu.usage);
      RangeRefreshes(env, usage, emu, regions, from, count, view.irt, n, done);
    }
  }

  /** The descriptors that a tail write finds, and a guest table that does not change meanwhile. */
  ghost predicate Queued(iqh: nat, views: nat -> View, descs: seq<RawDesc>, irt: GuestTable) {
    forall j :: 0 <= j < |descs| ==> Reads(views(j), SlotAt(iqh, j), descs[j]) && views(j).irt == irt
  }

  ghost predicate AnyAsksFor(descs: seq<RawDesc>, irtEntries: nat, n: nat) {
    exists j :: 0 <= j < |descs| && AsksFor(descs[j], irtEntries, n)
  }

  lemma AsksForOneMore(descs: seq<RawDesc>, k: nat, irtEntries: nat, n: nat)
    requires k < |descs|
    ensures AnyAsksFor(descs[..k + 1], irtEntries, n) <==> AnyAsksFor(descs[..k], irtEntries, n) || AsksFor(descs[k], irtEntries, n)
  {
    if AnyAsksFor(descs[..k], irtEntries, n) {
      var j :| 0 <= j < k && AsksFor(descs[..k][j], irtEntries, n);
      assert AsksFor(descs[..k + 1][j], irtEntries, n);
    }
    if AsksFor(descs[k], irtEntries, n) {
      assert AsksFor(descs[..k + 1][k], irtEntries, n);
    }
    if AnyAsksFor(descs[..k + 1], irtEntries, n) {
      var j :| 0 <= j < k + 1 && AsksFor(descs[..k + 1][j], irtEntries, n);
      assert j < k ==> AsksFor(descs[..k][j], irtEntries, n);
    }
  }

  /** What a run through the queue starts from. */
  ghost predicate QueueReady(env: Env, emu: Emu, regions: Regions, iqh: nat, views: nat -> View, descs: seq<RawDesc>,
                             irt: GuestTable, n: nat)
  {
    && EmuInv(env, emu, regions) && Queued(iqh, views, descs, irt)
    && DistinctUses(emu.usage) && UsageOk(emu.usage) && n < |emu.usage| && emu.usage[n].used
  }

  /** Descriptor `j` takes the emulation from one state to the next. */
  ghost predicate Handles(env: Env, iqh: nat, views: nat -> View, j: nat, before: Emu, after: Emu) {
    env.limit <= |before.t| &&
    var o := Handle(env, before, SlotAt(iqh, j), views(j));
    o.result.Ok? && o.emu == after
  }

  /** The states that the handling of the descriptors passes through. */
  ghost predicate IsQueueTrace(env: Env, iqh: nat, views: nat -> View, trace: seq<Emu>) {
    trace != [] &&
    var n := |trace| - 1;
    n > 0 ==> IsQueueTrace(env, iqh, views, trace[..n]) && Handles(env, iqh, views, n - 1, trace[n - 1], trace[n])
  }

  lemma ExtendQueueTrace(env: Env, iqh: nat, views: nat -> View, trace: seq<Emu>, j: nat, after: Emu)
    requires IsQueueTrace(env, iqh, views, trace) && j == |trace| - 1 && Handles(env, iqh, views, j, trace[j], after)
    ensures IsQueueTrace(env, iqh, views, trace + [after])
  {
    assert (trace + [after])[..|trace|] == trace;
  }

  lemma {:induction false} QueueTrace(env: Env, emu: Emu, iqh: nat, k: nat, views: nat -> View, o: Outcome)
    returns (trace: seq<Emu>)
    requires env.limit <= |emu.t| && o == HandleAll(env, emu, iqh, k, views) && o.result.Ok?
    ensures |trace| == k + 1 && trace[0] == emu && trace[k] == o.emu && IsQueueTrace(env, iqh, views, trace)
    decreases k
  {
    trace := [emu];
    if k > 0 {
      var before := HandleAll(env, emu, iqh, k - 1, views);
      LastDescriptor(env, emu, iqh, k, views, before, o);
      trace := QueueTrace(env, emu, iqh, k - 1, views, before);
      ExtendQueueTrace(env, iqh, views, trace, k - 1, o.emu);
      trace := trace + [o.emu];
    }
  }

  lemma {:induction false} TraceRefreshes(env: Env, emu: Emu, regions: Regions, iqh: nat, views: nat -> View, descs: seq<RawDesc>,
                                          irt: GuestTable, n: nat, trace: seq<Emu>)
    requires QueueReady(env, emu, regions, iqh, views, descs, irt, n)
    requires IsQueueTrace(env, iqh, views, trace) && trace[0] == emu && |trace| <= |descs| + 1
    ensures OnTheWay(env, emu.usage, regions, irt, n, trace[|trace| - 1], AnyAsksFor(descs[..|trace| - 1], |emu.usage|, n))
    decreases |trace|
  {
    var k := |trace| - 1;
    if k > 0 {
      TraceRefreshes(env, emu, regions, iqh, views, descs, irt, n, trace[..k]);
      QueueStep(env, emu.usage, regions, iqh, k - 1, views, descs, irt, n, trace[k - 1], trace[k]);
    } else {
      QueueStart(env, emu, regions, iqh, views, descs, irt, n);
    }
  }

  lemma QueueStart(env: Env, emu: Emu, regions: Regions, iqh: nat, views: nat -> View, descs: seq<RawDesc>, irt: GuestTable, n: nat)
    requires QueueReady(env, emu, regions, iqh, views, descs, irt, n)
    ensures OnTheWay(env, emu.usage, regions, irt, n, emu, AnyAsksFor(descs[..0], |emu.usage|, n))
  {
  }

  lemma QueueStep(env: Env, usage: seq<Usage>, regions: Regions, iqh: nat, k: nat, views: nat -> View, descs: seq<RawDesc>,
                  irt: GuestTable, n: nat, now: Emu, after: Emu)
    requires k < |descs| && Queued(iqh, views, descs, irt) && DistinctUses(usage) && UsageOk(usage)
    requires OnTheWay(env, usage, regions, irt, n, now, AnyAsksFor(descs[..k], |usage|, n)) && usage[n].used
    requires Handles(env, iqh, views, k, now, after)
    ensures OnTheWay(env, usage, regions, irt, n, after, AnyAsksFor(descs[..k + 1], |usage|, n))
  {
    AsksForOneMore(descs, k, |usage|, n);
    HandleRefreshes(env, usage, now, regions, SlotAt(iqh, k), views(k), descs[k], n, AnyAsksFor(descs[..k], |usage|, n),
                    Handle(env, now, SlotAt(iqh, k), views(k)));
  }

  lemma LastDescriptor(env: Env, emu: Emu, iqh: nat, k: nat, views: nat -> View, before: Outcome, o: Outcome)
    requires env.limit <= |emu.t| && k > 0 && before == HandleAll(env, emu, iqh, k - 1, views)
    requires o == HandleAll(env, emu, iqh, k, views) && o.result.Ok?
    ensures before.result.Ok? && Handles(env, iqh, views, k - 1, before.emu, o.emu)
  {
  }

  lemma QueueRefreshes(env: Env, emu: Emu, regions: Regions, iqh: nat, views: nat -> View, descs: seq<RawDesc>, irt: GuestTable,
                       n: nat, o: Outcome)
    requires QueueReady(env, emu, regions, iqh, views, descs, irt, n)
    requires o == HandleAll(env, emu, iqh, |descs|, views) && o.result.Ok?
    ensures OnTheWay(env, emu.usage, regions, irt, n, o.emu, AnyAsksFor(descs, |emu.usage|, n))
  {
    assert descs[..|descs|] == descs;
    var trace := QueueTrace(env, emu, iqh, |descs|, views, o);
    TraceRefreshes(env, emu, regions, iqh, views, descs, irt, n, trace);
  }

  /**
   The emulated queue keeps its promise: after a tail write that has been handled, every used index that any of
   the pending descriptors asks for is coherent with the guest's table.
   */
  lemma TailWriteRefreshes(env: Env, emu: Emu, regions: Regions, iqh: nat, tail: nat, views: nat -> View, iqh': nat, emu': Emu,
                           descs: seq<RawDesc>, irt: GuestTable, n: nat)
    requires EmuInv(env, emu, regions) && Outcomes(env, emu, iqh, tail, views, Handled, iqh', emu')
    requires |descs| == Pending(iqh, tail) && Queued(iqh, views, descs, irt)
    requires DistinctUses(emu.usage) && UsageOk(emu.usage) && n < |emu.usage| && emu.usage[n].used
    requires AnyAsksFor(descs, |emu.usage|, n)
    ensures EmuInv(env, emu', regions) && Coherent(env, emu'.t, emu.usage[n], irt(n))
  {
    QueueRefreshes(env, emu, regions, iqh, views, descs, irt, n, HandleAll(env, emu, iqh, Pending(iqh, tail), views));
  }

  /** In particular, one pending index request refreshes the 2^mask indices from its own on. */
  lemma IndexRequestRefreshes(env: Env, emu: Emu, regions: Regions, iqh: nat, tail: nat, views: nat -> View, iqh': nat, emu': Emu,
                              index: bv64, mask: bv64, hi: bv64, n: nat)
    requires EmuInv(env, emu, regions) && Outcomes(env, emu, iqh, tail, views, Handled, iqh', emu')
    requires Pending(iqh, tail) == 1 && index < 0x1_0000 && mask < 32
    requires Reads(views(0), SlotAt(iqh, 0), RawDesc(IndexWord(index, mask), hi))
    requires DistinctUses(emu.usage) && UsageOk(emu.usage) && n < |emu.usage| && emu.usage[n].used
    requires index as nat <= n < index as nat + Pow2(mask as nat)
    ensures Coherent(env, emu'.t, emu.usage[n], views(0).irt(n))
  {
    var descs := [RawDesc(IndexWord(index, mask), hi)];
    IndexRequestDecodes(index, mask, hi, |emu.usage|);
    assert AsksFor(descs[0], |emu.usage|, n);
    TailWriteRefreshes(env, emu, regions, iqh, tail, views, iqh', emu', descs, views(0).irt, n);
  }

  /** One pending global request refreshes all used indices. */
  lemma GlobalRequestRefreshes(env: Env, emu: Emu, regions: Regions, iqh: nat, tail: nat, views: nat -> View, iqh': nat, emu': Emu,
                               hi: bv64, n: nat)
    requires EmuInv(env, emu, regions) && Outcomes(env, emu, iqh, tail, views, Handled, iqh', emu')
    requires Pending(iqh, tail) == 1 && Reads(views(0), SlotAt(iqh, 0), RawDesc(GLOBAL_INT_WORD, hi))
    requires DistinctUses(emu.usage) && UsageOk(emu.usage) && n < |emu.usage| && emu.usage[n].used
    ensures Coherent(env, emu'.t, emu.usage[n], views(0).irt(n))
  {
    var descs := [RawDesc(GLOBAL_INT_WORD, hi)];
    OtherRequestsDecode(false, 0, hi, |emu.usage|);
    assert AsksFor(descs[0], |emu.usage|, n);
    TailWriteRefreshes(env, emu, regions, iqh, tail, views, iqh', emu', descs, views(0).irt, n);
  }

  /**
   One pending wait request writes its status data to the aligned address and changes nothing else, or is refused
   if that page is not mapped.
   */
  lemma WaitRequestWritesStatus(env: Env, emu: Emu, iqh: nat, tail: nat, views: nat -> View, r: MmioResult, iqh': nat, emu': Emu,
                                fence: bool, data: bv64, address: bv64)
    requires env.limit <= |emu.t| && Outcomes(env, emu, iqh, tail, views, r, iqh', emu')
    requires Pending(iqh, tail) == 1 && data < 0x1_0000_0000
    requires Reads(views(0), SlotAt(iqh, 0), RawDesc(WaitWord(fence, data), address))
    ensures r == (if views(0).statusMapped then Handled else Error)
    ensures emu' == if views(0).statusMapped then emu.(status := emu.status + [(address & !3, data)]) else emu
  {
    OtherRequestsDecode(fence, data, address, |emu.usage|);
    HandleEffect(env, emu, SlotAt(iqh, 0), views(0), RawDesc(WaitWord(fence, data), address));
    HandleNext(env, emu, iqh, 0, views);
  }

  /** Anything but an interrupt invalidation and a wait with a status write and no interrupt ends the queue untouched. */
  lemma OthersAreRefused(env: Env, emu: Emu, slot: nat, view: View, desc: RawDesc)
    requires env.limit <= |emu.t| && Reads(view, slot, desc)
    requires desc.lo & 0xf != 4 && (desc.lo & 0xf != 5 || desc.lo & 0x30 != 0x20)
    ensures Handle(env, emu, slot, view) == Outcome(Err(EINVAL), emu)
  {
    StatusBits(desc.lo);
  }

  lemma StatusBits(lo: bv64)
    ensures lo & 0x30 == 0x20 <==> lo & 0x10 == 0 && lo & 0x20 != 0
  {
  }

  /** How two used indices come to name one interrupt: setting it up at a new index leaves the old one in use. */
  lemma MovedInterruptUsedTwice(usage: seq<Usage>, m: nat, n: nat, d: Device, v: nat, entry: Irte)
    requires Names(usage, m, d, v) && n < |usage| && n != m && v < VECTOR_FIELD
    ensures Names(Record(usage, n, d, v, Some(entry)), m, d, v) && Names(Record(usage, n, d, v, Some(entry)), n, d, v)
    ensures !DistinctUses(Record(usage, n, d, v, Some(entry)))
  {
    var u := Record(usage, n, d, v, Some(entry));
    assert u[n].used && u[m].used && u[n].device == u[m].device && u[n].vector == u[m].vector;
    if m < n {
      assert !DistinctUses(u);
    } else {
      assert !DistinctUses(u);
    }
  }

  /**
   Coherence fails inside the range: an interrupt that the guest has disabled at index `n` stays enabled if the
   last index used for it still enables it.
   */
  lemma StaleUseWins(env: Env, emu: Emu, regions: Regions, start: nat, count: nat, irt: GuestTable,
                     n: nat, m: nat, d: Device, v: nat)
    requires EmuInv(env, emu, regions) && InvRange(env, emu, start, count, irt).result.Ok?
    requires start <= n < m && Names(emu.usage, n, d, v) && LastUse(emu.usage, start, count, m, d, v)
    requires Denies(irt(n), d) && !Denies(irt(m), d)
    ensures MapIndex(emu.t, env.limit, d, v).Ok?
    ensures InvRange(env, emu, start, count, irt).emu.t[MapIndex(emu.t, env.limit, d, v).value].lo.p
    ensures !Coherent(env, InvRange(env, emu, start, count, irt).emu.t, emu.usage[n], irt(n))
  {
    RangeReflects(env, emu, regions, start, count, irt, m, d, v);
    HandleIsMapIndex(env, emu, regions, d, v);
    CoherentIff(env, emu, regions, start, count, irt, n, m);
  }

  /**
   It also fails outside the range: when the guest has moved an interrupt to index `n` and clears and invalidates
   its old index, the interrupt is disabled although the guest's entry at `n` still enables it.
   */
  lemma StaleUseDisables(env: Env, emu: Emu, regions: Regions, start: nat, count: nat, irt: GuestTable,
                         n: nat, m: nat, d: Device, v: nat)
    requires EmuInv(env, emu, regions) && InvRange(env, emu, start, count, irt).result.Ok?
    requires !(start <= n < start + count) && Names(emu.usage, n, d, v) && LastUse(emu.usage, start, count, m, d, v)
    requires !Denies(irt(n), d) && Denies(irt(m), d)
    ensures MapIndex(emu.t, env.limit, d, v).Ok?
    ensures !InvRange(env, emu, start, count, irt).emu.t[MapIndex(emu.t, env.limit, d, v).value].lo.p
    ensures !Coherent(env, InvRange(env, emu, start, count, irt).emu.t, emu.usage[n], irt(n))
  {
    RangeReflects(env, emu, regions, start, count, irt, m, d, v);
    HandleIsMapIndex(env, emu, regions, d, v);
    CoherentIff(env, emu, regions, start, count, irt, n, m);
  }

  // ---- Whose entries an invalidation touches ----

  /** Which target a device belongs to. */
  type Owners = Device -> nat

  const ROOT_TARGET: nat := 0

  /** No access from position `from` of the log on is to an entry of another target's device. */
  ghost predicate TouchesOnlyRoot(regions: Regions, owner: Owners, log: seq<Access>, from: nat) {
    forall k, d :: from <= k < |log| && !log[k].Forget? && OwnedBy(regions, d, log[k].index) ==> owner(d) == ROOT_TARGET
  }

  ghost predicate UsesOnlyRoot(owner: Owners, usage: seq<Usage>, start: nat, count: nat) {
    forall n :: start <= n < start + count && n < |usage| && usage[n].used ==> owner(usage[n].device) == ROOT_TARGET
  }

  lemma HandleOwner(env: Env, emu: Emu, regions: Regions, d: Device, v: nat, c: Device)
    requires EmuInv(env, emu, regions) && HandleOf(regions, d, v).Some?
    ensures OwnedBy(regions, c, HandleOf(regions, d, v).value) <==> c == d
  {
    var h := HandleOf(regions, d, v).value;
    assert OwnedBy(regions, d, h);
    if OwnedBy(regions, c, h) {
      RegionsDisjoint(emu.t, env.limit, regions, c, d, h);
    }
  }

  /** The accesses of one index are to the entries of the device that the index is used for. */
  lemma StepTouches(env: Env, emu: Emu, regions: Regions, irt: GuestTable, m: nat, before: Emu, after: Emu, owner: Owners, from: nat)
    requires EmuInv(env, emu, regions) && IsStep(env, emu.usage, regions, irt, m, before, after) && from <= |before.log|
    ensures before.log <= after.log
    ensures TouchesOnlyRoot(regions, owner, after.log, from)
            <==> TouchesOnlyRoot(regions, owner, before.log, from) && UsesOnlyRoot(owner, emu.usage, m, 1)
  {
    forall k | from <= k < |before.log| ensures after.log[k] == before.log[k] {
    }
    if m < |emu.usage| && emu.usage[m].used {
      var d := emu.usage[m].device;
      forall c: Device ensures OwnedBy(regions, c, HandleOf(regions, d, emu.usage[m].vector).value) <==> c == d {
        HandleOwner(env, emu, regions, d, emu.usage[m].vector, c);
      }
      assert !after.log[|before.log|].Forget? && OwnedBy(regions, d, after.log[|before.log|].index);
    }
  }

  lemma {:induction false} TraceTouches(env: Env, emu: Emu, regions: Regions, irt: GuestTable, start: nat, trace: seq<Emu>, owner: Owners)
    requires EmuInv(env, emu, regions) && IsTrace(env, emu.usage, regions, irt, start, trace) && trace[0] == emu
    ensures emu.log <= trace[|trace| - 1].log
    ensures TouchesOnlyRoot(regions, owner, trace[|trace| - 1].log, |emu.log|)
            <==> UsesOnlyRoot(owner, emu.usage, start, |trace| - 1)
    decreases |trace|
  {
    var n := |trace| - 1;
    if n > 0 {
      TraceTouches(env, emu, regions, irt, start, trace[..n], owner);
      StepTouches(env, emu, regions, irt, start + n - 1, trace[n - 1], trace[n], owner, |emu.log|);
    }
  }

  /**
   A successful range invalidation accesses entries of the root target's devices only if and only if every used
   index in the range names an interrupt of such a device: the emulation does not look at the owner.
   */
  lemma TouchesOnlyRootIff(env: Env, emu: Emu, regions: Regions, start: nat, count: nat, irt: GuestTable, owner: Owners)
    requires EmuInv(env, emu, regions) && InvRange(env, emu, start, count, irt).result.Ok?
    ensures emu.log <= InvRange(env, emu, start, count, irt).emu.log
    ensures TouchesOnlyRoot(regions, owner, InvRange(env, emu, start, count, irt).emu.log, |emu.log|)
            <==> UsesOnlyRoot(owner, emu.usage, start, count)
  {
    var trace := RangeTrace(env, emu, regions, start, count, irt);
    TraceTouches(env, emu, regions, irt, start, trace, owner);
  }

  /**
   The usage map keeps ten bits of a vector. A later invalidation of the index therefore updates the entry
   that was set up for the interrupt exactly when the vector is below 1024.
   */
  lemma RecordedVectorExact(t: Table, limit: nat, regions: Regions, usage: seq<Usage>, index: nat, d: Device,
                            vector: nat, entry: Irte)
    requires TableInv(t, limit, regions) && MapIndex(t, limit, d, vector).Ok? && index < |usage|
    ensures var u := Record(usage, index, d, vector, Some(entry))[index];
      u.used && u.device == d && (MapIndex(t, limit, d, u.vector) == MapIndex(t, limit, d, vector) <==> vector < VECTOR_FIELD)
  {
    MapIndexExact(t, limit, regions, d, vector);
    MapIndexExact(t, limit, regions, d, vector % VECTOR_FIELD);
  }
}
