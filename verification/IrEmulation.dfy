/**
 The emulated invalidation queue of vtd.c: the root target goes on writing requests to its own queue, and
 each interrupt-cache invalidation copies the root target's remapping entries into the physical table.
 */
module IrEmulation {
  import opened Common
  import opened IntRemapTable
  import opened IntRemapSafety

  const PAGE_SIZE: nat := 4096
  const DESC_SIZE: nat := 16
  /** irte_usage.vector is a 10-bit field. */
  const VECTOR_FIELD: nat := 1024

  const FSTS_REG: nat := 0x34
  const FECTL_REG: nat := 0x38
  const FEUADDR_REG: nat := 0x44
  const IQT_REG: nat := 0x88

  /** struct vtd_irte_usage: which interrupt of which device uses a guest index. */
  datatype Usage = Usage(device: Device, vector: nat, used: bool)

  /** An invalidation descriptor as the guest wrote it. */
  datatype RawDesc = RawDesc(lo: bv64, hi: bv64)

  /**
   What the emulation changes: usage map, physical table, and the status words written to guest memory. `log` is
   the history of accesses to the table.
   */
  datatype Emu = Emu(usage: seq<Usage>, t: Table, log: seq<Access>, status: seq<(bv64, bv64)>)

  datatype Outcome = Outcome(result: Result<nat>, emu: Emu)

  /** `filter` is apic_filter_irq_dest for the root target. */
  datatype Env = Env(limit: nat, units: nat, x2apic: bool, filter: Message -> Option<Message>)

  /** The guest's remapping table as read entry by entry; None where its page is not mapped. */
  type GuestTable = nat -> Option<Irte>

  /** What the emulation reads from the guest while it handles one descriptor. */
  datatype View = View(queue: Option<seq<RawDesc>>, irt: GuestTable, statusMapped: bool)

  const NO_MESSAGE := Message(false, 0, 0, false, false, false, 0)

  /** xAPIC in flat mode keeps the APIC ID in bits 15:8 of an entry's destination. */
  function ApicId(destination: bv32, x2apic: bool): bv32 {
    if x2apic then destination else destination >> 8
  }

  /** The message that a guest entry stands for, when used by the given device. */
  function GuestMessage(entry: Option<Irte>, x2apic: bool, d: Device): Message {
    match entry
    case None => NO_MESSAGE
    case Some(e) =>
      Message(e.lo.p && e.hi.sid == d, e.lo.vector, e.lo.mode, e.lo.destLogical, e.lo.level, e.lo.redirHint,
              ApicId(e.lo.destination, x2apic))
  }

  /** The usage map after iommu_get_remapped_root_int. */
  function Record(usage: seq<Usage>, index: nat, d: Device, vector: nat, entry: Option<Irte>): (u: seq<Usage>)
    ensures |u| == |usage|
  {
    if index >= |usage| then usage
    else usage[index := if entry.None? then usage[index].(used := false) else Usage(d, vector % VECTOR_FIELD, true)]
  }

  function InvIndex(env: Env, emu: Emu, n: nat, entry: Option<Irte>): Outcome
    requires env.limit <= |emu.t|
  {
    if n >= |emu.usage| || !emu.usage[n].used then Outcome(Ok(0), emu)
    else
      var d, v := emu.usage[n].device, emu.usage[n].vector;
      var msg := GuestMessage(entry, env.x2apic, d);
      var accesses := MapAccesses(emu.t, env.limit, env.units, env.x2apic, d, v, msg, env.filter(msg));
      var emu' := Emu(Record(emu.usage, n, d, v, entry), Play(emu.t, accesses), emu.log + accesses, emu.status);
      match MapPlan(emu.t, env.limit, env.x2apic, d, v, msg, env.filter(msg))
      case Err(e) => Outcome(Err(e), emu')
      case Ok(plan) => Outcome(Ok(plan.0), emu')
  }

  /** Indices start, start + 1, ... in order, up to the first error. */
  function InvRange(env: Env, emu: Emu, start: nat, count: nat, irt: GuestTable): (o: Outcome)
    requires env.limit <= |emu.t|
    ensures |o.emu.t| == |emu.t| && |o.emu.usage| == |emu.usage|
  {
    if count == 0 then Outcome(Ok(0), emu)
    else
      var o := InvRange(env, emu, start, count - 1, irt);
      if o.result.Err? then o else InvIndex(env, o.emu, start + count - 1, irt(start + count - 1))
  }

  lemma {:induction false} ErrorEndsRange(env: Env, emu: Emu, start: nat, k: nat, count: nat, irt: GuestTable)
    requires env.limit <= |emu.t| && k <= count && InvRange(env, emu, start, k, irt).result.Err?
    ensures InvRange(env, emu, start, count, irt) == InvRange(env, emu, start, k, irt)
  {
    if k < count {
      ErrorEndsRange(env, emu, start, k, count - 1, irt);
    }
  }

  // ---- Descriptors ----

  datatype Request = InvalidateInterrupts(start: nat, count: nat) | WriteStatus(address: bv64, data: bv64) | Unsupported

  function Pow2(n: nat): nat {
    if n == 0 then 1 else 2 * Pow2(n - 1)
  }

  /** Section 6.5.2 of the VT-d specification: type in bits 3:0, index mask in 31:27, index in 47:32. */
  function Decode(desc: RawDesc, irtEntries: nat): Request {
    if desc.lo & 0xf == 4 then
      if desc.lo & 0x10 != 0 then
        InvalidateInterrupts(((desc.lo & 0xffff_0000_0000) >> 32) as nat, Pow2(((desc.lo & 0xf800_0000) >> 27) as nat))
      else
        InvalidateInterrupts(0, irtEntries)
    else if desc.lo & 0xf == 5 && desc.lo & 0x10 == 0 && desc.lo & 0x20 != 0 then
      WriteStatus(desc.hi & !3, desc.lo >> 32)
    else
      Unsupported
  }

  /** The requests that this driver itself writes, bit by bit. */
  function IndexWord(index: bv64, mask: bv64): bv64 {
    4 | 0x10 | (index << 32) | (mask << 27)
  }

  const GLOBAL_INT_WORD: bv64 := 4
  /** Status write, with or without fence, and the status data. */
  function WaitWord(fence: bool, data: bv64): bv64 {
    5 | 0x20 | (if fence then 0x40 else 0) | (data << 32)
  }

  lemma IndexBits(index: bv64, mask: bv64)
    requires index < 0x1_0000 && mask < 32
    ensures (4 | 0x10 | (index << 32) | (mask << 27)) & 0xf == 4 && (4 | 0x10 | (index << 32) | (mask << 27)) & 0x10 != 0
    ensures ((4 | 0x10 | (index << 32) | (mask << 27)) & 0xffff_0000_0000) >> 32 == index
    ensures ((4 | 0x10 | (index << 32) | (mask << 27)) & 0xf800_0000) >> 27 == mask
  {
  }

  /** An index request, composed as the driver composes its own with mask 0, means 2^mask indices from `index` on. */
  lemma IndexRequestDecodes(index: bv64, mask: bv64, hi: bv64, irtEntries: nat)
    requires index < 0x1_0000 && mask < 32
    ensures Decode(RawDesc(IndexWord(index, mask), hi), irtEntries) == InvalidateInterrupts(index as nat, Pow2(mask as nat))
  {
    IndexBits(index, mask);
  }

  lemma WaitBits(fence: bool, data: bv64)
    requires data < 0x1_0000_0000
    ensures WaitWord(fence, data) & 0xf == 5 && WaitWord(fence, data) & 0x10 == 0 && WaitWord(fence, data) & 0x20 != 0
    ensures WaitWord(fence, data) >> 32 == data
  {
  }

  /** A global request means all entries; a wait request writes its data to the aligned address. */
  lemma OtherRequestsDecode(fence: bool, data: bv64, address: bv64, irtEntries: nat)
    requires data < 0x1_0000_0000
    ensures Decode(RawDesc(GLOBAL_INT_WORD, address), irtEntries) == InvalidateInterrupts(0, irtEntries)
    ensures Decode(RawDesc(WaitWord(fence, data), address), irtEntries) == WriteStatus(address & !3, data)
  {
    WaitBits(fence, data);
  }

  /** vtd_emulate_qi_request on the descriptor in the given slot of the guest's queue page. */
  function Handle(env: Env, emu: Emu, slot: nat, view: View): (o: Outcome)
    requires env.limit <= |emu.t|
    ensures |o.emu.t| == |emu.t| && |o.emu.usage| == |emu.usage|
  {
    if view.queue.None? || slot >= |view.queue.value| then Outcome(Err(EINVAL), emu)
    else
      match Decode(view.queue.value[slot], |emu.usage|)
      case InvalidateInterrupts(start, count) =>
        var o := InvRange(env, emu, start, count, view.irt);
        if o.result.Err? then o else Outcome(Ok(0), o.emu)
      case WriteStatus(address, data) =>
        if view.statusMapped then Outcome(Ok(0), emu.(status := emu.status + [(address, data)]))
        else Outcome(Err(EINVAL), emu)
      case Unsupported => Outcome(Err(EINVAL), emu)
  }

  /** The slot of the k-th descriptor behind queue offset `iqh`, with wrap-around at the page end. */
  function SlotAt(iqh: nat, k: nat): nat {
    (iqh / DESC_SIZE + k) % (PAGE_SIZE / DESC_SIZE)
  }

  /** The first `k` descriptors from offset `iqh` on, in ring order, up to the first bad one. */
  function HandleAll(env: Env, emu: Emu, iqh: nat, k: nat, views: nat -> View): (o: Outcome)
    requires env.limit <= |emu.t|
    ensures |o.emu.t| == |emu.t| && |o.emu.usage| == |emu.usage|
  {
    if k == 0 then Outcome(Ok(0), emu)
    else
      var o := HandleAll(env, emu, iqh, k - 1, views);
      if o.result.Err? then o else Handle(env, o.emu, SlotAt(iqh, k - 1), views(k - 1))
  }

  /** Number of descriptors between two offsets. */
  function Pending(iqh: nat, tail: nat): nat {
    (tail / DESC_SIZE - iqh / DESC_SIZE) % (PAGE_SIZE / DESC_SIZE)
  }

  lemma HandleNext(env: Env, emu: Emu, iqh: nat, k: nat, views: nat -> View)
    requires env.limit <= |emu.t| && HandleAll(env, emu, iqh, k, views).result.Ok?
    ensures HandleAll(env, emu, iqh, k + 1, views)
            == Handle(env, HandleAll(env, emu, iqh, k, views).emu, SlotAt(iqh, k), views(k))
  {
  }

  function NextDescriptor(offset: nat): nat {
    (offset + DESC_SIZE) % PAGE_SIZE
  }

  /** The queue offset `k` descriptors further on. */
  function OffsetAt(iqh: nat, k: nat): nat {
    (iqh + DESC_SIZE * k) % PAGE_SIZE
  }

  predicate QueueOffset(offset: nat) {
    offset < PAGE_SIZE && offset % DESC_SIZE == 0
  }

  lemma TailMask(value: bv64)
    ensures value & 0x7fff0 & 0xfff == ((value >> 4) & 0xff) << 4
    ensures (value >> 4) & 0xff < 0x100
  {
  }

  lemma SlotBits(x: bv64)
    requires x < 0x100
    ensures (x << 4) as nat == 16 * (x as nat) && x as nat < 256
  {
  }

  /** value & VTD_IQT_QT_MASK & PAGE_OFFS_MASK is the offset of the tail's slot: the low eight bits of the index. */
  lemma TailSlot(value: bv64)
    ensures (value & 0x7fff0 & 0xfff) as nat == DESC_SIZE * (((value >> 4) & 0xff) as nat)
    ensures QueueOffset((value & 0x7fff0 & 0xfff) as nat)
  {
    TailMask(value);
    SlotBits((value >> 4) & 0xff);
  }

  function TailOffset(value: bv64): (tail: nat)
    ensures QueueOffset(tail) && tail == DESC_SIZE * (((value >> 4) & 0xff) as nat)
  {
    TailSlot(value);
    (value & 0x7fff0 & 0xfff) as nat
  }

  lemma NextIsOffset(offset: nat)
    requires QueueOffset(offset)
    ensures QueueOffset(NextDescriptor(offset))
  {
    assert offset == DESC_SIZE * (offset / DESC_SIZE);
  }

  /** Offsets counted in whole descriptors. */
  lemma OffsetInSlots(i: nat, k: nat)
    requires i < PAGE_SIZE / DESC_SIZE && k < PAGE_SIZE / DESC_SIZE
    ensures OffsetAt(DESC_SIZE * i, k)
            == DESC_SIZE * if i + k < PAGE_SIZE / DESC_SIZE then i + k else i + k - PAGE_SIZE / DESC_SIZE
  {
  }

  lemma PendingInSlots(i: nat, j: nat)
    requires i < PAGE_SIZE / DESC_SIZE && j < PAGE_SIZE / DESC_SIZE
    ensures Pending(DESC_SIZE * i, DESC_SIZE * j) == if j >= i then j - i else j - i + PAGE_SIZE / DESC_SIZE
  {
  }

  lemma NextOffset(iqh0: nat, k: nat, tail: nat)
    requires QueueOffset(iqh0) && QueueOffset(tail) && k <= Pending(iqh0, tail)
    ensures QueueOffset(OffsetAt(iqh0, k)) && (OffsetAt(iqh0, k) == tail <==> k == Pending(iqh0, tail))
    ensures OffsetAt(iqh0, k) / DESC_SIZE == SlotAt(iqh0, k)
    ensures NextDescriptor(OffsetAt(iqh0, k)) == OffsetAt(iqh0, k + 1)
    ensures OffsetAt(iqh0, 0) == iqh0
  {
    var i, j := iqh0 / DESC_SIZE, tail / DESC_SIZE;
    assert iqh0 == DESC_SIZE * i && tail == DESC_SIZE * j;
    PendingInSlots(i, j);
    OffsetInSlots(i, k);
    OffsetInSlots(i, 0);
  }

  datatype MmioResult = Handled | Error

  /**
   What a tail write may end in: all pending descriptors handled in ring order and the head on the tail, or
   the head on the first bad descriptor and exactly those in front of it handled.
   */
  ghost predicate Outcomes(env: Env, emu: Emu, iqh: nat, tail: nat, views: nat -> View,
                           r: MmioResult, iqh': nat, emu': Emu)
    requires env.limit <= |emu.t|
  {
    var n := Pending(iqh, tail);
    match r
    case Handled =>
      iqh' == tail && HandleAll(env, emu, iqh, n, views).result.Ok? && emu' == HandleAll(env, emu, iqh, n, views).emu
    case Error =>
      exists k :: 0 <= k < n && iqh' == OffsetAt(iqh, k)
        && HandleAll(env, emu, iqh, k, views).result.Ok?
        && HandleAll(env, emu, iqh, k + 1, views).result.Err?
        && emu' == HandleAll(env, emu, iqh, k + 1, views).emu
  }

  lemma StartOfQueue(env: Env, emu: Emu, iqh: nat, tail: nat, views: nat -> View)
    requires env.limit <= |emu.t| && QueueOffset(iqh) && QueueOffset(tail)
    ensures HandleAll(env, emu, iqh, 0, views) == Outcome(Ok(0), emu) && OffsetAt(iqh, 0) == iqh
  {
    NextOffset(iqh, 0, tail);
  }

  lemma EndOfQueue(env: Env, emu: Emu, iqh: nat, tail: nat, views: nat -> View, k: nat, now: Emu)
    requires env.limit <= |emu.t| && QueueOffset(iqh) && QueueOffset(tail) && k <= Pending(iqh, tail)
    requires HandleAll(env, emu, iqh, k, views) == Outcome(Ok(0), now) && OffsetAt(iqh, k) == tail
    ensures Outcomes(env, emu, iqh, tail, views, Handled, tail, now)
  {
    NextOffset(iqh, k, tail);
  }

  /** Handling the descriptor at the head either brings the head one descriptor closer to the tail or ends the write. */
  lemma Round(env: Env, emu: Emu, iqh: nat, tail: nat, views: nat -> View, k: nat, now: Emu)
    requires env.limit <= |emu.t| && QueueOffset(iqh) && QueueOffset(tail) && k <= Pending(iqh, tail)
    requires HandleAll(env, emu, iqh, k, views) == Outcome(Ok(0), now) && OffsetAt(iqh, k) != tail
    ensures var at, o := OffsetAt(iqh, k), Handle(env, now, OffsetAt(iqh, k) / DESC_SIZE, views(k));
      && k < Pending(iqh, tail) && QueueOffset(at)
      && if o.result.Ok? then
           HandleAll(env, emu, iqh, k + 1, views) == Outcome(Ok(0), o.emu) && NextDescriptor(at) == OffsetAt(iqh, k + 1)
         else Outcomes(env, emu, iqh, tail, views, Error, at, o.emu)
  {
    NextOffset(iqh, k, tail);
    HandleNext(env, emu, iqh, k, views);
  }

  /** The conversion of a 64-bit value to u32. */
  function LowWord(value: bv64): (w: bv32)
    ensures w as bv64 == value % 0x1_0000_0000
  {
    (value & 0xffff_ffff) as bv32
  }

  // ---- The driver ----

  class Emulation {
    const irt: RemapTable
    const usage: array<Usage> // irte_map; its length is irt_entries
    const faultRegs: array<bv32>
    var iqh: nat
    var status: seq<(bv64, bv64)>

    ghost predicate Valid()
      reads this, irt
    {
      irt.Valid() && QueueOffset(iqh) && faultRegs.Length == 4 && faultRegs as object != usage
    }

    constructor (irt: RemapTable, irtEntries: nat, iqh: nat)
      requires irt.Valid() && QueueOffset(iqh)
      ensures Valid() && this.irt == irt && this.iqh == iqh && status == []
      ensures fresh(usage) && fresh(faultRegs) && usage.Length == irtEntries
      ensures forall n :: 0 <= n < irtEntries ==> !usage[n].used
    {
      this.irt, this.iqh, status := irt, iqh, [];
      usage := new Usage[irtEntries](_ => Usage(0, 0, false));
      faultRegs := new bv32[4](_ => 0);
    }

    ghost function State(): Emu
      reads this`status, usage, irt`log, irt.table
    {
      Emu(usage[..], irt.table[..], irt.log, status)
    }

    ghost function EnvOf(filter: Message -> Option<Message>): Env {
      Env(irt.limit, irt.units, irt.x2apic, filter)
    }

    /** iommu_get_remapped_root_int. */
    method GetRemappedRootInt(d: Device, vector: nat, index: nat, entry: Option<Irte>) returns (msg: Message)
      modifies usage
      ensures usage[..] == Record(old(usage[..]), index, d, vector, entry)
      ensures msg == if index < usage.Length then GuestMessage(entry, irt.x2apic, d) else NO_MESSAGE
    {
      msg := NO_MESSAGE;
      if index >= usage.Length {
        return;
      }
      ghost var before := usage[..];
      usage[index] := usage[index].(used := false);
      if entry.None? {
        assert usage[..] == before[index := before[index].(used := false)];
        return;
      }
      var e := entry.value;
      var destination := ApicId(e.lo.destination, irt.x2apic);
      msg := Message(e.lo.p && e.hi.sid == d, e.lo.vector, e.lo.mode, e.lo.destLogical, e.lo.level, e.lo.redirHint,
                     destination);
      usage[index] := Usage(d, vector % VECTOR_FIELD, true);
      assert usage[..] == before[index := Usage(d, vector % VECTOR_FIELD, true)];
    }

    /** vtd_emulate_inv_int. */
    method EmulateInvInt(index: nat, entry: Option<Irte>, filter: Message -> Option<Message>) returns (r: Result<nat>)
      requires irt.Valid() && usage as object != irt.table
      modifies usage, irt`log, irt.table
      ensures Outcome(r, Emu(usage[..], irt.table[..], irt.log, status)) == InvIndex(EnvOf(filter), old(State()), index, entry)
    {
      if index >= usage.Length || !usage[index].used {
        return Ok(0);
      }
      var u := usage[index];
      var msg := GetRemappedRootInt(u.device, u.vector, index, entry);
      r := irt.MapInterrupt(u.device, u.vector, msg, filter(msg));
    }

    /** The loop over an index range in vtd_emulate_qi_request. */
    method EmulateInvRange(start: nat, count: nat, guest: GuestTable, filter: Message -> Option<Message>)
      returns (r: Result<nat>)
      requires irt.Valid() && usage as object != irt.table
      modifies usage, irt`log, irt.table
      ensures var o := InvRange(EnvOf(filter), old(State()), start, count, guest);
        State() == o.emu && r == if o.result.Ok? then Ok(0) else o.result
    {
      var n := start;
      while n < start + count
        invariant start <= n <= start + count
        invariant InvRange(EnvOf(filter), old(State()), start, n - start, guest).emu == State()
        invariant InvRange(EnvOf(filter), old(State()), start, n - start, guest).result.Ok?
      {
        var result := EmulateInvInt(n, guest(n), filter);
        assert Outcome(result, State()) == InvRange(EnvOf(filter), old(State()), start, n + 1 - start, guest);
        if result.Err? {
          ErrorEndsRange(EnvOf(filter), old(State()), start, n + 1 - start, count, guest);
          assert InvRange(EnvOf(filter), old(State()), start, count, guest) == Outcome(result, State());
          return result;
        }
        n := n + 1;
      }
      assert n - start == count;
      return Ok(0);
    }

    /** vtd_emulate_qi_request, with the fetch of the descriptor in front of it. */
    method EmulateRequest(slot: nat, view: View, filter: Message -> Option<Message>) returns (r: Result<nat>)
      requires irt.Valid() && usage as object != irt.table
      modifies this`status, usage, irt`log, irt.table
      ensures var o := Handle(EnvOf(filter), old(State()), slot, view);
        State() == o.emu && r.Ok? == o.result.Ok?
    {
      if view.queue.None? || slot >= |view.queue.value| {
        return Err(EINVAL);
      }
      match Decode(view.queue.value[slot], usage.Length)
      case InvalidateInterrupts(start, count) =>
        r := EmulateInvRange(start, count, view.irt, filter);
      case WriteStatus(address, data) =>
        if !view.statusMapped {
          return Err(EINVAL);
        }
        status := status + [(address, data)];
        return Ok(0);
      case Unsupported =>
        return Err(EINVAL);
    }

    /** One round of the loop over the queue: the head moves on behind a handled descriptor only. */
    method HandleHead(view: View, filter: Message -> Option<Message>) returns (ok: bool)
      requires Valid() && usage as object != irt.table
      modifies this, usage, irt`log, irt.table
      ensures var o := Handle(EnvOf(filter), old(State()), old(iqh) / DESC_SIZE, view);
        Valid() && State() == o.emu && ok == o.result.Ok?
      ensures iqh == if ok then NextDescriptor(old(iqh)) else old(iqh)
    {
      var result := EmulateRequest(iqh / DESC_SIZE, view, filter);
      ok := result.Ok?;
      NextIsOffset(iqh);
      if ok {
        iqh := (iqh + DESC_SIZE) % PAGE_SIZE;
      }
    }

    /**
     The tail-register branch of vtd_unit_access_handler: handles exactly the descriptors between the old
     head and the new tail, in ring order, and ends with the head on the tail; or stops with the head on the
     first bad descriptor.
     */
    method WriteTail(value: bv64, views: nat -> View, filter: Message -> Option<Message>) returns (r: MmioResult)
      requires Valid() && usage as object != irt.table
      modifies this, usage, irt`log, irt.table
      ensures Valid()
      ensures Outcomes(EnvOf(filter), old(State()), old(iqh), TailOffset(value), views, r, iqh, State())
    {
      var tail := TailOffset(value);
      ghost var env, emu, iqh0 := EnvOf(filter), State(), iqh;
      ghost var now := emu;
      var k: nat := 0; // numbers the reads of guest memory
      StartOfQueue(env, emu, iqh0, tail, views);
      while iqh != tail
        invariant Valid() && k <= Pending(iqh0, tail) && iqh == OffsetAt(iqh0, k)
        invariant now == State() && HandleAll(env, emu, iqh0, k, views) == Outcome(Ok(0), now)
        decreases Pending(iqh0, tail) - k
      {
        Round(env, emu, iqh0, tail, views, k, now);
        var ok := HandleHead(views(k), filter);
        if !ok {
          return Error;
        }
        now := State();
        k := k + 1;
      }
      EndOfQueue(env, emu, iqh0, tail, views, k, now);
      return Handled;
    }

    /**
     vtd_unit_access_handler: fault status reads as zero, the four fault-event registers are shadowed, a
     write to the queue tail runs the queue, and anything else is an error.
     */
    method Access(address: nat, isWrite: bool, value: bv64, views: nat -> View, filter: Message -> Option<Message>)
      returns (r: MmioResult, read: bv64)
      requires Valid() && usage as object != irt.table && faultRegs as object != irt.table
      modifies this, usage, faultRegs, irt`log, irt.table
      ensures Valid()
      ensures address == FSTS_REG && !isWrite ==> r == Handled && read == 0
      ensures FECTL_REG <= address <= FEUADDR_REG ==>
        r == Handled && var reg := (address - FECTL_REG) / 4;
        if isWrite then faultRegs[..] == old(faultRegs[..])[reg := LowWord(value)] else read == faultRegs[reg] as bv64
      ensures !(FECTL_REG <= address <= FEUADDR_REG && isWrite) ==> faultRegs[..] == old(faultRegs[..])
      ensures address == IQT_REG && isWrite ==>
        Outcomes(EnvOf(filter), old(State()), old(iqh), TailOffset(value), views, r, iqh, State())
      ensures !(address == IQT_REG && isWrite) ==> iqh == old(iqh) && State() == old(State())
      ensures address < FECTL_REG && (address != FSTS_REG || isWrite) ==> r == Error
      ensures address > FEUADDR_REG && (address != IQT_REG || !isWrite) ==> r == Error
    {
      read := 0;
      if address == FSTS_REG && !isWrite {
        return Handled, 0;
      }
      if FECTL_REG <= address <= FEUADDR_REG {
        var reg := (address - FECTL_REG) / 4;
        if isWrite {
          faultRegs[reg] := LowWord(value);
        } else {
          read := faultRegs[reg] as bv64;
        }
        return Handled, read;
      }
      if address == IQT_REG && isWrite {
        r := WriteTail(value, views, filter);
        return r, 0;
      }
      return Error, 0;
    }
  }
}
