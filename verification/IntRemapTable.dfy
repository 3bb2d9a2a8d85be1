/**
 The interrupt remapping table of vtd.c (VT-d specification, section 5.1): the first-fit allocator,
 the two-half entry update, and the mapping of a device's interrupts into its own region.
 */
module IntRemapTable {
  import opened Common

  /** A 16-bit bus/device/function number. */
  type Device = d: int | 0 <= d < 0x1_0000

  /** The lower 64 bits of an entry, which the hardware reads and the driver writes in one access. */
  datatype IrteLo = IrteLo(p: bool, fpd: bool, destLogical: bool, redirHint: bool, level: bool, mode: bv3,
                           isAssigned: bool, vector: bv8, destination: bv32)

  /** The upper 64 bits: whose requests may use the entry, and how that is verified. */
  datatype IrteHi = IrteHi(sid: Device, sq: bv2, svt: bv2)

  datatype Irte = Irte(lo: IrteLo, hi: IrteHi)

  const VERIFY_FULL_SID: bv2 := 0
  const VERIFY_SID_SQ: bv2 := 1
  const DLVR_FIXED: bv3 := 0
  const DLVR_LOWPRI: bv3 := 1

  const FREE_LO := IrteLo(false, false, false, false, false, 0, false, 0, 0)

  /** struct apic_irq_message. */
  datatype Message = Message(valid: bool, vector: bv8, mode: bv3, destLogical: bool, level: bool, redirHint: bool,
                             destination: bv32)

  type Table = seq<Irte>

  /**
   What the driver does to the table, access by access. Forget marks the end of freeing a device's
   region; it touches no memory.
   */
  datatype Access =
    | Lo(index: nat, lo: IrteLo)
    | Hi(index: nat, hi: IrteHi)
    | Mark(index: nat)
    | Sid(index: nat, device: Device)
    | Flush(unit: nat, index: nat) // invalidation request for one entry, submitted to one unit
    | Forget(device: Device)

  function Apply(t: Table, a: Access): (t': Table)
    ensures |t'| == |t|
  {
    if a.Flush? || a.Forget? || a.index >= |t| then t
    else
      var e := t[a.index];
      t[a.index := match a
                   case Lo(_, lo) => e.(lo := lo)
                   case Hi(_, hi) => e.(hi := hi)
                   case Mark(_) => e.(lo := e.lo.(isAssigned := true))
                   case Sid(_, d) => e.(hi := e.hi.(sid := d))]
  }

  function Play(t: Table, accesses: seq<Access>): (t': Table)
    ensures |t'| == |t|
    decreases |accesses|
  {
    if accesses == [] then t else Play(Apply(t, accesses[0]), accesses[1..])
  }

  // ---- What each operation does, as functions of the table ----

  predicate AssignedTo(t: Table, n: nat, d: Device)
    requires n < |t|
  {
    t[n].lo.isAssigned && t[n].hi.sid == d
  }

  /** The first entry from `n` on that is assigned to the device. */
  function FindFrom(t: Table, limit: nat, d: Device, n: nat): (r: Option<nat>)
    requires limit <= |t|
    ensures r.Some? ==> n <= r.value < limit && AssignedTo(t, r.value, d)
    ensures forall k :: n <= k < (if r.Some? then r.value else limit) ==> !AssignedTo(t, k, d)
    decreases limit - n
  {
    if n >= limit then None else if AssignedTo(t, n, d) then Some(n) else FindFrom(t, limit, d, n + 1)
  }

  function Find(t: Table, limit: nat, d: Device): Option<nat>
    requires limit <= |t|
  {
    FindFrom(t, limit, d, 0)
  }

  predicate FreeWindow(t: Table, start: nat, length: nat) {
    start + length <= |t| && forall k :: start <= k < start + length ==> !t[k].lo.isAssigned
  }

  /** The least start from `n` on whose window of the given length is wholly free and inside the limit. */
  function FirstFitFrom(t: Table, limit: nat, length: nat, n: nat): (r: Option<nat>)
    requires limit <= |t|
    ensures r.Some? ==> n <= r.value && r.value + length <= limit && FreeWindow(t, r.value, length)
    ensures forall s :: n <= s && s + length <= limit && (r.Some? ==> s < r.value) ==> !FreeWindow(t, s, length)
    decreases limit - n
  {
    if n + length > limit then None
    else if FreeWindow(t, n, length) then Some(n)
    else if n == limit then None
    else FirstFitFrom(t, limit, length, n + 1)
  }

  function FirstFit(t: Table, limit: nat, length: nat): Option<nat>
    requires limit <= |t|
  {
    FirstFitFrom(t, limit, length, 0)
  }

  function ReserveAccesses(n: nat, length: nat, d: Device): seq<Access>
    decreases length
  {
    if length == 0 then [] else [Mark(n), Sid(n, d)] + ReserveAccesses(n + 1, length - 1, d)
  }

  /** One invalidation request per unit, from unit `k` on. */
  function Flushes(k: nat, units: nat, index: nat): seq<Access>
    decreases units - k
  {
    if k >= units then [] else [Flush(k, index)] + Flushes(k + 1, units, index)
  }

  /** Upper half first when the entry is to be present; only the lower half otherwise. */
  function UpdateAccesses(units: nat, index: nat, content: Irte): seq<Access> {
    (if content.lo.p then [Hi(index, content.hi), Lo(index, content.lo)] else [Lo(index, content.lo)])
    + Flushes(0, units, index)
  }

  function FreeAccesses(units: nat, n: nat, length: nat): seq<Access>
    decreases length
  {
    if length == 0 then []
    else UpdateAccesses(units, n, Irte(FREE_LO, IrteHi(0, 0, 0))) + FreeAccesses(units, n + 1, length - 1)
  }

  /** How many of `length` entries from `pos` on lie inside the table. */
  function Inside(t: Table, pos: nat, length: nat): (n: nat)
    requires pos <= |t|
    ensures n <= length && pos + n <= |t| && (n == length || pos + n == |t|)
  {
    if pos + length <= |t| then length else |t| - pos
  }

  /** Freeing `length` entries of the device would reach behind the table. */
  predicate Overruns(t: Table, limit: nat, d: Device, length: nat)
    requires limit <= |t|
  {
    Find(t, limit, d).Some? && Find(t, limit, d).value + length > |t|
  }

  /** Which entry a device's interrupt `vector` goes to. */
  function MapIndex(t: Table, limit: nat, d: Device, vector: nat): (r: Result<nat>)
    requires limit <= |t|
    ensures r.Ok? ==> r.value < limit && AssignedTo(t, r.value, d)
  {
    match Find(t, limit, d)
    case None => Err(ENOENT)
    case Some(base) =>
      if vector >= limit || base >= limit - vector then Err(ERANGE)
      else if !AssignedTo(t, base + vector, d) then Err(ERANGE)
      else Ok(base + vector)
  }

  /**
   The new entry for a message; `filtered` is what apic_filter_irq_dest makes of the message, or None
   if it refuses the destination.
   */
  function MapContent(e: Irte, x2apic: bool, msg: Message, filtered: Option<Message>): Result<Irte> {
    if !msg.valid then Ok(e.(lo := e.lo.(p := false)))
    else if msg.mode != DLVR_FIXED && msg.mode != DLVR_LOWPRI then Err(EINVAL)
    else if filtered.None? then Err(EPERM)
    else
      var m := filtered.value;
      Ok(Irte(IrteLo(true, e.lo.fpd, m.destLogical, m.redirHint, m.level, m.mode, e.lo.isAssigned, m.vector,
                     if x2apic then m.destination else m.destination << 8),
              IrteHi(e.hi.sid, VERIFY_FULL_SID, VERIFY_SID_SQ)))
  }

  /** The entry to write and its new content, or the error. */
  function MapPlan(t: Table, limit: nat, x2apic: bool, d: Device, vector: nat, msg: Message, filtered: Option<Message>)
    : Result<(nat, Irte)>
    requires limit <= |t|
  {
    match MapIndex(t, limit, d, vector)
    case Err(e) => Err(e)
    case Ok(i) =>
      match MapContent(t[i], x2apic, msg, filtered)
      case Err(e) => Err(e)
      case Ok(content) => Ok((i, content))
  }

  function MapAccesses(t: Table, limit: nat, units: nat, x2apic: bool, d: Device, vector: nat, msg: Message,
                       filtered: Option<Message>): seq<Access>
    requires limit <= |t|
  {
    match MapPlan(t, limit, x2apic, d, vector, msg, filtered)
    case Err(_) => []
    case Ok(plan) => UpdateAccesses(units, plan.0, plan.1)
  }

  lemma {:induction false} PlayConcat(t: Table, a: seq<Access>, b: seq<Access>)
    ensures Play(t, a + b) == Play(Play(t, a), b)
    decreases |a|
  {
    if a == [] {
      assert a + b == b;
    } else {
      assert (a + b)[1..] == a[1..] + b;
      PlayConcat(Apply(t, a[0]), a[1..], b);
    }
  }

  lemma PlayFirst(t: Table, a: Access, rest: seq<Access>)
    ensures Play(t, [a] + rest) == Play(Apply(t, a), rest)
  {
    assert ([a] + rest)[1..] == rest;
  }

  lemma ReserveFirst(t: Table, n: nat, length: nat, d: Device)
    requires length > 0
    ensures ReserveAccesses(n, length, d) == [Mark(n), Sid(n, d)] + ReserveAccesses(n + 1, length - 1, d)
    ensures Play(t, ReserveAccesses(n, length, d))
            == Play(Apply(Apply(t, Mark(n)), Sid(n, d)), ReserveAccesses(n + 1, length - 1, d))
  {
    var rest := ReserveAccesses(n + 1, length - 1, d);
    assert ReserveAccesses(n, length, d) == [Mark(n)] + ([Sid(n, d)] + rest);
    PlayFirst(t, Mark(n), [Sid(n, d)] + rest);
    PlayFirst(Apply(t, Mark(n)), Sid(n, d), rest);
  }

  /** The first entry of a reservation, behind the accesses `log` so far. */
  lemma ReserveOne(t: Table, n: nat, left: nat, d: Device, log: seq<Access>)
    requires left > 0
    ensures log + ReserveAccesses(n, left, d) == (log + [Mark(n), Sid(n, d)]) + ReserveAccesses(n + 1, left - 1, d)
    ensures Play(t, ReserveAccesses(n, left, d))
            == Play(Apply(Apply(t, Mark(n)), Sid(n, d)), ReserveAccesses(n + 1, left - 1, d))
  {
    ReserveFirst(t, n, left, d);
    Associate(log, [Mark(n), Sid(n, d)], ReserveAccesses(n + 1, left - 1, d));
  }

  /** The first entry of a release, behind the accesses `log` so far. */
  lemma FreeOne(t: Table, units: nat, pos: nat, left: nat, log: seq<Access>)
    requires left > 0
    ensures var first := UpdateAccesses(units, pos, Irte(FREE_LO, IrteHi(0, 0, 0)));
      && log + FreeAccesses(units, pos, left) == (log + first) + FreeAccesses(units, pos + 1, left - 1)
      && Play(t, FreeAccesses(units, pos, left)) == Play(Play(t, first), FreeAccesses(units, pos + 1, left - 1))
  {
    var first := UpdateAccesses(units, pos, Irte(FREE_LO, IrteHi(0, 0, 0)));
    Associate(log, first, FreeAccesses(units, pos + 1, left - 1));
    PlayConcat(t, first, FreeAccesses(units, pos + 1, left - 1));
  }

  lemma Associate(a: seq<Access>, b: seq<Access>, c: seq<Access>)
    ensures a + (b + c) == (a + b) + c
  {
  }

  lemma {:induction false} PlayFlushes(t: Table, k: nat, units: nat, index: nat)
    ensures Play(t, Flushes(k, units, index)) == t
    decreases units - k
  {
    if k < units {
      assert Flushes(k, units, index)[1..] == Flushes(k + 1, units, index);
      PlayFlushes(t, k + 1, units, index);
    }
  }

  lemma PlayStores(t: Table, units: nat, index: nat, content: Irte)
    requires index < |t|
    ensures Play(t, UpdateAccesses(units, index, content))
            == if content.lo.p then Apply(Apply(t, Hi(index, content.hi)), Lo(index, content.lo)) else Apply(t, Lo(index, content.lo))
  {
    var f := Flushes(0, units, index);
    if content.lo.p {
      assert UpdateAccesses(units, index, content) == [Hi(index, content.hi)] + ([Lo(index, content.lo)] + f);
      PlayFirst(t, Hi(index, content.hi), [Lo(index, content.lo)] + f);
      PlayFirst(Apply(t, Hi(index, content.hi)), Lo(index, content.lo), f);
      PlayFlushes(Apply(Apply(t, Hi(index, content.hi)), Lo(index, content.lo)), 0, units, index);
    } else {
      PlayFirst(t, Lo(index, content.lo), f);
      PlayFlushes(Apply(t, Lo(index, content.lo)), 0, units, index);
    }
  }

  /** An update leaves exactly the content in the entry, except that clearing keeps the upper half. */
  lemma PlayUpdate(t: Table, units: nat, index: nat, content: Irte)
    requires index < |t|
    ensures Play(t, UpdateAccesses(units, index, content))
            == t[index := if content.lo.p then content else t[index].(lo := content.lo)]
  {
    PlayStores(t, units, index, content);
    if content.lo.p {
      assert Apply(Apply(t, Hi(index, content.hi)), Lo(index, content.lo)) == t[index := content];
    }
  }

  // ---- The driver ----

  class RemapTable {
    const limit: nat   // VTD_INTERRUPT_LIMIT()
    const units: nat   // dmar_units
    const x2apic: bool // using_x2apic
    const table: array<Irte>
    /** Every access to the table and every invalidation so far, in order. */
    ghost var log: seq<Access>

    ghost predicate Valid()
    {
      limit <= table.Length && limit < 0x1_0000
    }

    constructor (limit: nat, units: nat, x2apic: bool, size: nat)
      requires limit <= size && limit < 0x1_0000
      ensures Valid() && fresh(table) && this.limit == limit && this.units == units && this.x2apic == x2apic
      ensures table.Length == size && forall n :: 0 <= n < size ==> table[n] == Irte(FREE_LO, IrteHi(0, 0, 0))
      ensures log == []
    {
      this.limit, this.units, this.x2apic := limit, units, x2apic;
      table := new Irte[size](_ => Irte(FREE_LO, IrteHi(0, 0, 0)));
      log := [];
    }

    method StoreLo(index: nat, lo: IrteLo)
      requires index < table.Length
      modifies this`log, table
      ensures log == old(log) + [Lo(index, lo)] && table[..] == Apply(old(table[..]), Lo(index, lo))
    {
      table[index] := table[index].(lo := lo);
      log := log + [Lo(index, lo)];
    }

    method StoreHi(index: nat, hi: IrteHi)
      requires index < table.Length
      modifies this`log, table
      ensures log == old(log) + [Hi(index, hi)] && table[..] == Apply(old(table[..]), Hi(index, hi))
    {
      table[index] := table[index].(hi := hi);
      log := log + [Hi(index, hi)];
    }

    /** vtd_update_irte. */
    method UpdateIrte(index: nat, content: Irte)
      requires index < table.Length
      modifies this`log, table
      ensures log == old(log) + UpdateAccesses(units, index, content)
      ensures table[..] == Play(old(table[..]), UpdateAccesses(units, index, content))
    {
      if content.lo.p {
        StoreHi(index, content.hi);
        StoreLo(index, content.lo);
      } else {
        StoreLo(index, content.lo);
      }
      var n := 0;
      while n < units
        invariant n <= units
        invariant log + Flushes(n, units, index) == old(log) + UpdateAccesses(units, index, content)
        invariant table[..] == old(table[..])[index := if content.lo.p then content else old(table[index]).(lo := content.lo)]
      {
        log := log + [Flush(n, index)];
        n := n + 1;
      }
      PlayUpdate(old(table[..]), units, index, content);
    }

    /** vtd_find_int_remap_region. */
    method FindRegion(d: Device) returns (r: Result<nat>)
      requires Valid()
      ensures r == match Find(table[..], limit, d) case Some(n) => Ok(n) case None => Err(ENOENT)
    {
      var n := 0;
      while n < limit
        invariant n <= limit
        invariant Find(table[..], limit, d) == FindFrom(table[..], limit, d, n)
      {
        if table[n].lo.isAssigned && table[n].hi.sid == d {
          return Ok(n);
        }
        n := n + 1;
      }
      return Err(ENOENT);
    }

    /**
     vtd_reserve_int_remap_region. The one-pass scan finds the first fit; `start + length` is computed in
     32 bits, as in the source.
     */
    method ReserveRegion(d: Device, length: nat) returns (r: Result<nat>)
      requires Valid() && length < 0x1_0000_0000
      modifies this`log, table
      ensures length == 0 || Find(old(table[..]), limit, d).Some? ==> r == Ok(0) && log == old(log) && table[..] == old(table[..])
      ensures length > 0 && Find(old(table[..]), limit, d).None? ==>
        match FirstFit(old(table[..]), limit, length)
        case None => r == Err(E2BIG) && log == old(log) && table[..] == old(table[..])
        case Some(s) =>
          && r == Ok(s) && log == old(log) + ReserveAccesses(s, length, d)
          && table[..] == Play(old(table[..]), ReserveAccesses(s, length, d))
    {
      if length == 0 {
        return Ok(0);
      }
      var found := FindRegion(d);
      if found.Ok? {
        return Ok(0);
      }
      ghost var t := table[..];
      var start: int := -1;
      var n := 0;
      while n < limit
        invariant n <= limit && -1 <= start <= n && table[..] == t && log == old(log)
        invariant start < 0 ==> n == 0 || t[n - 1].lo.isAssigned
        invariant start >= 0 ==> start < n && n - start < length && (start == 0 || t[start - 1].lo.isAssigned)
        invariant start >= 0 ==> forall k :: start <= k < n ==> !t[k].lo.isAssigned
        invariant forall s: nat :: s + length <= n ==> !FreeWindow(t, s, length)
      {
        if table[n].lo.isAssigned {
          start := -1;
        } else {
          if start < 0 {
            start := n;
          }
          if n + 1 == (start + length) % 0x1_0000_0000 {
            assert FreeWindow(t, start, length);
            assert FirstFit(t, limit, length) == Some(start);
            ReserveWindow(d, start, length);
            return Ok(start);
          }
        }
        n := n + 1;
      }
      return Err(E2BIG);
    }

    method MarkEntry(n: nat, d: Device)
      requires n < table.Length
      modifies this`log, table
      ensures log == old(log) + [Mark(n), Sid(n, d)]
      ensures table[..] == Apply(Apply(old(table[..]), Mark(n)), Sid(n, d))
    {
      table[n] := table[n].(lo := table[n].lo.(isAssigned := true));
      log := log + [Mark(n)];
      table[n] := table[n].(hi := table[n].hi.(sid := d));
      log := log + [Sid(n, d)];
    }

    method ReserveWindow(d: Device, start: nat, length: nat)
      requires start + length <= table.Length
      modifies this`log, table
      ensures log == old(log) + ReserveAccesses(start, length, d)
      ensures table[..] == Play(old(table[..]), ReserveAccesses(start, length, d))
    {
      var n := start;
      while n < start + length
        invariant start <= n <= start + length
        invariant log + ReserveAccesses(n, start + length - n, d) == old(log) + ReserveAccesses(start, length, d)
        invariant Play(table[..], ReserveAccesses(n, start + length - n, d))
                  == Play(old(table[..]), ReserveAccesses(start, length, d))
      {
        ReserveOne(table[..], n, start + length - n, d, log);
        MarkEntry(n, d);
        n := n + 1;
      }
    }

    /** The loop of vtd_free_int_remap_region, inside the table. */
    method ClearEntries(start: nat, length: nat)
      requires start + length <= table.Length
      modifies this`log, table
      ensures log == old(log) + FreeAccesses(units, start, length)
      ensures table[..] == Play(old(table[..]), FreeAccesses(units, start, length))
    {
      var pos: nat, left: nat := start, length;
      while left > 0
        invariant left <= length && pos == start + length - left
        invariant log + FreeAccesses(units, pos, left) == old(log) + FreeAccesses(units, start, length)
        invariant Play(table[..], FreeAccesses(units, pos, left)) == Play(old(table[..]), FreeAccesses(units, start, length))
      {
        FreeOne(table[..], units, pos, left, log);
        UpdateIrte(pos, Irte(FREE_LO, IrteHi(0, 0, 0)));
        pos, left := pos + 1, left - 1;
      }
    }

    /**
     vtd_free_int_remap_region. The source does not check that the entries to be freed lie inside the table; here
     the loop stops at the end of the table, and `overrun` tells that the source would go on behind it.
     */
    method FreeRegion(d: Device, length: nat) returns (overrun: bool)
      requires Valid()
      modifies this`log, table
      ensures overrun == Overruns(old(table[..]), limit, d, length)
      ensures match Find(old(table[..]), limit, d)
        case None => log == old(log) && table[..] == old(table[..])
        case Some(pos) =>
          && log == old(log) + FreeAccesses(units, pos, Inside(old(table[..]), pos, length))
          && table[..] == Play(old(table[..]), FreeAccesses(units, pos, Inside(old(table[..]), pos, length)))
    {
      var found := FindRegion(d);
      if found.Err? {
        return false;
      }
      overrun := length > table.Length - found.value;
      ClearEntries(found.value, if overrun then table.Length - found.value else length);
    }

    /** The new content of an entry for a message, in iommu_map_interrupt. */
    method NewContent(entry: Irte, msg: Message, filtered: Option<Message>) returns (r: Result<Irte>)
      ensures r == MapContent(entry, x2apic, msg, filtered)
    {
      var irte := entry.(lo := entry.lo.(p := msg.valid));
      if irte.lo.p {
        if msg.mode != DLVR_FIXED && msg.mode != DLVR_LOWPRI {
          return Err(EINVAL);
        }
        if filtered.None? {
          return Err(EPERM);
        }
        var m := filtered.value;
        irte := irte.(lo := irte.lo.(destLogical := m.destLogical, redirHint := m.redirHint, level := m.level,
                                     mode := m.mode, vector := m.vector, destination := m.destination));
        if !x2apic {
          irte := irte.(lo := irte.lo.(destination := irte.lo.destination << 8));
        }
        irte := irte.(hi := irte.hi.(sq := VERIFY_FULL_SID, svt := VERIFY_SID_SQ));
      }
      return Ok(irte);
    }

    /** iommu_map_interrupt. */
    method MapInterrupt(d: Device, vector: nat, msg: Message, filtered: Option<Message>) returns (r: Result<nat>)
      requires Valid()
      modifies this`log, table
      ensures r == match MapPlan(old(table[..]), limit, x2apic, d, vector, msg, filtered)
                   case Ok(plan) => Ok(plan.0)
                   case Err(e) => Err(e)
      ensures log == old(log) + MapAccesses(old(table[..]), limit, units, x2apic, d, vector, msg, filtered)
      ensures table[..]
              == Play(old(table[..]), MapAccesses(old(table[..]), limit, units, x2apic, d, vector, msg, filtered))
    {
      var base := FindRegion(d);
      if base.Err? {
        return Err(base.error);
      }
      if vector >= limit || base.value >= limit - vector {
        return Err(ERANGE);
      }
      var irte := table[base.value + vector];
      if !irte.lo.isAssigned || irte.hi.sid != d {
        return Err(ERANGE);
      }
      var content := NewContent(irte, msg, filtered);
      if content.Err? {
        return Err(content.error);
      }
      UpdateIrte(base.value + vector, content.value);
      return Ok(base.value + vector);
    }
  }
}
