/**
 Giving a PCI device to a target and taking it away (vtd.c): a region of the interrupt remapping table and
 an entry in the context tables, together or not at all.
 */
module PciDevices {
  import opened Common
  import opened IntRemapTable
  import opened IntRemapSafety
  import opened ContextTables

  /** The table after vtd_reserve_int_remap_region, or its error. */
  function Reserved(t: Table, limit: nat, d: Device, length: nat): (r: Result<Table>)
    requires limit <= |t|
    ensures r.Ok? ==> |r.value| == |t|
  {
    if length == 0 || Find(t, limit, d).Some? then Ok(t)
    else
      match FirstFit(t, limit, length)
      case None => Err(E2BIG)
      case Some(start) => Ok(Play(t, ReserveAccesses(start, length, d)))
  }

  /** The table after vtd_free_int_remap_region. */
  function Freed(t: Table, limit: nat, units: nat, d: Device, length: nat): (t': Table)
    requires limit <= |t|
    ensures |t'| == |t|
  {
    match Find(t, limit, d)
    case None => t
    case Some(pos) => Play(t, FreeAccesses(units, pos, Inside(t, pos, length)))
  }

  /** A region that a call has just reserved can be freed with the same length. */
  lemma ReservedFits(t: Table, limit: nat, d: Device, length: nat)
    requires limit <= |t| && Reserved(t, limit, d, length).Ok?
    ensures Overruns(Reserved(t, limit, d, length).value, limit, d, length) == Overruns(t, limit, d, length)
  {
    if length > 0 && Find(t, limit, d).None? {
      ReserveThenFree(t, limit, 0, d, length);
    }
  }

  class Iommu {
    const irt: RemapTable
    const root: array<RootEntry>
    const levels: nat // dmar_pt_levels
    var pages: map<nat, seq<CtxEntry>>

    constructor (irt: RemapTable, levels: nat)
      ensures this.irt == irt && this.levels == levels && fresh(root)
      ensures State() == NoTables()
    {
      this.irt, this.levels, pages := irt, levels, map[];
      root := new RootEntry[ENTRIES](_ => RootEntry(false, 0));
      new;
      assert root[..] == NoTables().root;
    }

    ghost predicate Valid()
      reads this, root
    {
      irt.Valid() && Shape(State()) && root as object != irt.table
    }

    ghost function State(): Tables
      reads this, root
    {
      Tables(root[..], pages)
    }

    /**
     iommu_add_pci_device; `page` is the answer of page_alloc, should it be asked. `overrun` tells that the error
     path would go on freeing behind the interrupt remapping table.
     */
    method AddDevice(d: Device, maxVectors: nat, t: Target, page: Option<nat>) returns (r: Result<nat>, overrun: bool)
      requires Valid() && maxVectors < 0x1_0000_0000
      requires page.Some? ==> page.value !in pages
      modifies this, root, irt`log, irt.table
      ensures Valid()
      ensures match Reserved(old(irt.table[..]), irt.limit, d, maxVectors)
        case Err(e) => r == Err(e) && State() == old(State()) && irt.table[..] == old(irt.table[..])
        case Ok(reserved) =>
          match Add(old(State()), levels, d, t, page)
          case Ok(s) => r == Ok(0) && State() == s && irt.table[..] == reserved
          case Err(e) =>
            && r == Err(e) && State() == old(State())
            && irt.table[..] == Freed(reserved, irt.limit, irt.units, d, maxVectors)
      ensures overrun <==> r == Err(ENOMEM) && Overruns(old(irt.table[..]), irt.limit, d, maxVectors)
    {
      overrun := false;
      ghost var before := irt.table[..];
      var reservation := irt.ReserveRegion(d, maxVectors);
      if reservation.Err? {
        return reservation, false;
      }
      ReservedFits(before, irt.limit, d, maxVectors);
      var bus, devfn := d / 256, d % 256;
      var frame: nat;
      if root[bus].present {
        frame := root[bus].frame;
      } else {
        if page.None? {
          overrun := irt.FreeRegion(d, maxVectors);
          return Err(ENOMEM), overrun;
        }
        frame := page.value;
        pages := pages[frame := ZeroPage()];
        root[bus] := RootEntry(true, frame);
      }
      pages := pages[frame := pages[frame][devfn := CtxEntry(true, t.frame, if levels == 3 then Agaw39 else Agaw48, t.did)]];
      return Ok(0), false;
    }

    /** iommu_remove_pci_device, for a device on a bus that has a context table. */
    method RemoveDevice(d: Device, maxVectors: nat) returns (overrun: bool)
      requires Valid() && State().root[Bus(d)].present
      modifies this, root, irt`log, irt.table
      ensures State() == Remove(old(State()), d)
      ensures irt.table[..] == Freed(old(irt.table[..]), irt.limit, irt.units, d, maxVectors)
      ensures overrun == Overruns(old(irt.table[..]), irt.limit, d, maxVectors)
    {
      overrun := irt.FreeRegion(d, maxVectors);
      var bus, devfn := d / 256, d % 256;
      var frame := root[bus].frame;
      pages := pages[frame := pages[frame][devfn := pages[frame][devfn].(present := false)]];
      ghost var table := pages[frame];
      var n := 0;
      while n < 256
        invariant n <= 256
        invariant forall k :: 0 <= k < n ==> !table[k].present
      {
        if pages[frame][n].present {
          assert AnyPresent(table);
          return overrun;
        }
        n := n + 1;
      }
      assert !AnyPresent(table);
      root[bus] := root[bus].(present := false);
      pages := pages - {frame};
    }
  }

  // ---- Which interrupts a device has ----

  lemma ReservedInv(t: Table, limit: nat, regions: Regions, d: Device, length: nat)
    requires TableInv(t, limit, regions) && d !in regions && length > 0 && FirstFit(t, limit, length).Some?
    ensures var start := FirstFit(t, limit, length).value;
      TableInv(Play(t, ReserveAccesses(start, length, d)), limit, regions[d := Region(start, length)])
  {
    var start := FirstFit(t, limit, length).value;
    var t', regions' := Play(t, ReserveAccesses(start, length, d)), regions[d := Region(start, length)];
    PlayReserve(t, start, length, d);
    forall c | c in regions' ensures RegionOk(t', limit, regions', c) {
      if c != d {
        assert RegionOk(t, limit, regions, c);
        forall n | regions[c].start <= n < regions[c].start + regions[c].length ensures AssignedTo(t', n, c) {
          assert AssignedTo(t, n, c);
        }
      }
    }
    forall n | 0 <= n < |t'|
      ensures t'[n].lo.isAssigned ==> OwnedBy(regions', t'[n].hi.sid, n)
      ensures t'[n].lo.p ==> t'[n].lo.isAssigned
      ensures SafeEntry(regions', n, t'[n])
    {
      assert SafeEntry(regions, n, t[n]) && (t[n].lo.isAssigned ==> OwnedBy(regions, t[n].hi.sid, n));
    }
  }

  lemma FreedInv(t: Table, limit: nat, units: nat, regions: Regions, d: Device)
    requires TableInv(t, limit, regions) && d in regions
    ensures TableInv(Freed(t, limit, units, d, regions[d].length), limit, regions - {d})
  {
    FindIsRegionStart(t, limit, regions, d);
    assert RegionOk(t, limit, regions, d);
    var r, regions' := regions[d], regions - {d};
    var t' := Freed(t, limit, units, d, r.length);
    PlayFree(t, units, r.start, r.length);
    forall c | c in regions' ensures RegionOk(t', limit, regions', c) {
      assert RegionOk(t, limit, regions, c);
      forall n | regions[c].start <= n < regions[c].start + regions[c].length ensures AssignedTo(t', n, c) {
        assert AssignedTo(t, n, c) && !AssignedTo(t, n, d);
      }
    }
    forall n | 0 <= n < |t'|
      ensures t'[n].lo.isAssigned ==> OwnedBy(regions', t'[n].hi.sid, n)
      ensures t'[n].lo.p ==> t'[n].lo.isAssigned
      ensures SafeEntry(regions', n, t'[n])
    {
      assert SafeEntry(regions, n, t[n]) && (t[n].lo.isAssigned ==> OwnedBy(regions, t[n].hi.sid, n));
    }
  }

  lemma ReservedIndex(t: Table, limit: nat, regions: Regions, d: Device, length: nat, c: Device, v: nat)
    requires TableInv(t, limit, regions) && d !in regions && length > 0 && FirstFit(t, limit, length).Some?
    ensures var start := FirstFit(t, limit, length).value;
      MapIndex(Play(t, ReserveAccesses(start, length, d)), limit, c, v)
      == if c == d then (if v < length then Ok(start + v) else Err(ERANGE))
         else if c !in regions then Err(ENOENT)
         else if v < regions[c].length then Ok(regions[c].start + v)
         else Err(ERANGE)
  {
    var start := FirstFit(t, limit, length).value;
    ReservedInv(t, limit, regions, d, length);
    MapIndexExact(Play(t, ReserveAccesses(start, length, d)), limit, regions[d := Region(start, length)], c, v);
  }

  /**
   A device that is added can use exactly the interrupts it asked for, in the first free window, and no other device
   gains or loses one.
   */
  lemma AddedDeviceMaps(t: Table, limit: nat, regions: Regions, d: Device, length: nat, c: Device, v: nat)
    requires TableInv(t, limit, regions) && d !in regions && length > 0 && Reserved(t, limit, d, length).Ok?
    ensures FirstFit(t, limit, length).Some?
    ensures MapIndex(Reserved(t, limit, d, length).value, limit, c, v)
            == if c != d then MapIndex(t, limit, c, v)
               else if v < length then Ok(FirstFit(t, limit, length).value + v)
               else Err(ERANGE)
  {
    FindIsRegionStart(t, limit, regions, d);
    ReservedIndex(t, limit, regions, d, length, c, v);
    MapIndexExact(t, limit, regions, c, v);
  }

  /** A device that is removed, with the number of vectors it was added with, has no interrupt left; others keep theirs. */
  lemma RemovedDeviceMaps(t: Table, limit: nat, units: nat, regions: Regions, d: Device, c: Device, v: nat)
    requires TableInv(t, limit, regions) && d in regions
    ensures MapIndex(Freed(t, limit, units, d, regions[d].length), limit, c, v)
            == if c != d then MapIndex(t, limit, c, v) else Err(ENOENT)
  {
    FreedInv(t, limit, units, regions, d);
    MapIndexExact(t, limit, regions, c, v);
    MapIndexExact(Freed(t, limit, units, d, regions[d].length), limit, regions - {d}, c, v);
  }

  /**
   An add that fails for lack of memory leaves the context tables alone, and it leaves the interrupt
   assignments alone exactly when the device had no region before (or asked for no vectors): a region that
   existed before is freed by the error path.
   */
  lemma FailedAddRollsBack(t: Table, limit: nat, units: nat, regions: Regions, d: Device, length: nat)
    requires TableInv(t, limit, regions) && Reserved(t, limit, d, length).Ok?
    ensures Assignment(Freed(Reserved(t, limit, d, length).value, limit, units, d, length)) == Assignment(t)
            <==> d !in regions || length == 0
  {
    FindIsRegionStart(t, limit, regions, d);
    if length > 0 {
      if d in regions {
        FreeingUnassigns(t, limit, units, regions, d, length);
      } else {
        ReserveThenFree(t, limit, units, d, length);
      }
    } else if d in regions {
      assert FreeAccesses(units, regions[d].start, 0) == [];
    }
  }

  lemma FreeingUnassigns(t: Table, limit: nat, units: nat, regions: Regions, d: Device, length: nat)
    requires TableInv(t, limit, regions) && d in regions && length > 0
    ensures Assignment(Freed(t, limit, units, d, length)) != Assignment(t)
  {
    FindIsRegionStart(t, limit, regions, d);
    var pos := regions[d].start;
    assert RegionOk(t, limit, regions, d) && AssignedTo(t, pos, d);
    PlayFree(t, units, pos, Inside(t, pos, length));
    assert Assignment(t)[pos] == Some(d) && Assignment(Freed(t, limit, units, d, length))[pos] == None;
  }

  /**
   Freeing reaches behind the table exactly when the device has a region that starts too close to the end for the
   length: never for the length the region was reserved with, and never for a region reserved by the same call.
   */
  lemma OverrunsIff(t: Table, limit: nat, regions: Regions, d: Device, length: nat)
    requires TableInv(t, limit, regions)
    ensures Overruns(t, limit, d, length) <==> d in regions && regions[d].start + length > |t|
    ensures d in regions && length <= regions[d].length ==> !Overruns(t, limit, d, length)
    ensures d !in regions && Reserved(t, limit, d, length).Ok? ==> !Overruns(Reserved(t, limit, d, length).value, limit, d, length)
  {
    FindIsRegionStart(t, limit, regions, d);
    if d in regions {
      assert RegionOk(t, limit, regions, d);
    } else if Reserved(t, limit, d, length).Ok? {
      ReservedFits(t, limit, d, length);
    }
  }

  /** Adding a device and removing it again leaves every device's context as it was. */
  lemma AddThenRemoveLookup(s: Tables, levels: nat, d: Device, t: Target, page: Option<nat>, c: Device)
    requires Linked(s) && Lookup(s, d).None? && (page.Some? ==> page.value !in s.pages)
    requires Add(s, levels, d, t, page).Ok?
    ensures Linked(Add(s, levels, d, t, page).value)
    ensures Lookup(Add(s, levels, d, t, page).value, d) == Some(t)
    ensures Linked(Remove(Add(s, levels, d, t, page).value, d))
    ensures Lookup(Remove(Add(s, levels, d, t, page).value, d), c) == Lookup(s, c)
  {
    AddKeepsLinked(s, levels, d, t, page);
    var s1 := Add(s, levels, d, t, page).value;
    AddLookup(s, levels, d, t, page, d);
    AddLookup(s, levels, d, t, page, c);
    RemoveKeepsLinked(s1, d);
    RemoveLookup(s1, d, c);
  }
}
