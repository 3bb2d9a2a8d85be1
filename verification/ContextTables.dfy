/**
 The two-level root and context tables of vtd.c (VT-d specification, sections 9.1 and 9.3), through which
 the hardware finds the domain and the page table of a device.
 */
module ContextTables {
  import opened Common
  import opened IntRemapTable

  /** Context tables and the root table have one entry per device function and per bus. */
  const ENTRIES: nat := 256

  datatype AddressWidth = Agaw39 | Agaw48

  /** The low word of a root entry: bit 0, and the 4K frame of a context table in bits 63:12. */
  datatype RootEntry = RootEntry(present: bool, frame: nat)

  /** A context entry: bit 0 and the frame of the page table in the low word; width and domain id in the high word. */
  datatype CtxEntry = CtxEntry(present: bool, frame: nat, width: AddressWidth, did: nat)

  /** A domain id and the frame of its page table. */
  datatype Target = Target(did: nat, frame: nat)

  /** The root entries, and the context tables by page frame. */
  datatype Tables = Tables(root: seq<RootEntry>, pages: map<nat, seq<CtxEntry>>)

  /**
   The words the driver composes decode to the fields above: the present bit and a page-aligned address do not
   overlap.
   */
  lemma AddressWordDecodes(address: bv64)
    requires address & 0xfff == 0
    ensures (1 | address) & 1 == 1 && (1 | address) & 0xffff_ffff_ffff_f000 == address
  {
  }

  /** Address width and domain id do not overlap in the high word of a context entry. */
  lemma HighWordDecodes(did: bv64, agaw: bv64)
    requires did < 0x1_0000 && agaw < 8
    ensures ((agaw | (did << 8)) >> 8) & 0xffff == did && (agaw | (did << 8)) & 7 == agaw
  {
  }

  function Bus(d: Device): (b: nat)
    ensures b < ENTRIES
  {
    d / 256
  }

  function Devfn(d: Device): (f: nat)
    ensures f < ENTRIES
  {
    d % 256
  }

  predicate Shape(s: Tables) {
    && |s.root| == ENTRIES
    && (forall p :: p in s.pages ==> |s.pages[p]| == ENTRIES)
    && (forall b :: 0 <= b < ENTRIES && s.root[b].present ==> s.root[b].frame in s.pages)
  }

  /** What the hardware finds for a device. */
  function Lookup(s: Tables, d: Device): Option<Target>
    requires Shape(s)
  {
    if !s.root[Bus(d)].present then None
    else
      var e := s.pages[s.root[Bus(d)].frame][Devfn(d)];
      if !e.present then None else Some(Target(e.did, e.frame))
  }

  function MakeEntry(levels: nat, t: Target): CtxEntry {
    CtxEntry(true, t.frame, if levels == 3 then Agaw39 else Agaw48, t.did)
  }

  function ZeroPage(): seq<CtxEntry> {
    seq(ENTRIES, _ => CtxEntry(false, 0, Agaw39, 0))
  }

  function NoTables(): Tables {
    Tables(seq(ENTRIES, _ => RootEntry(false, 0)), map[])
  }

  /** `page` is what page_alloc hands out: a zeroed page not in use, or None. */
  function Add(s: Tables, levels: nat, d: Device, t: Target, page: Option<nat>): (r: Result<Tables>)
    requires Shape(s)
  {
    if s.root[Bus(d)].present then
      var p := s.root[Bus(d)].frame;
      Ok(s.(pages := s.pages[p := s.pages[p][Devfn(d) := MakeEntry(levels, t)]]))
    else if page.None? then Err(ENOMEM)
    else
      Ok(Tables(s.root[Bus(d) := RootEntry(true, page.value)],
                s.pages[page.value := ZeroPage()[Devfn(d) := MakeEntry(levels, t)]]))
  }

  predicate AnyPresent(table: seq<CtxEntry>) {
    exists n :: 0 <= n < |table| && table[n].present
  }

  /** Clears the device's entry, and gives the context table back when it was the last one. */
  function Remove(s: Tables, d: Device): (s': Tables)
    requires Shape(s) && s.root[Bus(d)].present
  {
    var p := s.root[Bus(d)].frame;
    var table := s.pages[p][Devfn(d) := s.pages[p][Devfn(d)].(present := false)];
    if AnyPresent(table) then s.(pages := s.pages[p := table])
    else Tables(s.root[Bus(d) := s.root[Bus(d)].(present := false)], s.pages - {p})
  }

  // ---- The simple map that the tables implement ----

  ghost predicate FramesDistinct(root: seq<RootEntry>) {
    forall b, c :: 0 <= b < c < |root| && root[b].present && root[c].present ==> root[b].frame != root[c].frame
  }

  predicate Linking(root: seq<RootEntry>, b: nat, p: nat) {
    b < |root| && root[b].present && root[b].frame == p
  }

  ghost predicate PageOk(s: Tables, p: nat)
    requires p in s.pages
  {
    AnyPresent(s.pages[p]) && exists b :: Linking(s.root, b, p)
  }

  /** Present root entries name different context tables, none of them empty, and there are no others. */
  ghost predicate Linked(s: Tables) {
    && Shape(s)
    && FramesDistinct(s.root)
    && (forall p :: p in s.pages ==> PageOk(s, p))
  }

  ghost predicate Refines(s: Tables, ctx: map<Device, Target>) {
    Linked(s) && forall d: Device :: Lookup(s, d) == if d in ctx then Some(ctx[d]) else None
  }

  lemma SplitDevice(c: Device, d: Device)
    ensures Bus(c) == Bus(d) && Devfn(c) == Devfn(d) ==> c == d
  {
  }

  lemma AddKeepsLinked(s: Tables, levels: nat, d: Device, t: Target, page: Option<nat>)
    requires Linked(s) && (page.Some? ==> page.value !in s.pages)
    ensures match Add(s, levels, d, t, page)
      case Ok(s') => Linked(s')
      case Err(e) => e == ENOMEM && !s.root[Bus(d)].present && page.None?
  {
    var r := Add(s, levels, d, t, page);
    if r.Ok? {
      var s' := r.value;
      var frame := s'.root[Bus(d)].frame;
      assert s'.pages[frame][Devfn(d)].present;
      forall p | p in s'.pages ensures PageOk(s', p) {
        if p in s.pages {
          assert PageOk(s, p);
          var b :| Linking(s.root, b, p);
          assert Linking(s'.root, b, p);
        } else {
          assert Linking(s'.root, Bus(d), p);
        }
      }
    }
  }

  lemma AddLookup(s: Tables, levels: nat, d: Device, t: Target, page: Option<nat>, c: Device)
    requires Linked(s) && (page.Some? ==> page.value !in s.pages)
    requires Add(s, levels, d, t, page).Ok? && Shape(Add(s, levels, d, t, page).value)
    ensures Lookup(Add(s, levels, d, t, page).value, c) == if c == d then Some(t) else Lookup(s, c)
  {
    SplitDevice(c, d);
  }

  lemma RemoveKeepsLinked(s: Tables, d: Device)
    requires Linked(s) && s.root[Bus(d)].present
    ensures Linked(Remove(s, d))
  {
    var s' := Remove(s, d);
    forall p | p in s'.pages ensures PageOk(s', p) {
      assert PageOk(s, p);
      var b :| Linking(s.root, b, p);
      assert Linking(s'.root, b, p);
    }
  }

  lemma RemoveLookup(s: Tables, d: Device, c: Device)
    requires Linked(s) && s.root[Bus(d)].present && Shape(Remove(s, d))
    ensures Lookup(Remove(s, d), c) == if c == d then None else Lookup(s, c)
  {
    SplitDevice(c, d);
    var p := s.root[Bus(d)].frame;
    var table := s.pages[p][Devfn(d) := s.pages[p][Devfn(d)].(present := false)];
    assert c != d && Bus(c) == Bus(d) ==> table[Devfn(c)] == s.pages[p][Devfn(c)];
  }

  lemma AddRefines(s: Tables, ctx: map<Device, Target>, levels: nat, d: Device, t: Target, page: Option<nat>)
    requires Refines(s, ctx) && (page.Some? ==> page.value !in s.pages)
    ensures match Add(s, levels, d, t, page)
      case Ok(s') => Refines(s', ctx[d := t])
      case Err(e) => e == ENOMEM && !s.root[Bus(d)].present && page.None?
  {
    AddKeepsLinked(s, levels, d, t, page);
    if Add(s, levels, d, t, page).Ok? {
      forall c: Device ensures Lookup(Add(s, levels, d, t, page).value, c) == if c == d then Some(t) else Lookup(s, c) {
        AddLookup(s, levels, d, t, page, c);
      }
    }
  }

  lemma RemoveRefines(s: Tables, ctx: map<Device, Target>, d: Device)
    requires Refines(s, ctx) && s.root[Bus(d)].present
    ensures Refines(Remove(s, d), ctx - {d})
  {
    RemoveKeepsLinked(s, d);
    forall c: Device ensures Lookup(Remove(s, d), c) == if c == d then None else Lookup(s, c) {
      RemoveLookup(s, d, c);
    }
  }

  // ---- Runs ----

  datatype Event = AddDevice(device: Device, target: Target, page: Option<nat>) | RemoveDevice(device: Device)

  /** Tables and map side by side; None when a caller's obligation is violated. */
  function Exec(levels: nat, run: seq<Event>): Option<(Tables, map<Device, Target>)> {
    if run == [] then Some((NoTables(), map[]))
    else
      match Exec(levels, run[..|run| - 1])
      case None => None
      case Some((s, ctx)) =>
        match run[|run| - 1]
        case AddDevice(d, t, page) =>
          if !Shape(s) || (page.Some? && page.value in s.pages) then None
          else (match Add(s, levels, d, t, page) case Ok(s') => Some((s', ctx[d := t])) case Err(_) => Some((s, ctx)))
        case RemoveDevice(d) =>
          if !Shape(s) || !s.root[Bus(d)].present then None
          else Some((Remove(s, d), ctx - {d}))
  }

  lemma {:induction false} RunRefines(levels: nat, run: seq<Event>)
    requires Exec(levels, run).Some?
    ensures Refines(Exec(levels, run).value.0, Exec(levels, run).value.1)
  {
    if run != [] {
      var prefix := run[..|run| - 1];
      RunRefines(levels, prefix);
      var (s, ctx) := Exec(levels, prefix).value;
      match run[|run| - 1]
      case AddDevice(d, t, page) => AddRefines(s, ctx, levels, d, t, page);
      case RemoveDevice(d) => RemoveRefines(s, ctx, d);
    }
  }

  ghost function UsedBuses(ctx: map<Device, Target>): set<nat> {
    set d | d in ctx :: Bus(d)
  }

  /** A bus's root entry is present exactly when the bus has a device. */
  lemma BusPresentIffUsed(levels: nat, run: seq<Event>, b: nat)
    requires Exec(levels, run).Some? && b < ENTRIES
    ensures var (s, ctx) := Exec(levels, run).value;
      |s.root| == ENTRIES && (s.root[b].present <==> b in UsedBuses(ctx))
  {
    RunRefines(levels, run);
    var (s, ctx) := Exec(levels, run).value;
    if s.root[b].present {
      assert PageOk(s, s.root[b].frame);
      var n :| 0 <= n < ENTRIES && s.pages[s.root[b].frame][n].present;
      var c: Device := b * 256 + n;
      assert Bus(c) == b && Devfn(c) == n && Lookup(s, c).Some?;
    }
    forall d | d in ctx ensures s.root[Bus(d)].present {
      assert Lookup(s, d) == Some(ctx[d]);
    }
  }

  lemma {:induction false} ImageSize(root: seq<RootEntry>, buses: set<nat>, pages: set<nat>)
    requires forall b :: b in buses ==> b < |root| && root[b].frame in pages
    requires forall b, c :: b in buses && c in buses && b != c ==> root[b].frame != root[c].frame
    requires forall p :: p in pages ==> exists b :: b in buses && root[b].frame == p
    ensures |buses| == |pages|
  {
    if buses == {} {
      assert pages == {};
    } else {
      var b :| b in buses;
      var p := root[b].frame;
      forall q | q in pages - {p} ensures exists c :: c in buses - {b} && root[c].frame == q {
        var c :| c in buses && root[c].frame == q;
        assert c in buses - {b};
      }
      ImageSize(root, buses - {b}, pages - {p});
    }
  }

  /** As many context pages are in use as there are buses with a device. */
  lemma PagesInUse(levels: nat, run: seq<Event>)
    requires Exec(levels, run).Some?
    ensures |Exec(levels, run).value.0.pages| == |UsedBuses(Exec(levels, run).value.1)|
  {
    RunRefines(levels, run);
    var (s, ctx) := Exec(levels, run).value;
    var buses := UsedBuses(ctx);
    forall b | 0 <= b < ENTRIES ensures b in buses <==> s.root[b].present {
      BusPresentIffUsed(levels, run, b);
    }
    forall p | p in s.pages.Keys ensures exists b :: b in buses && s.root[b].frame == p {
      assert PageOk(s, p);
      var b :| Linking(s.root, b, p);
      assert b in buses;
    }
    ImageSize(s.root, buses, s.pages.Keys);
    assert |s.pages| == |s.pages.Keys|;
  }

  // ---- Address widths ----

  function AddressBits(w: AddressWidth): nat {
    match w
    case Agaw39 => 39
    case Agaw48 => 48
  }

  /** The hardware walks every page table with the number of levels it was built with. */
  ghost predicate WidthsFit(s: Tables, levels: nat) {
    forall p, n :: p in s.pages && 0 <= n < |s.pages[p]| && s.pages[p][n].present ==>
      AddressBits(s.pages[p][n].width) == 12 + 9 * levels
  }

  lemma AddWidthsFit(s: Tables, levels: nat, d: Device, t: Target, page: Option<nat>)
    requires (levels == 3 || levels == 4) && Shape(s) && WidthsFit(s, levels) && Add(s, levels, d, t, page).Ok?
    ensures WidthsFit(Add(s, levels, d, t, page).value, levels)
  {
  }

  lemma RemoveWidthsFit(s: Tables, levels: nat, d: Device)
    requires Shape(s) && WidthsFit(s, levels) && s.root[Bus(d)].present
    ensures WidthsFit(Remove(s, d), levels)
  {
  }

  lemma {:induction false} RunWidthsFit(levels: nat, run: seq<Event>)
    requires levels == 3 || levels == 4
    requires Exec(levels, run).Some?
    ensures WidthsFit(Exec(levels, run).value.0, levels)
  {
    if run != [] {
      var prefix := run[..|run| - 1];
      RunWidthsFit(levels, prefix);
      var (s, _) := Exec(levels, prefix).value;
      match run[|run| - 1]
      case AddDevice(d, t, page) =>
        if Add(s, levels, d, t, page).Ok? {
          AddWidthsFit(s, levels, d, t, page);
        }
      case RemoveDevice(d) => RemoveWidthsFit(s, levels, d);
    }
  }
}
