/**
 The x86-64 page-table format of paging.c (Intel SDM volume 3, sections 4.3 to 4.5), from which the EPT and
 VT-d formats are derived: encoding, decoding and indexing of entries, and whole trees of them.
 */
module Paging {
  import opened Common
  import opened PageWalk

  /** Page-table levels: 4 is the root, 1 holds 4K pages, 2 and 3 may hold 2M and 1G pages. */
  type Level = l: int | 1 <= l <= 4 witness 1

  /** Which format links are written in. */
  datatype Format = X86_64 | Ept | VtdFormat

  function Index(level: Level, virt: bv64): bv64 {
    if level == 4 then (virt >> 39) & 0x1ff
    else if level == 3 then (virt >> 30) & 0x1ff
    else if level == 2 then (virt >> 21) & 0x1ff
    else (virt >> 12) & 0x1ff
  }

  predicate EntryValid(pte: bv64, flags: bv64) {
    pte & flags == flags
  }

  function GetFlags(pte: bv64): bv64 {
    pte & 0xfff0_0000_0000_0f7f
  }

  function SetTerminalL1(phys: bv64, flags: bv64): bv64 {
    (phys & 0x000f_ffff_ffff_f000) | flags
  }

  function SetTerminalL2(phys: bv64, flags: bv64): bv64 {
    (phys & 0x000f_ffff_ffe0_0000) | 0x80 | flags
  }

  function SetTerminalL3(phys: bv64, flags: bv64): bv64 {
    (phys & 0x000f_ffff_c000_0000) | 0x80 | flags
  }

  function GetPhysL1(pte: bv64, virt: bv64): bv64 {
    (pte & 0x000f_ffff_ffff_f000) | (virt & 0xfff)
  }

  function GetPhysL2(pte: bv64, virt: bv64): bv64 {
    if pte & 0x80 == 0 then 0xffff_ffff_ffff_ffff else (pte & 0x000f_ffff_ffe0_0000) | (virt & 0x1f_ffff)
  }

  function GetPhysL3(pte: bv64, virt: bv64): bv64 {
    if pte & 0x80 == 0 then 0xffff_ffff_ffff_ffff else (pte & 0x000f_ffff_c000_0000) | (virt & 0x3fff_ffff)
  }

  /** Links grant everything: present and writable, or read, write (and execute). */
  function LinkFlags(format: Format): bv64 {
    if format == Ept then 7 else 3
  }

  function LinkWord(format: Format, nextPt: bv64): bv64 {
    (nextPt & 0x000f_ffff_ffff_f000) | LinkFlags(format)
  }

  function GetNextPt(pte: bv64): bv64 {
    pte & 0x000f_ffff_ffff_f000
  }

  /** PAGE_NONPRESENT_FLAGS: the address bits point beyond any memory. */
  const CLEARED: bv64 := 0x000f_ffff_c000_0000

  // ---- Round trips of a single entry ----

  /** Frame bits 51:12 and offset. */
  lemma TerminalL1(phys: bv64, flags: bv64, virt: bv64)
    requires flags & 0x000f_ffff_ffff_f000 == 0
    ensures GetPhysL1(SetTerminalL1(phys, flags), virt) == (phys & 0x000f_ffff_ffff_f000) | (virt & 0xfff)
  {
  }

  /** Frame bits 51:21 and offset. */
  lemma TerminalL2(phys: bv64, flags: bv64, virt: bv64)
    requires flags & 0x000f_ffff_ffff_f000 == 0
    ensures GetPhysL2(SetTerminalL2(phys, flags), virt) == (phys & 0x000f_ffff_ffe0_0000) | (virt & 0x1f_ffff)
  {
    HugeBit(phys & 0x000f_ffff_ffe0_0000, flags);
    FrameBitsL2(phys, flags);
  }

  /** Frame bits 51:30 and offset. */
  lemma TerminalL3(phys: bv64, flags: bv64, virt: bv64)
    requires flags & 0x000f_ffff_ffff_f000 == 0
    ensures GetPhysL3(SetTerminalL3(phys, flags), virt) == (phys & 0x000f_ffff_c000_0000) | (virt & 0x3fff_ffff)
  {
    HugeBit(phys & 0x000f_ffff_c000_0000, flags);
    FrameBitsL3(phys, flags);
  }

  lemma HugeBit(a: bv64, b: bv64)
    ensures (a | 0x80 | b) & 0x80 != 0
  {
  }

  lemma FrameBitsL2(phys: bv64, flags: bv64)
    requires flags & 0x000f_ffff_ffff_f000 == 0
    ensures ((phys & 0x000f_ffff_ffe0_0000) | 0x80 | flags) & 0x000f_ffff_ffe0_0000 == phys & 0x000f_ffff_ffe0_0000
  {
  }

  lemma FrameBitsL3(phys: bv64, flags: bv64)
    requires flags & 0x000f_ffff_ffff_f000 == 0
    ensures ((phys & 0x000f_ffff_c000_0000) | 0x80 | flags) & 0x000f_ffff_c000_0000 == phys & 0x000f_ffff_c000_0000
  {
  }

  lemma FlagBitsL1(phys: bv64, flags: bv64)
    ensures ((phys & 0x000f_ffff_ffff_f000) | flags) & 0xfff0_0000_0000_0f7f == flags & 0xfff0_0000_0000_0f7f
  {
  }

  lemma FlagBitsL2(phys: bv64, flags: bv64)
    ensures ((phys & 0x000f_ffff_ffe0_0000) | 0x80 | flags) & 0xfff0_0000_0000_0f7f == flags & 0xfff0_0000_0000_0f7f
  {
  }

  lemma FlagBitsL3(phys: bv64, flags: bv64)
    ensures ((phys & 0x000f_ffff_c000_0000) | 0x80 | flags) & 0xfff0_0000_0000_0f7f == flags & 0xfff0_0000_0000_0f7f
  {
  }

  lemma FlagComplement(flags: bv64)
    ensures flags & 0xfff0_0000_0000_0f7f == flags <==> flags & 0x000f_ffff_ffff_f080 == 0
  {
  }

  /** The flags of a terminal entry are recovered exactly when they avoid the address bits and bit 7. */
  lemma FlagsRecoveredL1(phys: bv64, flags: bv64)
    ensures GetFlags(SetTerminalL1(phys, flags)) == flags <==> flags & 0x000f_ffff_ffff_f080 == 0
  {
    FlagComplement(flags);
    FlagBitsL1(phys, flags);
  }

  lemma FlagsRecoveredL2(phys: bv64, flags: bv64)
    ensures GetFlags(SetTerminalL2(phys, flags)) == flags <==> flags & 0x000f_ffff_ffff_f080 == 0
  {
    FlagComplement(flags);
    FlagBitsL2(phys, flags);
  }

  lemma FlagsRecoveredL3(phys: bv64, flags: bv64)
    ensures GetFlags(SetTerminalL3(phys, flags)) == flags <==> flags & 0x000f_ffff_ffff_f080 == 0
  {
    FlagComplement(flags);
    FlagBitsL3(phys, flags);
  }

  /** A link gives back the table, is valid and is not mistaken for a page, in every format. */
  lemma LinkRoundTrip(format: Format, nextPt: bv64)
    ensures GetNextPt(LinkWord(format, nextPt)) == nextPt & 0x000f_ffff_ffff_f000
    ensures LinkWord(format, nextPt) & 0x81 == 1
  {
    if format == Ept {
      LinkBits7(nextPt);
    } else {
      LinkBits3(nextPt);
    }
  }

  lemma LinkBits3(nextPt: bv64)
    ensures ((nextPt & 0x000f_ffff_ffff_f000) | 3) & 0x000f_ffff_ffff_f000 == nextPt & 0x000f_ffff_ffff_f000
    ensures ((nextPt & 0x000f_ffff_ffff_f000) | 3) & 0x81 == 1
  {
  }

  lemma LinkBits7(nextPt: bv64)
    ensures ((nextPt & 0x000f_ffff_ffff_f000) | 7) & 0x000f_ffff_ffff_f000 == nextPt & 0x000f_ffff_ffff_f000
    ensures ((nextPt & 0x000f_ffff_ffff_f000) | 7) & 0x81 == 1
  {
  }

  // ---- The level table ----

  /** x86_64_paging from the root level on; EPT and VT-d differ in what set_next_pt writes. */
  function Callbacks1(format: Format, access: bv64): Callbacks<bv64> {
    Callbacks(v => Index(1, v), pte => EntryValid(pte, access), Some(SetTerminalL1), GetPhysL1,
              next => LinkWord(format, next), GetNextPt, CLEARED, pte => true)
  }

  function Callbacks2(format: Format, access: bv64): Callbacks<bv64> {
    Callbacks(v => Index(2, v), pte => EntryValid(pte, access), Some(SetTerminalL2), GetPhysL2,
              next => LinkWord(format, next), GetNextPt, CLEARED, pte => pte & 0x80 != 0)
  }

  function Callbacks3(format: Format, access: bv64): Callbacks<bv64> {
    Callbacks(v => Index(3, v), pte => EntryValid(pte, access), Some(SetTerminalL3), GetPhysL3,
              next => LinkWord(format, next), GetNextPt, CLEARED, pte => pte & 0x80 != 0)
  }

  function Callbacks4(format: Format, access: bv64): Callbacks<bv64> {
    Callbacks(v => Index(4, v), pte => EntryValid(pte, access), None, (pte, v) => 0xffff_ffff_ffff_ffff,
              next => LinkWord(format, next), GetNextPt, CLEARED, pte => false)
  }

  /** All four levels, or the last three, which VT-d uses if the IOMMU has no fourth level. */
  function Levels(fourLevels: bool, format: Format, access: bv64): (levels: seq<Callbacks<bv64>>)
    ensures |levels| == if fourLevels then 4 else 3
  {
    (if fourLevels then [Callbacks4(format, access)] else [])
    + [Callbacks3(format, access), Callbacks2(format, access), Callbacks1(format, access)]
  }

  /** Access flags, of which PAGE_FLAG_PRESENT (EPT and VT-d: the read flag) is always one. */
  predicate IsAccess(access: bv64) {
    access & 1 == 1 && access & 0x000f_ffff_ffff_f080 == 0
  }

  /** Frame bits of the physical address and offset bits of the virtual one, for the level `k` tables down. */
  function Frame(fourLevels: bool, k: nat, phys: bv64, virt: bv64): bv64 {
    var level := if fourLevels then 4 - k else 3 - k;
    if level == 1 then (phys & 0x000f_ffff_ffff_f000) | (virt & 0xfff)
    else if level == 2 then (phys & 0x000f_ffff_ffe0_0000) | (virt & 0x1f_ffff)
    else (phys & 0x000f_ffff_c000_0000) | (virt & 0x3fff_ffff)
  }

  function FormatEffect(fourLevels: bool, access: bv64): Effect<bv64> {
    Effect((k, phys, virt) => Frame(fourLevels, k, phys, virt), flags => EntryValid(flags, access),
           flags => flags & 0x000f_ffff_ffff_f000 == 0)
  }

  // ---- The callbacks keep the documented contract ----

  lemma PhysIsValid1(pte: bv64, virt: bv64)
    ensures (pte & 0x000f_ffff_ffff_f000) | (virt & 0xfff) != 0xffff_ffff_ffff_ffff
  {
  }

  lemma PhysIsValid2(pte: bv64, virt: bv64)
    ensures (pte & 0x000f_ffff_ffe0_0000) | (virt & 0x1f_ffff) != 0xffff_ffff_ffff_ffff
  {
  }

  lemma PhysIsValid3(pte: bv64, virt: bv64)
    ensures (pte & 0x000f_ffff_c000_0000) | (virt & 0x3fff_ffff) != 0xffff_ffff_ffff_ffff
  {
  }

  lemma GetPhysContract1(format: Format, access: bv64)
    ensures GetPhysContract(Callbacks1(format, access), 0xffff_ffff_ffff_ffff)
  {
    forall pte: bv64, v: bv64 ensures GetPhysL1(pte, v) != 0xffff_ffff_ffff_ffff {
      PhysIsValid1(pte, v);
    }
  }

  lemma GetPhysContract2(format: Format, access: bv64)
    ensures GetPhysContract(Callbacks2(format, access), 0xffff_ffff_ffff_ffff)
  {
    forall pte: bv64, v: bv64 ensures GetPhysL2(pte, v) == 0xffff_ffff_ffff_ffff <==> pte & 0x80 == 0 {
      PhysIsValid2(pte, v);
    }
  }

  lemma GetPhysContract3(format: Format, access: bv64)
    ensures GetPhysContract(Callbacks3(format, access), 0xffff_ffff_ffff_ffff)
  {
    forall pte: bv64, v: bv64 ensures GetPhysL3(pte, v) == 0xffff_ffff_ffff_ffff <==> pte & 0x80 == 0 {
      PhysIsValid3(pte, v);
    }
  }

  /** Only links have INVALID_PHYS_ADDR as address. */
  lemma LevelsWellBehaved(fourLevels: bool, format: Format, access: bv64)
    ensures WellBehaved(Levels(fourLevels, format, access), 0xffff_ffff_ffff_ffff)
  {
    GetPhysContract1(format, access);
    GetPhysContract2(format, access);
    GetPhysContract3(format, access);
    assert GetPhysContract(Callbacks4(format, access), 0xffff_ffff_ffff_ffff);
  }

  lemma Maps1(fourLevels: bool, format: Format, access: bv64)
    ensures TerminalMaps(Callbacks1(format, access), if fourLevels then 3 else 2, FormatEffect(fourLevels, access))
  {
    forall phys: bv64, flags: bv64, v: bv64 | flags & 0x000f_ffff_ffff_f000 == 0
      ensures GetPhysL1(SetTerminalL1(phys, flags), v) == (phys & 0x000f_ffff_ffff_f000) | (v & 0xfff)
    {
      TerminalL1(phys, flags, v);
    }
  }

  lemma Maps2(fourLevels: bool, format: Format, access: bv64)
    ensures TerminalMaps(Callbacks2(format, access), if fourLevels then 2 else 1, FormatEffect(fourLevels, access))
  {
    forall phys: bv64, flags: bv64, v: bv64 | flags & 0x000f_ffff_ffff_f000 == 0
      ensures GetPhysL2(SetTerminalL2(phys, flags), v) == (phys & 0x000f_ffff_ffe0_0000) | (v & 0x1f_ffff)
    {
      TerminalL2(phys, flags, v);
    }
  }

  lemma Maps3(fourLevels: bool, format: Format, access: bv64)
    ensures TerminalMaps(Callbacks3(format, access), if fourLevels then 1 else 0, FormatEffect(fourLevels, access))
  {
    forall phys: bv64, flags: bv64, v: bv64 | flags & 0x000f_ffff_ffff_f000 == 0
      ensures GetPhysL3(SetTerminalL3(phys, flags), v) == (phys & 0x000f_ffff_c000_0000) | (v & 0x3fff_ffff)
    {
      TerminalL3(phys, flags, v);
    }
  }

  lemma SameAccess(x: bv64, y: bv64, access: bv64)
    requires x & access == y & access
    ensures EntryValid(x, access) <==> EntryValid(y, access)
  {
  }

  lemma AccessBitsL1(phys: bv64, flags: bv64, access: bv64)
    requires access & 0x000f_ffff_ffff_f080 == 0
    ensures SetTerminalL1(phys, flags) & access == flags & access
  {
  }

  lemma ValidL1(phys: bv64, flags: bv64, access: bv64)
    requires access & 0x000f_ffff_ffff_f080 == 0
    ensures EntryValid(SetTerminalL1(phys, flags), access) <==> EntryValid(flags, access)
  {
    AccessBitsL1(phys, flags, access);
    SameAccess(SetTerminalL1(phys, flags), flags, access);
  }

  lemma AccessBitsL2(phys: bv64, flags: bv64, access: bv64)
    requires access & 0x000f_ffff_ffff_f080 == 0
    ensures SetTerminalL2(phys, flags) & access == flags & access
  {
  }

  lemma ValidL2(phys: bv64, flags: bv64, access: bv64)
    requires access & 0x000f_ffff_ffff_f080 == 0
    ensures EntryValid(SetTerminalL2(phys, flags), access) <==> EntryValid(flags, access)
  {
    AccessBitsL2(phys, flags, access);
    SameAccess(SetTerminalL2(phys, flags), flags, access);
  }

  lemma AccessBitsL3(phys: bv64, flags: bv64, access: bv64)
    requires access & 0x000f_ffff_ffff_f080 == 0
    ensures SetTerminalL3(phys, flags) & access == flags & access
  {
  }

  lemma ValidL3(phys: bv64, flags: bv64, access: bv64)
    requires access & 0x000f_ffff_ffff_f080 == 0
    ensures EntryValid(SetTerminalL3(phys, flags), access) <==> EntryValid(flags, access)
  {
    AccessBitsL3(phys, flags, access);
    SameAccess(SetTerminalL3(phys, flags), flags, access);
  }

  lemma Grants1(fourLevels: bool, format: Format, access: bv64)
    requires IsAccess(access)
    ensures TerminalGrants(Callbacks1(format, access), FormatEffect(fourLevels, access))
  {
    forall phys: bv64, flags: bv64 ensures EntryValid(SetTerminalL1(phys, flags), access) <==> EntryValid(flags, access) {
      ValidL1(phys, flags, access);
    }
  }

  lemma Grants2(fourLevels: bool, format: Format, access: bv64)
    requires IsAccess(access)
    ensures TerminalGrants(Callbacks2(format, access), FormatEffect(fourLevels, access))
  {
    forall phys: bv64, flags: bv64 ensures EntryValid(SetTerminalL2(phys, flags), access) <==> EntryValid(flags, access) {
      ValidL2(phys, flags, access);
    }
  }

  lemma Grants3(fourLevels: bool, format: Format, access: bv64)
    requires IsAccess(access)
    ensures TerminalGrants(Callbacks3(format, access), FormatEffect(fourLevels, access))
  {
    forall phys: bv64, flags: bv64 ensures EntryValid(SetTerminalL3(phys, flags), access) <==> EntryValid(flags, access) {
      ValidL3(phys, flags, access);
    }
  }

  lemma TerminalsContract(fourLevels: bool, format: Format, access: bv64)
    ensures var fx := FormatEffect(fourLevels, access);
      SetsTerminal(Callbacks1(format, access), fx) && SetsTerminal(Callbacks2(format, access), fx)
      && SetsTerminal(Callbacks3(format, access), fx)
  {
    forall phys: bv64, flags: bv64 ensures SetTerminalL2(phys, flags) & 0x80 != 0 && SetTerminalL3(phys, flags) & 0x80 != 0 {
      HugeBit(phys & 0x000f_ffff_ffe0_0000, flags);
      HugeBit(phys & 0x000f_ffff_c000_0000, flags);
    }
  }

  lemma LinkHasNoHugeBit(format: Format, next: bv64)
    ensures LinkWord(format, next) & 0x80 == 0
  {
  }

  lemma LinksContract(format: Format, access: bv64)
    ensures LinksAreNotTerminal(Callbacks4(format, access)) && LinksAreNotTerminal(Callbacks3(format, access))
            && LinksAreNotTerminal(Callbacks2(format, access))
  {
    forall next: bv64 ensures LinkWord(format, next) & 0x80 == 0 {
      LinkHasNoHugeBit(format, next);
    }
  }

  lemma ClearedIsInvalid(access: bv64)
    requires access & 1 == 1
    ensures !EntryValid(CLEARED, access)
  {
  }

  /**
   set_terminal maps to frame and offset and permits exactly what the flags grant, set_next_pt writes a link and
   clear_entry an entry that is not valid: the hypervisor's own format, EPT and VT-d, with three or four levels.
   */
  lemma WritesAreWellBehaved(fourLevels: bool, format: Format, access: bv64)
    requires IsAccess(access)
    ensures WritesWellBehaved(Levels(fourLevels, format, access), FormatEffect(fourLevels, access))
  {
    Maps1(fourLevels, format, access);
    Maps2(fourLevels, format, access);
    Maps3(fourLevels, format, access);
    Grants1(fourLevels, format, access);
    Grants2(fourLevels, format, access);
    Grants3(fourLevels, format, access);
    TerminalsContract(fourLevels, format, access);
    LinksContract(format, access);
    ClearedIsInvalid(access);
    WritesOfLevels(if fourLevels then Some(Callbacks4(format, access)) else None, Callbacks3(format, access),
                   Callbacks2(format, access), Callbacks1(format, access), FormatEffect(fourLevels, access));
  }

  /** PageWalk.PageTablesTranslate for the formats of the repository. */
  lemma FormatsTranslate(fourLevels: bool, format: Format, access: bv64, root: bv64, ops: seq<Op<bv64>>, virt: bv64)
    requires IsAccess(access)
    requires forall j :: 0 <= j < |ops| ==> WellFormed(Levels(fourLevels, format, access), FormatEffect(fourLevels, access), ops[j])
    requires After(Levels(fourLevels, format, access), root,
                   WritesOf(Levels(fourLevels, format, access), FormatEffect(fourLevels, access), ops)).Some?
    ensures var levels, fx := Levels(fourLevels, format, access), FormatEffect(fourLevels, access);
      var mem := After(levels, root, WritesOf(levels, fx, ops)).value;
      Translate(levels, 0, 0xffff_ffff_ffff_ffff, mem, root, virt) == MappedTo(levels, fx, 0xffff_ffff_ffff_ffff, root, ops, virt)
  {
    LevelsWellBehaved(fourLevels, format, access);
    WritesAreWellBehaved(fourLevels, format, access);
    PageTablesTranslate(Levels(fourLevels, format, access), FormatEffect(fourLevels, access), 0xffff_ffff_ffff_ffff, root, ops, virt);
  }

  // ---- Every page can be mapped ----

  /** Page-aligned and below 2^52. */
  predicate IsFrame(t: bv64) {
    t & 0x000f_ffff_ffff_f000 == t
  }

  /** What a link of the format grants: read and write, and in EPT also execution. */
  predicate WithinLink(format: Format, access: bv64) {
    access & (if format == Ept then 7 else 3) == access
  }

  lemma LinkGrants3(t: bv64, access: bv64)
    requires access & 3 == access
    ensures ((t & 0x000f_ffff_ffff_f000) | 3) & access == access
  {
  }

  lemma LinkGrants7(t: bv64, access: bv64)
    requires access & 7 == access
    ensures ((t & 0x000f_ffff_ffff_f000) | 7) & access == access
  {
  }

  /** A link restricts no access that its format knows: what an address permits is up to its terminal entry. */
  lemma LinkGrants(format: Format, t: bv64, access: bv64)
    requires WithinLink(format, access)
    ensures EntryValid(LinkWord(format, t), access)
  {
    if format == Ept {
      LinkGrants7(t, access);
    } else {
      LinkGrants3(t, access);
    }
  }

  lemma LinksWork(format: Format, access: bv64, t: bv64)
    requires IsFrame(t) && WithinLink(format, access)
    ensures LinkWorks(Callbacks4(format, access), t) && LinkWorks(Callbacks3(format, access), t)
            && LinkWorks(Callbacks2(format, access), t)
  {
    LinkGrants(format, t, access);
    LinkHasNoHugeBit(format, t);
    LinkRoundTrip(format, t);
  }

  lemma SmallAccess(format: Format, access: bv64)
    requires WithinLink(format, access)
    ensures access & 0x000f_ffff_ffff_f080 == 0
  {
  }

  /**
   With a spare page for each level between root and leaf, set_next_pt and set_terminal map any 4K page for every
   access that its flags and the format permit: an instance of the runs above that exists for every address.
   */
  lemma PageCanBeMapped(fourLevels: bool, format: Format, access: bv64, root: bv64, tables: seq<bv64>, virt: bv64, phys: bv64,
                        flags: bv64)
    requires |tables| == if fourLevels then 3 else 2
    requires forall j :: 0 <= j < |tables| ==> IsFrame(tables[j]) && tables[j] != root
    requires forall i, j :: 0 <= i < j < |tables| ==> tables[i] != tables[j]
    requires WithinLink(format, access) && EntryValid(flags, access) && flags & 0x000f_ffff_ffff_f000 == 0
    ensures var levels := Levels(fourLevels, format, access);
      var r := After(levels, root, LinkEdits(levels, virt, tables) + [InTree(Edit(|tables|, virt, SetTerminalL1(phys, flags)))]);
      r.Some? && Translate(levels, 0, 0xffff_ffff_ffff_ffff, r.value, root, virt) == (phys & 0x000f_ffff_ffff_f000) | (virt & 0xfff)
  {
    var levels := Levels(fourLevels, format, access);
    LevelsWellBehaved(fourLevels, format, access);
    forall k | 0 <= k < |tables| ensures LinkWorks(levels[k], tables[k]) {
      LinksWork(format, access, tables[k]);
    }
    SmallAccess(format, access);
    ValidL1(phys, flags, access);
    TerminalL1(phys, flags, virt);
    AddressCanBeMapped(levels, 0xffff_ffff_ffff_ffff, root, virt, tables, SetTerminalL1(phys, flags));
  }

  // ---- What the flags and a cleared entry mean ----

  lemma AccessJoins(pte: bv64, a: bv64, b: bv64)
    requires pte & a == a && pte & b == b
    ensures pte & (a | b) == a | b
  {
  }

  lemma AccessSplits(pte: bv64, a: bv64, b: bv64)
    requires pte & (a | b) == a | b
    ensures pte & a == a
  {
  }

  /** An entry is valid for two accesses together exactly if it is for each of them. */
  lemma ValidForBoth(pte: bv64, a: bv64, b: bv64)
    ensures EntryValid(pte, a | b) <==> EntryValid(pte, a) && EntryValid(pte, b)
  {
    if EntryValid(pte, a) && EntryValid(pte, b) {
      AccessJoins(pte, a, b);
    }
    if EntryValid(pte, a | b) {
      AccessSplits(pte, a, b);
      OrCommutes(a, b);
      AccessSplits(pte, b, a);
    }
  }

  lemma OrCommutes(a: bv64, b: bv64)
    ensures a | b == b | a
  {
  }

  /** Taken as a page address, a cleared entry lies in the topmost gigabyte that 52 bits can address. */
  lemma ClearedPointsBeyond(virt: bv64)
    ensures GetPhysL1(CLEARED, virt) >= 0x000f_ffff_c000_0000 && GetNextPt(CLEARED) >= 0x000f_ffff_c000_0000
  {
  }

  // ---- Which addresses share an entry ----

  /** The four indices and the page offset make up the lower 48 bits of the address, in this order. */
  lemma AddressFromIndices(v: bv64)
    ensures (Index(4, v) << 39) | (Index(3, v) << 30) | (Index(2, v) << 21) | (Index(1, v) << 12) | (v & 0xfff)
            == v & 0xffff_ffff_ffff
  {
    IndexField4(v);
    IndexField3(v);
    IndexField2(v);
    IndexField1(v);
    JoinFields(v);
  }

  lemma IndexField4(v: bv64)
    ensures ((v >> 39) & 0x1ff) << 39 == v & 0xff80_0000_0000
  {
  }

  lemma IndexField3(v: bv64)
    ensures ((v >> 30) & 0x1ff) << 30 == v & 0x7f_c000_0000
  {
  }

  lemma IndexField2(v: bv64)
    ensures ((v >> 21) & 0x1ff) << 21 == v & 0x3fe0_0000
  {
  }

  lemma IndexField1(v: bv64)
    ensures ((v >> 12) & 0x1ff) << 12 == v & 0x1f_f000
  {
  }

  lemma JoinFields(v: bv64)
    ensures (v & 0xff80_0000_0000) | (v & 0x7f_c000_0000) | (v & 0x3fe0_0000) | (v & 0x1f_f000) | (v & 0xfff)
            == v & 0xffff_ffff_ffff
  {
  }

  lemma SameIndex4(v: bv64, w: bv64)
    ensures (v >> 39) & 0x1ff == (w >> 39) & 0x1ff <==> (v ^ w) & 0x0000_ff80_0000_0000 == 0
  {
  }

  lemma SameIndex3(v: bv64, w: bv64)
    ensures (v >> 30) & 0x1ff == (w >> 30) & 0x1ff <==> (v ^ w) & 0x0000_007f_c000_0000 == 0
  {
  }

  lemma SameIndex2(v: bv64, w: bv64)
    ensures (v >> 21) & 0x1ff == (w >> 21) & 0x1ff <==> (v ^ w) & 0x0000_0000_3fe0_0000 == 0
  {
  }

  lemma SameIndex1(v: bv64, w: bv64)
    ensures (v >> 12) & 0x1ff == (w >> 12) & 0x1ff <==> (v ^ w) & 0x0000_0000_001f_f000 == 0
  {
  }

  lemma MaskL3(x: bv64)
    ensures x & 0x0000_ff80_0000_0000 == 0 && x & 0x0000_007f_c000_0000 == 0 <==> x & 0x0000_ffff_c000_0000 == 0
  {
  }

  lemma MaskL2(x: bv64)
    ensures x & 0x0000_ffff_c000_0000 == 0 && x & 0x0000_0000_3fe0_0000 == 0 <==> x & 0x0000_ffff_ffe0_0000 == 0
  {
  }

  lemma MaskL1(x: bv64)
    ensures x & 0x0000_ffff_ffe0_0000 == 0 && x & 0x0000_0000_001f_f000 == 0 <==> x & 0x0000_ffff_ffff_f000 == 0
  {
  }

  lemma IndicesL3(v: bv64, w: bv64)
    ensures Index(4, v) == Index(4, w) && Index(3, v) == Index(3, w) <==> (v ^ w) & 0x0000_ffff_c000_0000 == 0
  {
    SameIndex4(v, w);
    SameIndex3(v, w);
    MaskL3(v ^ w);
  }

  lemma IndicesL2(v: bv64, w: bv64)
    ensures (v ^ w) & 0x0000_ffff_c000_0000 == 0 && Index(2, v) == Index(2, w) <==> (v ^ w) & 0x0000_ffff_ffe0_0000 == 0
  {
    SameIndex2(v, w);
    MaskL2(v ^ w);
  }

  lemma IndicesL1(v: bv64, w: bv64)
    ensures (v ^ w) & 0x0000_ffff_ffe0_0000 == 0 && Index(1, v) == Index(1, w) <==> (v ^ w) & 0x0000_ffff_ffff_f000 == 0
  {
    SameIndex1(v, w);
    MaskL1(v ^ w);
  }

  /** With four levels, addresses share a 1G, 2M or 4K entry exactly if they agree in bits 47 down to the page's. */
  lemma SamePageL3(format: Format, access: bv64, v: bv64, w: bv64)
    ensures SamePage(Levels(true, format, access), 1, v, w) <==> (v ^ w) & 0x0000_ffff_c000_0000 == 0
  {
    SamePageStep(Levels(true, format, access), 1, v, w);
    SamePageStep(Levels(true, format, access), 0, v, w);
    IndicesL3(v, w);
  }

  lemma SamePageL2(format: Format, access: bv64, v: bv64, w: bv64)
    ensures SamePage(Levels(true, format, access), 2, v, w) <==> (v ^ w) & 0x0000_ffff_ffe0_0000 == 0
  {
    SamePageStep(Levels(true, format, access), 2, v, w);
    SamePageL3(format, access, v, w);
    IndicesL2(v, w);
  }

  lemma SamePageL1(format: Format, access: bv64, v: bv64, w: bv64)
    ensures SamePage(Levels(true, format, access), 3, v, w) <==> (v ^ w) & 0x0000_ffff_ffff_f000 == 0
  {
    SamePageStep(Levels(true, format, access), 3, v, w);
    SamePageL2(format, access, v, w);
    IndicesL1(v, w);
  }

  // ---- Updates in place ----

  /** An entry of a page table, *pt_entry_t. */
  class PtEntry {
    var word: bv64

    constructor (w: bv64)
      ensures word == w
    {
      word := w;
    }

    method SetTerminalOnL1(phys: bv64, flags: bv64)
      modifies this
      ensures word == SetTerminalL1(phys, flags)
      ensures flags & 0x000f_ffff_ffff_f000 == 0 ==>
        forall virt :: GetPhysL1(word, virt) == (phys & 0x000f_ffff_ffff_f000) | (virt & 0xfff)
    {
      word := (phys & 0x000f_ffff_ffff_f000) | flags;
      forall virt: bv64 | flags & 0x000f_ffff_ffff_f000 == 0
        ensures GetPhysL1(SetTerminalL1(phys, flags), virt) == (phys & 0x000f_ffff_ffff_f000) | (virt & 0xfff)
      {
        TerminalL1(phys, flags, virt);
      }
    }

    method SetTerminalOnL2(phys: bv64, flags: bv64)
      modifies this
      ensures word == SetTerminalL2(phys, flags)
      ensures flags & 0x000f_ffff_ffff_f000 == 0 ==>
        forall virt :: GetPhysL2(word, virt) == (phys & 0x000f_ffff_ffe0_0000) | (virt & 0x1f_ffff)
    {
      word := (phys & 0x000f_ffff_ffe0_0000) | 0x80 | flags;
      forall virt: bv64 | flags & 0x000f_ffff_ffff_f000 == 0
        ensures GetPhysL2(SetTerminalL2(phys, flags), virt) == (phys & 0x000f_ffff_ffe0_0000) | (virt & 0x1f_ffff)
      {
        TerminalL2(phys, flags, virt);
      }
    }

    method SetTerminalOnL3(phys: bv64, flags: bv64)
      modifies this
      ensures word == SetTerminalL3(phys, flags)
      ensures flags & 0x000f_ffff_ffff_f000 == 0 ==>
        forall virt :: GetPhysL3(word, virt) == (phys & 0x000f_ffff_c000_0000) | (virt & 0x3fff_ffff)
    {
      word := (phys & 0x000f_ffff_c000_0000) | 0x80 | flags;
      forall virt: bv64 | flags & 0x000f_ffff_ffff_f000 == 0
        ensures GetPhysL3(SetTerminalL3(phys, flags), virt) == (phys & 0x000f_ffff_c000_0000) | (virt & 0x3fff_ffff)
      {
        TerminalL3(phys, flags, virt);
      }
    }

    method SetNextPt(format: Format, nextPt: bv64)
      modifies this
      ensures word == LinkWord(format, nextPt)
      ensures GetNextPt(word) == nextPt & 0x000f_ffff_ffff_f000
      ensures forall access :: WithinLink(format, access) ==> EntryValid(word, access)
    {
      LinkRoundTrip(format, nextPt);
      forall access: bv64 | WithinLink(format, access) ensures EntryValid(LinkWord(format, nextPt), access) {
        LinkGrants(format, nextPt, access);
      }
      word := (nextPt & 0x000f_ffff_ffff_f000) | LinkFlags(format);
    }

    method ClearEntry()
      modifies this
      ensures word == CLEARED && !EntryValid(word, 1)
    {
      word := 0x000f_ffff_c000_0000;
    }
  }

  /** page_table_empty: no entry is present. */
  method PageTableEmpty(pageTable: array<bv64>) returns (empty: bool)
    requires pageTable.Length == 512
    ensures empty <==> forall k :: 0 <= k < 512 ==> !EntryValid(pageTable[k], 1)
  {
    var n := 0;
    while n < 512
      invariant 0 <= n <= 512
      invariant forall k :: 0 <= k < n ==> !EntryValid(pageTable[k], 1)
    {
      if EntryValid(pageTable[n], 1) {
        return false;
      }
      n := n + 1;
    }
    return true;
  }
}
