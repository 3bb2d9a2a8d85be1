/**
 The level-by-level page walk over the callbacks of struct paging (spy/paging.h), for any page-table format
 whose callbacks keep their documented contract, and what writing one entry does to it.
 */
module PageWalk {
  import opened Common
  import opened TableTree

  /**
   The callbacks of one level. `valid` is entry_valid for the access that the walk is made for, `cleared` is what
   clear_entry writes, and `terminal` says which entries get_phys has an address for. The root level may come
   without set_terminal.
   */
  datatype Callbacks<!W> = Callbacks(index: W -> W, valid: W -> bool, setTerminal: Option<(W, W) -> W>,
                                     getPhys: (W, W) -> W, setNextPt: W -> W, getNextPt: W -> W, cleared: W,
                                     terminal: W -> bool)

  /** get_phys returns INVALID_PHYS_ADDR exactly if the entry is not terminal. */
  ghost predicate GetPhysContract<W(!new)>(cb: Callbacks<W>, invalid: W) {
    forall pte, v :: cb.getPhys(pte, v) == invalid <==> !cb.terminal(pte)
  }

  /** The last level has terminal entries only. */
  ghost predicate IsLast<W(!new)>(cb: Callbacks<W>) {
    forall pte :: cb.terminal(pte)
  }

  ghost predicate WellBehaved<W(!new)>(levels: seq<Callbacks<W>>, invalid: W) {
    (forall k :: 0 <= k < |levels| ==> GetPhysContract(levels[k], invalid)) &&
    (levels != [] ==> IsLast(levels[|levels| - 1]))
  }

  /**
   The walk from level `n` on: at each level take the entry, fail if it is not valid, return its address if it
   is terminal, and go on with the next table otherwise. `invalid` is INVALID_PHYS_ADDR.
   */
  ghost function Translate<W>(levels: seq<Callbacks<W>>, n: nat, invalid: W, mem: map<Slot<W, W>, W>, table: W, virt: W): W
    decreases |levels| - n
  {
    if n >= |levels| then invalid
    else
      var slot := Slot(table, levels[n].index(virt));
      if slot !in mem || !levels[n].valid(mem[slot]) then invalid
      else if levels[n].getPhys(mem[slot], virt) != invalid then levels[n].getPhys(mem[slot], virt)
      else Translate(levels, n + 1, invalid, mem, levels[n].getNextPt(mem[slot]), virt)
  }

  /** An entry as the walk sees it; `level` is the number of levels from this one on. */
  ghost function Kind<W>(levels: seq<Callbacks<W>>, level: nat, pte: W): Entry<W, W> {
    if level == 0 || level > |levels| then Absent
    else
      var cb := levels[|levels| - level];
      if !cb.valid(pte) then Absent else if cb.terminal(pte) then Leaf(pte) else Next(cb.getNextPt(pte))
  }

  ghost function Decoding<W>(levels: seq<Callbacks<W>>): Decoder<W, W, W> {
    (level: nat, pte: W) => Kind(levels, level, pte)
  }

  /** The indices of an address from level `n` on. */
  ghost function Path<W>(levels: seq<Callbacks<W>>, n: nat, virt: W): (p: seq<W>)
    requires n <= |levels|
    ensures |p| == |levels| - n
    decreases |levels| - n
  {
    if n == |levels| then [] else [levels[n].index(virt)] + Path(levels, n + 1, virt)
  }

  lemma {:induction false} PathAt<W>(levels: seq<Callbacks<W>>, n: nat, virt: W, k: nat)
    requires n + k < |levels|
    ensures Path(levels, n, virt)[k] == levels[n + k].index(virt)
    decreases k
  {
    if k > 0 {
      PathAt(levels, n + 1, virt, k - 1);
    }
  }

  /** What the walk makes of the entry and the rest of the path that it stopped at. */
  ghost function Outcome<W>(levels: seq<Callbacks<W>>, invalid: W, found: Option<(W, seq<W>)>, virt: W): W {
    if found.None? || |found.value.1| >= |levels| then invalid
    else levels[|levels| - |found.value.1| - 1].getPhys(found.value.0, virt)
  }

  /** One level of the walk. */
  lemma WalkStep<W(!new)>(levels: seq<Callbacks<W>>, n: nat, invalid: W, mem: map<Slot<W, W>, W>, table: W, virt: W)
    requires n < |levels| && WellBehaved(levels, invalid)
    ensures var slot := Slot(table, levels[n].index(virt));
      Walk(Decoding(levels), mem, table, Path(levels, n, virt))
      == if slot !in mem || !levels[n].valid(mem[slot]) then None
         else if levels[n].terminal(mem[slot]) then Some((mem[slot], Path(levels, n + 1, virt)))
         else Walk(Decoding(levels), mem, levels[n].getNextPt(mem[slot]), Path(levels, n + 1, virt))
  {
    var path := Path(levels, n, virt);
    assert path[0] == levels[n].index(virt) && path[1..] == Path(levels, n + 1, virt);
    var slot := Slot(table, levels[n].index(virt));
    if slot in mem {
      assert Decoding(levels)(|path|, mem[slot]) == Kind(levels, |path|, mem[slot]);
    }
  }

  /** The walk is the lookup in a tree of tables along the indices of the address. */
  lemma {:induction false} TranslateIsLookup<W(!new)>(levels: seq<Callbacks<W>>, n: nat, invalid: W, mem: map<Slot<W, W>, W>,
                                                      table: W, virt: W)
    requires n <= |levels| && WellBehaved(levels, invalid)
    ensures Translate(levels, n, invalid, mem, table, virt)
            == Outcome(levels, invalid, Walk(Decoding(levels), mem, table, Path(levels, n, virt)), virt)
    decreases |levels| - n
  {
    if n < |levels| {
      WalkStep(levels, n, invalid, mem, table, virt);
      var slot := Slot(table, levels[n].index(virt));
      if slot in mem && levels[n].valid(mem[slot]) {
        assert GetPhysContract(levels[n], invalid);
        assert levels[n].getPhys(mem[slot], virt) == invalid <==> !levels[n].terminal(mem[slot]);
        TranslateIsLookup(levels, n + 1, invalid, mem, levels[n].getNextPt(mem[slot]), virt);
      }
    }
  }

  /** Both addresses have the same indices down to level `k`, counted from the root. */
  ghost predicate SamePage<W>(levels: seq<Callbacks<W>>, k: nat, v: W, w: W)
    requires k < |levels|
  {
    forall j :: 0 <= j <= k ==> levels[j].index(v) == levels[j].index(w)
  }

  lemma SamePageStep<W>(levels: seq<Callbacks<W>>, k: nat, v: W, w: W)
    requires k < |levels|
    ensures SamePage(levels, k, v, w)
            <==> (k > 0 ==> SamePage(levels, k - 1, v, w)) && levels[k].index(v) == levels[k].index(w)
  {
  }

  /** The table that the first `k` links of an address lead to. */
  ghost function TableFor<W>(levels: seq<Callbacks<W>>, mem: map<Slot<W, W>, W>, root: W, k: nat, v: W): Option<W>
    requires k <= |levels|
  {
    Reach(Decoding(levels), mem, |levels|, root, Path(levels, 0, v)[..k])
  }

  ghost predicate IsTree<W(!new)>(levels: seq<Callbacks<W>>, mem: map<Slot<W, W>, W>, root: W) {
    NonAliased(Decoding(levels), mem, |levels|, root)
  }

  lemma {:induction false} SamePageIsPrefix<W>(levels: seq<Callbacks<W>>, k: nat, v: W, w: W)
    requires k < |levels|
    ensures SamePage(levels, k, v, w) <==> Path(levels, 0, v)[..k] + [levels[k].index(v)] <= Path(levels, 0, w)
  {
    var at, to := Path(levels, 0, v)[..k] + [levels[k].index(v)], Path(levels, 0, w)[..k + 1];
    forall j | 0 <= j <= k
      ensures at[j] == levels[j].index(v) && to[j] == levels[j].index(w)
    {
      PathAt(levels, 0, v, j);
      PathAt(levels, 0, w, j);
    }
    PrefixIffTake(at, Path(levels, 0, w));
    assert SamePage(levels, k, v, w) ==> at == to;
    assert at == to ==> forall j :: 0 <= j <= k ==> at[j] == to[j];
  }

  lemma PrefixIffTake<W>(at: seq<W>, key: seq<W>)
    requires |at| <= |key|
    ensures at <= key <==> at == key[..|at|]
  {
  }

  /** A table of level `k` without links: page_table_empty, or filled with terminal entries. */
  ghost predicate HasNoLinks<W(!new)>(levels: seq<Callbacks<W>>, mem: map<Slot<W, W>, W>, k: nat, table: W) {
    forall j: W :: Slot(table, j) in mem && k < |levels| ==>
      levels[k].valid(mem[Slot(table, j)]) ==> levels[k].terminal(mem[Slot(table, j)])
  }

  /** The tree does not use the table, which has no links as a table of level `k`. */
  ghost predicate IsUnused<W(!new)>(levels: seq<Callbacks<W>>, mem: map<Slot<W, W>, W>, root: W, k: nat, table: W) {
    HasNoLinks(levels, mem, k, table) && IsDetached(Decoding(levels), mem, |levels|, root, table)
  }

  /** Write `entry` to the slot for address `virt` in the table `depth` links below the root. */
  datatype Edit<W> = Edit(depth: nat, virt: W, entry: W)

  ghost predicate IsLink<W>(levels: seq<Callbacks<W>>, e: Edit<W>)
    requires e.depth < |levels|
  {
    levels[e.depth].valid(e.entry) && !levels[e.depth].terminal(e.entry)
  }

  /** The table exists, and a link leads to an unused table without links. */
  ghost predicate Allowed<W(!new)>(levels: seq<Callbacks<W>>, mem: map<Slot<W, W>, W>, root: W, e: Edit<W>) {
    && e.depth < |levels|
    && TableFor(levels, mem, root, e.depth, e.virt).Some?
    && (IsLink(levels, e) ==> IsUnused(levels, mem, root, e.depth + 1, levels[e.depth].getNextPt(e.entry)))
  }

  ghost function Apply<W(!new)>(levels: seq<Callbacks<W>>, mem: map<Slot<W, W>, W>, root: W, e: Edit<W>): map<Slot<W, W>, W>
    requires Allowed(levels, mem, root, e)
  {
    mem[Slot(TableFor(levels, mem, root, e.depth, e.virt).value, levels[e.depth].index(e.virt)) := e.entry]
  }

  /** The rest of an address's path. */
  lemma {:induction false} PathDrop<W>(levels: seq<Callbacks<W>>, k: nat, w: W)
    requires k <= |levels|
    ensures Path(levels, 0, w)[k..] == Path(levels, k, w)
    decreases k
  {
    if k > 0 {
      PathDrop(levels, k - 1, w);
      assert Path(levels, 0, w)[k..] == Path(levels, 0, w)[k - 1..][1..];
    }
  }

  /** A table without links is walked alike in memories that agree on it. */
  lemma LeafTableWalk<W(!new)>(levels: seq<Callbacks<W>>, mem: map<Slot<W, W>, W>, mem': map<Slot<W, W>, W>, k: nat, table: W, w: W)
    requires k <= |levels| && HasNoLinks(levels, mem, k, table)
    requires forall j: W :: (Slot(table, j) in mem <==> Slot(table, j) in mem')
                            && (Slot(table, j) in mem ==> mem'[Slot(table, j)] == mem[Slot(table, j)])
    ensures Walk(Decoding(levels), mem', table, Path(levels, k, w)) == Walk(Decoding(levels), mem, table, Path(levels, k, w))
  {
    if k < |levels| {
      var path := Path(levels, k, w);
      var slot := Slot(table, path[0]);
      if slot in mem {
        assert Decoding(levels)(|path|, mem[slot]) == Kind(levels, |path|, mem[slot]);
      }
    }
  }

  lemma LinkedTableWalk<W(!new)>(levels: seq<Callbacks<W>>, mem: map<Slot<W, W>, W>, root: W, e: Edit<W>, w: W)
    requires Allowed(levels, mem, root, e) && IsLink(levels, e)
    ensures var next := levels[e.depth].getNextPt(e.entry);
      Walk(Decoding(levels), Apply(levels, mem, root, e), next, Path(levels, e.depth + 1, w))
      == Walk(Decoding(levels), mem, next, Path(levels, e.depth + 1, w))
  {
    var next := levels[e.depth].getNextPt(e.entry);
    assert Reach(Decoding(levels), mem, |levels|, root, Path(levels, 0, e.virt)[..e.depth]) != Some(next);
    LeafTableWalk(levels, mem, Apply(levels, mem, root, e), e.depth + 1, next, w);
  }

  /** What the walk for address `w` finds after an edit. */
  lemma WalkAfterEdit<W(!new)>(levels: seq<Callbacks<W>>, mem: map<Slot<W, W>, W>, root: W, e: Edit<W>, w: W)
    requires IsTree(levels, mem, root) && Allowed(levels, mem, root, e)
    ensures Walk(Decoding(levels), Apply(levels, mem, root, e), root, Path(levels, 0, w))
            == if !SamePage(levels, e.depth, e.virt, w) then Walk(Decoding(levels), mem, root, Path(levels, 0, w))
               else if !levels[e.depth].valid(e.entry) then None
               else if levels[e.depth].terminal(e.entry) then Some((e.entry, Path(levels, e.depth + 1, w)))
               else Walk(Decoding(levels), mem, levels[e.depth].getNextPt(e.entry), Path(levels, e.depth + 1, w))
  {
    var dec := Decoding(levels);
    var at, i, key := Path(levels, 0, e.virt)[..e.depth], levels[e.depth].index(e.virt), Path(levels, 0, w);
    assert dec(|levels| - e.depth, e.entry) == Kind(levels, |levels| - e.depth, e.entry);
    WriteFrame(dec, mem, |levels|, root, at, i, e.entry, key);
    assert SamePage(levels, e.depth, e.virt, w) <==> at + [i] <= key by {
      SamePageIsPrefix(levels, e.depth, e.virt, w);
    }
    if at + [i] <= key {
      assert key[e.depth + 1..] == Path(levels, e.depth + 1, w) by {
        PathDrop(levels, e.depth + 1, w);
      }
      if IsLink(levels, e) {
        LinkedTableWalk(levels, mem, root, e, w);
      }
    }
  }

  /** What an edit prescribes for the addresses on its page; the translation through a linked table is as it is there. */
  ghost function Prescribed<W(!new)>(levels: seq<Callbacks<W>>, invalid: W, mem: map<Slot<W, W>, W>, e: Edit<W>, w: W): W
    requires e.depth < |levels|
  {
    if !levels[e.depth].valid(e.entry) then invalid
    else if levels[e.depth].terminal(e.entry) then levels[e.depth].getPhys(e.entry, w)
    else Translate(levels, e.depth + 1, invalid, mem, levels[e.depth].getNextPt(e.entry), w)
  }

  /**
   Every address on the edited page is translated as the new entry says, and as the linked table says if it is a
   link; no address on another page is translated differently.
   */
  lemma EditFrame<W(!new)>(levels: seq<Callbacks<W>>, invalid: W, mem: map<Slot<W, W>, W>, root: W, e: Edit<W>, w: W)
    requires WellBehaved(levels, invalid) && IsTree(levels, mem, root) && Allowed(levels, mem, root, e)
    ensures Translate(levels, 0, invalid, Apply(levels, mem, root, e), root, w)
            == if !SamePage(levels, e.depth, e.virt, w) then Translate(levels, 0, invalid, mem, root, w)
               else Prescribed(levels, invalid, mem, e, w)
  {
    TranslateIsLookup(levels, 0, invalid, mem, root, w);
    TranslateIsLookup(levels, 0, invalid, Apply(levels, mem, root, e), root, w);
    WalkAfterEdit(levels, mem, root, e, w);
    if IsLink(levels, e) {
      TranslateIsLookup(levels, e.depth + 1, invalid, mem, levels[e.depth].getNextPt(e.entry), w);
    }
  }

  /**
   A page can be split: if a table that the tree does not use translates every address on the page as the tree
   does, linking it in place of the page's entry changes the translation of no address at all.
   */
  lemma SplitKeepsTranslation<W(!new)>(levels: seq<Callbacks<W>>, invalid: W, mem: map<Slot<W, W>, W>, root: W, e: Edit<W>, w: W)
    requires WellBehaved(levels, invalid) && IsTree(levels, mem, root) && Allowed(levels, mem, root, e) && IsLink(levels, e)
    requires SamePage(levels, e.depth, e.virt, w) ==>
               Translate(levels, e.depth + 1, invalid, mem, levels[e.depth].getNextPt(e.entry), w)
               == Translate(levels, 0, invalid, mem, root, w)
    ensures Translate(levels, 0, invalid, Apply(levels, mem, root, e), root, w) == Translate(levels, 0, invalid, mem, root, w)
  {
    EditFrame(levels, invalid, mem, root, e, w);
  }

  lemma NoLinksRead<W(!new)>(levels: seq<Callbacks<W>>, mem: map<Slot<W, W>, W>, k: nat, table: W, j: W)
    requires k <= |levels| && HasNoLinks(levels, mem, k, table)
    ensures !Read(Decoding(levels), mem, |levels| - k, Slot(table, j)).Next?
  {
    if Slot(table, j) in mem {
      assert Decoding(levels)(|levels| - k, mem[Slot(table, j)]) == Kind(levels, |levels| - k, mem[Slot(table, j)]);
    }
  }

  /** The level that an edit's entry is read at; `path` is the path of the edit's address. */
  lemma EditDecodes<W(!new)>(levels: seq<Callbacks<W>>, e: Edit<W>, path: seq<W>, i: W)
    requires e.depth < |levels| == |path|
    ensures Decoding(levels)(LevelOf(|levels|, path[..e.depth] + [i]), e.entry) == Kind(levels, |levels| - e.depth, e.entry)
    ensures LevelOf(|levels|, path[..e.depth] + [i]) == |levels| - e.depth
  {
    LevelOfPrefix(path, e.depth, i);
  }

  lemma UnusedIsClean<W(!new)>(levels: seq<Callbacks<W>>, mem: map<Slot<W, W>, W>, root: W, e: Edit<W>, at: seq<W>, i: W)
    requires |at| == e.depth < |levels|
    requires IsLink(levels, e) ==> IsUnused(levels, mem, root, e.depth + 1, levels[e.depth].getNextPt(e.entry))
    ensures CleanWrite(Decoding(levels), mem, |levels|, root, at, i, e.entry)
  {
    var level := |levels| - e.depth;
    assert LevelOf(|levels|, at + [i]) == level;
    assert Decoding(levels)(level, e.entry) == Kind(levels, level, e.entry);
    if IsLink(levels, e) {
      var next := levels[e.depth].getNextPt(e.entry);
      forall j: W ensures !Read(Decoding(levels), mem, Below(level), Slot(next, j)).Next? {
        NoLinksRead(levels, mem, e.depth + 1, next, j);
      }
    }
  }

  lemma EditIsClean<W(!new)>(levels: seq<Callbacks<W>>, mem: map<Slot<W, W>, W>, root: W, e: Edit<W>)
    requires Allowed(levels, mem, root, e)
    ensures CleanWrite(Decoding(levels), mem, |levels|, root, Path(levels, 0, e.virt)[..e.depth], levels[e.depth].index(e.virt), e.entry)
  {
    UnusedIsClean(levels, mem, root, e, Path(levels, 0, e.virt)[..e.depth], levels[e.depth].index(e.virt));
  }

  lemma EditKeepsTree<W(!new)>(levels: seq<Callbacks<W>>, mem: map<Slot<W, W>, W>, root: W, e: Edit<W>)
    requires IsTree(levels, mem, root) && Allowed(levels, mem, root, e)
    ensures IsTree(levels, Apply(levels, mem, root, e), root)
  {
    EditIsClean(levels, mem, root, e);
    WriteKeepsTree(Decoding(levels), mem, |levels|, root, Path(levels, 0, e.virt)[..e.depth], levels[e.depth].index(e.virt), e.entry);
  }

  /** A link leads to its table for every address on the page, so that the next level can be written there. */
  lemma LinkReaches<W(!new)>(levels: seq<Callbacks<W>>, mem: map<Slot<W, W>, W>, root: W, e: Edit<W>, w: W)
    requires IsTree(levels, mem, root) && Allowed(levels, mem, root, e) && IsLink(levels, e)
    requires SamePage(levels, e.depth, e.virt, w)
    ensures TableFor(levels, Apply(levels, mem, root, e), root, e.depth + 1, w)
            == Some(levels[e.depth].getNextPt(e.entry))
  {
    var dec, at, i := Decoding(levels), Path(levels, 0, e.virt)[..e.depth], levels[e.depth].index(e.virt);
    EditDecodes(levels, e, Path(levels, 0, e.virt), levels[e.depth].index(e.virt));
    assert Path(levels, 0, w)[..e.depth + 1] == at + [i] by {
      SamePageIsPrefix(levels, e.depth, e.virt, w);
    }
    WrittenLinkReaches(dec, mem, |levels|, root, at, i, e.entry);
  }

  // ---- Runs ----

  /** A write to an entry of the tree, or to an entry of a table that is not part of it, or not yet. */
  datatype Write<W> = InTree(edit: Edit<W>) | Detached(table: W, index: W, entry: W)

  ghost predicate WriteAllowed<W(!new)>(levels: seq<Callbacks<W>>, mem: map<Slot<W, W>, W>, root: W, a: Write<W>) {
    match a
    case InTree(e) => Allowed(levels, mem, root, e)
    case Detached(table, _, _) => IsDetached(Decoding(levels), mem, |levels|, root, table)
  }

  ghost function ApplyWrite<W(!new)>(levels: seq<Callbacks<W>>, mem: map<Slot<W, W>, W>, root: W, a: Write<W>): map<Slot<W, W>, W>
    requires WriteAllowed(levels, mem, root, a)
  {
    match a
    case InTree(e) => Apply(levels, mem, root, e)
    case Detached(table, index, entry) => mem[Slot(table, index) := entry]
  }

  /** Filling a table outside of the tree changes no translation. */
  lemma DetachedFrame<W(!new)>(levels: seq<Callbacks<W>>, invalid: W, mem: map<Slot<W, W>, W>, root: W, a: Write<W>, w: W)
    requires WellBehaved(levels, invalid) && a.Detached? && WriteAllowed(levels, mem, root, a)
    ensures Translate(levels, 0, invalid, ApplyWrite(levels, mem, root, a), root, w) == Translate(levels, 0, invalid, mem, root, w)
  {
    TranslateIsLookup(levels, 0, invalid, mem, root, w);
    TranslateIsLookup(levels, 0, invalid, ApplyWrite(levels, mem, root, a), root, w);
    DetachedWalk(Decoding(levels), mem, |levels|, root, a.table, a.index, a.entry, [], root, Path(levels, 0, w));
  }

  lemma WriteKeepsIsTree<W(!new)>(levels: seq<Callbacks<W>>, mem: map<Slot<W, W>, W>, root: W, a: Write<W>)
    requires IsTree(levels, mem, root) && WriteAllowed(levels, mem, root, a)
    ensures IsTree(levels, ApplyWrite(levels, mem, root, a), root)
  {
    match a
    case InTree(e) => EditKeepsTree(levels, mem, root, e);
    case Detached(table, index, entry) => DetachedKeepsTree(Decoding(levels), mem, |levels|, root, table, index, entry);
  }

  /** Memory after a run of writes on an empty root table, if each of them was allowed. */
  ghost function After<W(!new)>(levels: seq<Callbacks<W>>, root: W, writes: seq<Write<W>>): Option<map<Slot<W, W>, W>>
    decreases |writes|
  {
    if writes == [] then Some(map[])
    else
      match After(levels, root, writes[..|writes| - 1])
      case None => None
      case Some(mem) =>
        if WriteAllowed(levels, mem, root, writes[|writes| - 1]) then Some(ApplyWrite(levels, mem, root, writes[|writes| - 1]))
        else None
  }

  /** The translation that the last write to the tree on the page of an address prescribes. */
  ghost function LastWord<W(!new)>(levels: seq<Callbacks<W>>, invalid: W, root: W, writes: seq<Write<W>>, w: W): W
    requires After(levels, root, writes).Some?
    decreases |writes|
  {
    if writes == [] then invalid
    else
      var prefix, a := writes[..|writes| - 1], writes[|writes| - 1];
      if a.InTree? && SamePage(levels, a.edit.depth, a.edit.virt, w)
      then Prescribed(levels, invalid, After(levels, root, prefix).value, a.edit, w)
      else LastWord(levels, invalid, root, prefix, w)
  }

  /** After any run the tables form a tree and translate every address as the last write on its page said. */
  lemma {:induction false} RunTranslates<W(!new)>(levels: seq<Callbacks<W>>, invalid: W, root: W, writes: seq<Write<W>>, w: W)
    requires WellBehaved(levels, invalid) && After(levels, root, writes).Some?
    ensures var mem := After(levels, root, writes).value;
      IsTree(levels, mem, root) && Translate(levels, 0, invalid, mem, root, w) == LastWord(levels, invalid, root, writes, w)
    decreases |writes|
  {
    if writes == [] {
      EmptyTree<W, W, W, W>(Decoding(levels), |levels|, root);
    } else {
      var prefix, a := writes[..|writes| - 1], writes[|writes| - 1];
      RunTranslates(levels, invalid, root, prefix, w);
      var mem := After(levels, root, prefix).value;
      WriteKeepsIsTree(levels, mem, root, a);
      match a
      case InTree(e) => EditFrame(levels, invalid, mem, root, e, w);
      case Detached(_, _, _) => DetachedFrame(levels, invalid, mem, root, a, w);
    }
  }

  // ---- Every address can be mapped ----

  /** The edits that link one table after the other below the root, on the way of an address. */
  ghost function LinkEdits<W>(levels: seq<Callbacks<W>>, virt: W, tables: seq<W>): (writes: seq<Write<W>>)
    requires |tables| <= |levels|
    ensures |writes| == |tables|
  {
    if tables == [] then []
    else
      var k := |tables| - 1;
      LinkEdits(levels, virt, tables[..k]) + [InTree(Edit(k, virt, levels[k].setNextPt(tables[k])))]
  }

  /** Spare pages for the tables below the root; a link to each of them is valid and leads there. */
  ghost predicate Spare<W(!new)>(levels: seq<Callbacks<W>>, root: W, tables: seq<W>) {
    && |tables| < |levels|
    && (forall j :: 0 <= j < |tables| ==> tables[j] != root)
    && (forall i, j :: 0 <= i < j < |tables| ==> tables[i] != tables[j])
    && (forall k :: 0 <= k < |tables| ==> LinkWorks(levels[k], tables[k]))
  }

  ghost predicate LinkWorks<W>(cb: Callbacks<W>, table: W) {
    var pte := cb.setNextPt(table);
    cb.valid(pte) && !cb.terminal(pte) && cb.getNextPt(pte) == table
  }

  /** Nothing but the root and the given tables has been written, and nothing else is reached. */
  ghost predicate Confined<W(!new)>(levels: seq<Callbacks<W>>, mem: map<Slot<W, W>, W>, root: W, tables: seq<W>) {
    && (forall s :: s in mem ==> s.table == root || s.table in tables)
    && (forall p: seq<W> :: match Reach(Decoding(levels), mem, |levels|, root, p)
                            case None => true
                            case Some(t) => t == root || t in tables)
  }

  lemma EditConfined<W(!new)>(levels: seq<Callbacks<W>>, mem: map<Slot<W, W>, W>, root: W, tables: seq<W>, e: Edit<W>, t: W)
    requires IsTree(levels, mem, root) && Allowed(levels, mem, root, e) && IsLink(levels, e)
    requires Confined(levels, mem, root, tables) && levels[e.depth].getNextPt(e.entry) == t
    ensures Confined(levels, Apply(levels, mem, root, e), root, tables + [t])
  {
    var dec, at, i := Decoding(levels), Path(levels, 0, e.virt)[..e.depth], levels[e.depth].index(e.virt);
    var mem' := Apply(levels, mem, root, e);
    EditIsClean(levels, mem, root, e);
    EditDecodes(levels, e, Path(levels, 0, e.virt), levels[e.depth].index(e.virt));
    forall p: seq<W>
      ensures Reach(dec, mem', |levels|, root, p) == Reach(dec, mem, |levels|, root, p)
              || Reach(dec, mem', |levels|, root, p) == None || Reach(dec, mem', |levels|, root, p) == Some(t)
    {
      ReachedAfterWrite(dec, mem, |levels|, root, at, i, e.entry, p);
    }
  }

  lemma AfterSnoc<W(!new)>(levels: seq<Callbacks<W>>, root: W, writes: seq<Write<W>>, e: Edit<W>)
    requires After(levels, root, writes).Some? && Allowed(levels, After(levels, root, writes).value, root, e)
    ensures After(levels, root, writes + [InTree(e)]) == Some(Apply(levels, After(levels, root, writes).value, root, e))
  {
    assert (writes + [InTree(e)])[..|writes|] == writes;
  }

  lemma LinkStep<W(!new)>(levels: seq<Callbacks<W>>, mem: map<Slot<W, W>, W>, root: W, tables: seq<W>, virt: W, t: W)
    requires |tables| < |levels| && IsTree(levels, mem, root) && Confined(levels, mem, root, tables)
    requires TableFor(levels, mem, root, |tables|, virt).Some?
    requires t != root && t !in tables && LinkWorks(levels[|tables|], t)
    ensures var e := Edit(|tables|, virt, levels[|tables|].setNextPt(t));
      && Allowed(levels, mem, root, e)
      && IsTree(levels, Apply(levels, mem, root, e), root)
      && Confined(levels, Apply(levels, mem, root, e), root, tables + [t])
      && TableFor(levels, Apply(levels, mem, root, e), root, |tables| + 1, virt) == Some(t)
  {
    var e := Edit(|tables|, virt, levels[|tables|].setNextPt(t));
    assert IsUnused(levels, mem, root, |tables| + 1, t);
    EditKeepsTree(levels, mem, root, e);
    EditConfined(levels, mem, root, tables, e, t);
    LinkReaches(levels, mem, root, e, virt);
  }

  /** Linking spare pages is always allowed and leads to the last of them. */
  lemma {:induction false} LinksReach<W(!new)>(levels: seq<Callbacks<W>>, root: W, virt: W, tables: seq<W>)
    requires Spare(levels, root, tables)
    ensures var r := After(levels, root, LinkEdits(levels, virt, tables));
      && r.Some? && IsTree(levels, r.value, root) && Confined(levels, r.value, root, tables)
      && TableFor(levels, r.value, root, |tables|, virt) == Some(if tables == [] then root else tables[|tables| - 1])
    decreases |tables|
  {
    if tables == [] {
      EmptyTree<W, W, W, W>(Decoding(levels), |levels|, root);
    } else {
      var k := |tables| - 1;
      var prefix, t := tables[..k], tables[k];
      assert tables == prefix + [t];
      LinksReach(levels, root, virt, prefix);
      var mem := After(levels, root, LinkEdits(levels, virt, prefix)).value;
      LinkStep(levels, mem, root, prefix, virt, t);
      AfterSnoc(levels, root, LinkEdits(levels, virt, prefix), Edit(k, virt, levels[k].setNextPt(t)));
    }
  }

  /** With a spare page for each level in between, a terminal entry maps its address. */
  lemma AddressCanBeMapped<W(!new)>(levels: seq<Callbacks<W>>, invalid: W, root: W, virt: W, tables: seq<W>, pte: W)
    requires WellBehaved(levels, invalid) && Spare(levels, root, tables)
    requires levels[|tables|].valid(pte) && levels[|tables|].terminal(pte)
    ensures var r := After(levels, root, LinkEdits(levels, virt, tables) + [InTree(Edit(|tables|, virt, pte))]);
      r.Some? && Translate(levels, 0, invalid, r.value, root, virt) == levels[|tables|].getPhys(pte, virt)
  {
    LinksReach(levels, root, virt, tables);
    var mem, e := After(levels, root, LinkEdits(levels, virt, tables)).value, Edit(|tables|, virt, pte);
    AfterSnoc(levels, root, LinkEdits(levels, virt, tables), e);
    EditFrame(levels, invalid, mem, root, e, virt);
  }

  /**
   In a table that exists an entry can be set, replaced and cleared any number of times: after any run such a write
   is allowed, takes effect for the addresses on the page alone, and leaves the table where it is.
   */
  lemma EntryCanBeRewritten<W(!new)>(levels: seq<Callbacks<W>>, invalid: W, root: W, writes: seq<Write<W>>, e: Edit<W>, w: W)
    requires WellBehaved(levels, invalid) && After(levels, root, writes).Some? && e.depth < |levels| && !IsLink(levels, e)
    requires TableFor(levels, After(levels, root, writes).value, root, e.depth, e.virt).Some?
    ensures var r := After(levels, root, writes + [InTree(e)]);
      && r.Some?
      && TableFor(levels, r.value, root, e.depth, e.virt)
         == TableFor(levels, After(levels, root, writes).value, root, e.depth, e.virt)
      && Translate(levels, 0, invalid, r.value, root, w)
         == if !SamePage(levels, e.depth, e.virt, w) then Translate(levels, 0, invalid, After(levels, root, writes).value, root, w)
            else if levels[e.depth].valid(e.entry) then levels[e.depth].getPhys(e.entry, w)
            else invalid
  {
    var mem := After(levels, root, writes).value;
    RunTranslates(levels, invalid, root, writes, w);
    AfterSnoc(levels, root, writes, e);
    EditFrame(levels, invalid, mem, root, e, w);
    EditIsClean(levels, mem, root, e);
    var at := Path(levels, 0, e.virt)[..e.depth];
    ReachedAfterWrite(Decoding(levels), mem, |levels|, root, at, levels[e.depth].index(e.virt), e.entry, at);
  }

  // ---- Runs of callback calls ----

  /**
   A call of set_terminal, set_next_pt or clear_entry on the entry that get_entry finds for `virt`, in the table
   `depth` links below the root; or of set_terminal on an entry of a table of that level outside of the tree.
   */
  datatype Op<W> =
    | SetTerminal(depth: nat, virt: W, phys: W, flags: W)
    | SetNextPt(depth: nat, virt: W, nextPt: W)
    | ClearEntry(depth: nat, virt: W)
    | FillTerminal(depth: nat, virt: W, phys: W, flags: W, table: W)

  /**
   What the writing callbacks are documented to achieve: `frame(k)` is the address that a terminal entry of level
   k maps to, `grants` says which flags permit the access, and `clean` which words may be passed as flags.
   */
  datatype Effect<!W> = Effect(frame: (nat, W, W) -> W, grants: W -> bool, clean: W -> bool)

  ghost predicate TerminalMaps<W(!new)>(cb: Callbacks<W>, k: nat, fx: Effect<W>)
    requires cb.setTerminal.Some?
  {
    forall phys, flags, v :: fx.clean(flags) ==> cb.getPhys(cb.setTerminal.value(phys, flags), v) == fx.frame(k, phys, v)
  }

  ghost predicate TerminalGrants<W(!new)>(cb: Callbacks<W>, fx: Effect<W>)
    requires cb.setTerminal.Some?
  {
    forall phys, flags :: fx.clean(flags) ==> (cb.valid(cb.setTerminal.value(phys, flags)) <==> fx.grants(flags))
  }

  ghost predicate SetsTerminal<W(!new)>(cb: Callbacks<W>, fx: Effect<W>)
    requires cb.setTerminal.Some?
  {
    forall phys, flags :: fx.clean(flags) ==> cb.terminal(cb.setTerminal.value(phys, flags))
  }

  ghost predicate LinksAreNotTerminal<W(!new)>(cb: Callbacks<W>) {
    forall next :: !cb.terminal(cb.setNextPt(next))
  }

  ghost predicate WritesWellBehaved<W(!new)>(levels: seq<Callbacks<W>>, fx: Effect<W>) {
    && (forall k :: 0 <= k < |levels| && levels[k].setTerminal.Some? ==>
          TerminalMaps(levels[k], k, fx) && TerminalGrants(levels[k], fx) && SetsTerminal(levels[k], fx))
    && (forall k :: 0 <= k < |levels| - 1 ==> LinksAreNotTerminal(levels[k]))
    && (forall k :: 0 <= k < |levels| ==> !levels[k].valid(levels[k].cleared))
  }

  /** The contracts of the levels, one by one. */
  lemma WritesOfLevels<W(!new)>(root: Option<Callbacks<W>>, c3: Callbacks<W>, c2: Callbacks<W>, c1: Callbacks<W>, fx: Effect<W>)
    requires root.Some? ==> root.value.setTerminal.None? && LinksAreNotTerminal(root.value)
                            && !root.value.valid(root.value.cleared)
    requires c3.setTerminal.Some? && c2.setTerminal.Some? && c1.setTerminal.Some?
    requires var d := if root.Some? then 1 else 0;
      TerminalMaps(c3, d, fx) && TerminalMaps(c2, d + 1, fx) && TerminalMaps(c1, d + 2, fx)
    requires TerminalGrants(c3, fx) && TerminalGrants(c2, fx) && TerminalGrants(c1, fx)
    requires SetsTerminal(c3, fx) && SetsTerminal(c2, fx) && SetsTerminal(c1, fx)
    requires LinksAreNotTerminal(c3) && LinksAreNotTerminal(c2)
    requires !c3.valid(c3.cleared) && !c2.valid(c2.cleared) && !c1.valid(c1.cleared)
    ensures WritesWellBehaved((if root.Some? then [root.value] else []) + [c3, c2, c1], fx)
  {
  }

  /** The callback exists at the level. */
  ghost predicate WellFormed<W>(levels: seq<Callbacks<W>>, fx: Effect<W>, op: Op<W>) {
    && op.depth < |levels|
    && (op.SetTerminal? || op.FillTerminal? ==> levels[op.depth].setTerminal.Some? && fx.clean(op.flags))
    && (op.SetNextPt? ==> op.depth < |levels| - 1)
  }

  ghost function WriteOf<W>(levels: seq<Callbacks<W>>, fx: Effect<W>, op: Op<W>): Write<W>
    requires WellFormed(levels, fx, op)
  {
    var cb := levels[op.depth];
    match op
    case SetTerminal(k, virt, phys, flags) => InTree(Edit(k, virt, cb.setTerminal.value(phys, flags)))
    case SetNextPt(k, virt, nextPt) => InTree(Edit(k, virt, cb.setNextPt(nextPt)))
    case ClearEntry(k, virt) => InTree(Edit(k, virt, cb.cleared))
    case FillTerminal(_, virt, phys, flags, table) => Detached(table, cb.index(virt), cb.setTerminal.value(phys, flags))
  }

  ghost function WritesOf<W>(levels: seq<Callbacks<W>>, fx: Effect<W>, ops: seq<Op<W>>): (writes: seq<Write<W>>)
    requires forall j :: 0 <= j < |ops| ==> WellFormed(levels, fx, ops[j])
    ensures |writes| == |ops|
  {
    seq(|ops|, j requires 0 <= j < |ops| => WriteOf(levels, fx, ops[j]))
  }

  /** Where a call for the page of an address maps it; `mem` is the memory in which the call is made. */
  ghost function CallMaps<W(!new)>(levels: seq<Callbacks<W>>, fx: Effect<W>, invalid: W, mem: map<Slot<W, W>, W>, op: Op<W>, w: W): W
    requires WellFormed(levels, fx, op) && !op.FillTerminal?
  {
    match op
    case SetTerminal(k, _, phys, flags) => if fx.grants(flags) then fx.frame(k, phys, w) else invalid
    case SetNextPt(k, _, nextPt) =>
      var pte := levels[k].setNextPt(nextPt);
      if levels[k].valid(pte) then Translate(levels, k + 1, invalid, mem, levels[k].getNextPt(pte), w) else invalid
    case ClearEntry(_, _) => invalid
  }

  /** Where the last call for the page of an address in the tree maps it. */
  ghost function MappedTo<W(!new)>(levels: seq<Callbacks<W>>, fx: Effect<W>, invalid: W, root: W, ops: seq<Op<W>>, w: W): W
    requires forall j :: 0 <= j < |ops| ==> WellFormed(levels, fx, ops[j])
    requires After(levels, root, WritesOf(levels, fx, ops)).Some?
    decreases |ops|
  {
    if ops == [] then invalid
    else
      var prefix, op := ops[..|ops| - 1], ops[|ops| - 1];
      WritesOfPrefix(levels, fx, ops);
      if !op.FillTerminal? && SamePage(levels, op.depth, op.virt, w)
      then CallMaps(levels, fx, invalid, After(levels, root, WritesOf(levels, fx, prefix)).value, op, w)
      else MappedTo(levels, fx, invalid, root, prefix, w)
  }

  lemma WritesOfPrefix<W(!new)>(levels: seq<Callbacks<W>>, fx: Effect<W>, ops: seq<Op<W>>)
    requires ops != [] && forall j :: 0 <= j < |ops| ==> WellFormed(levels, fx, ops[j])
    ensures WellFormed(levels, fx, ops[|ops| - 1])
    ensures WritesOf(levels, fx, ops)[..|ops| - 1] == WritesOf(levels, fx, ops[..|ops| - 1])
    ensures WritesOf(levels, fx, ops)[|ops| - 1] == WriteOf(levels, fx, ops[|ops| - 1])
  {
  }

  /** What a call in the tree prescribes is where it maps. */
  lemma CallMeaning<W(!new)>(levels: seq<Callbacks<W>>, fx: Effect<W>, invalid: W, mem: map<Slot<W, W>, W>, op: Op<W>, w: W)
    requires WellBehaved(levels, invalid) && WritesWellBehaved(levels, fx) && WellFormed(levels, fx, op) && !op.FillTerminal?
    ensures Prescribed(levels, invalid, mem, WriteOf(levels, fx, op).edit, w) == CallMaps(levels, fx, invalid, mem, op, w)
  {
    var cb, pte := levels[op.depth], WriteOf(levels, fx, op).edit.entry;
    assert GetPhysContract(cb, invalid);
    assert cb.getPhys(pte, w) == invalid <==> !cb.terminal(pte);
    if op.SetTerminal? {
      assert TerminalMaps(cb, op.depth, fx) && TerminalGrants(cb, fx);
      TerminalIsTerminal(levels, fx, invalid, op.depth, op.phys, op.flags);
    }
  }

  /** What set_terminal writes is not taken for a link. */
  lemma TerminalIsTerminal<W(!new)>(levels: seq<Callbacks<W>>, fx: Effect<W>, invalid: W, k: nat, phys: W, flags: W)
    requires WritesWellBehaved(levels, fx) && k < |levels| && levels[k].setTerminal.Some? && fx.clean(flags)
    ensures levels[k].terminal(levels[k].setTerminal.value(phys, flags))
  {
    assert SetsTerminal(levels[k], fx);
  }

  lemma {:induction false} LastWordIsMappedTo<W(!new)>(levels: seq<Callbacks<W>>, fx: Effect<W>, invalid: W, root: W, ops: seq<Op<W>>, w: W)
    requires WellBehaved(levels, invalid) && WritesWellBehaved(levels, fx)
    requires forall j :: 0 <= j < |ops| ==> WellFormed(levels, fx, ops[j])
    requires After(levels, root, WritesOf(levels, fx, ops)).Some?
    ensures LastWord(levels, invalid, root, WritesOf(levels, fx, ops), w) == MappedTo(levels, fx, invalid, root, ops, w)
    decreases |ops|
  {
    if ops != [] {
      var prefix, op := ops[..|ops| - 1], ops[|ops| - 1];
      WritesOfPrefix(levels, fx, ops);
      LastWordIsMappedTo(levels, fx, invalid, root, prefix, w);
      if !op.FillTerminal? {
        CallMeaning(levels, fx, invalid, After(levels, root, WritesOf(levels, fx, prefix)).value, op, w);
      }
    }
  }

  /**
   After any run of set_terminal, set_next_pt and clear_entry calls on an empty root table and on tables outside
   of the tree, in which links lead to tables that the tree does not use and that are empty or filled with
   terminal entries, the walk takes every address to where the last call for its page maps it.
   */
  lemma PageTablesTranslate<W(!new)>(levels: seq<Callbacks<W>>, fx: Effect<W>, invalid: W, root: W, ops: seq<Op<W>>, w: W)
    requires WellBehaved(levels, invalid) && WritesWellBehaved(levels, fx)
    requires forall j :: 0 <= j < |ops| ==> WellFormed(levels, fx, ops[j])
    requires After(levels, root, WritesOf(levels, fx, ops)).Some?
    ensures var mem := After(levels, root, WritesOf(levels, fx, ops)).value;
      Translate(levels, 0, invalid, mem, root, w) == MappedTo(levels, fx, invalid, root, ops, w)
  {
    RunTranslates(levels, invalid, root, WritesOf(levels, fx, ops), w);
    LastWordIsMappedTo(levels, fx, invalid, root, ops, w);
  }
}
