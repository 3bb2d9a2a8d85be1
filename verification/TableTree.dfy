/**
 Trees of tables: a lookup key is a path of indices, one per level, and an entry is absent, links to a table
 of the next level, or is a leaf, which may end the path early. How an entry word is to be read depends on
 the level, so decoding is a parameter.
 */
module TableTree {
  import opened Common

  datatype Entry<+T, +L> = Absent | Next(table: T) | Leaf(leaf: L)

  datatype Slot<+T, +I> = Slot(table: T, index: I)

  /** `level` counts down: it is the length of the rest of the path, this table's index included. */
  type Decoder<!T, !L, !W> = (nat, W) -> Entry<T, L>

  ghost function Read<T, I, L, W>(dec: Decoder<T, L, W>, mem: map<Slot<T, I>, W>, level: nat, s: Slot<T, I>): Entry<T, L> {
    if s in mem then dec(level, mem[s]) else Absent
  }

  /** The leaf a path leads to, and the part of the path behind it. */
  ghost function Walk<T, I, L, W>(dec: Decoder<T, L, W>, mem: map<Slot<T, I>, W>, t: T, path: seq<I>): (r: Option<(L, seq<I>)>)
    ensures r.Some? ==> |r.value.1| < |path|
    decreases |path|
  {
    if path == [] then None
    else
      match Read(dec, mem, |path|, Slot(t, path[0]))
      case Absent => None
      case Leaf(v) => Some((v, path[1..]))
      case Next(t') => Walk(dec, mem, t', path[1..])
  }

  /** The level of the table that holds the last entry of a path. */
  function LevelOf<I>(depth: nat, path: seq<I>): nat {
    if depth >= |path| then depth - |path| + 1 else 0
  }

  function Below(level: nat): nat {
    if level > 0 then level - 1 else 0
  }

  lemma LevelOfPrefix<I>(path: seq<I>, k: nat, i: I)
    requires k < |path|
    ensures LevelOf(|path|, path[..k] + [i]) == |path| - k
  {
  }

  /** The table at the end of a path of links, in a tree of the given depth. */
  ghost function Reach<T, I, L, W>(dec: Decoder<T, L, W>, mem: map<Slot<T, I>, W>, depth: nat, root: T, path: seq<I>): Option<T>
    decreases |path|
  {
    if path == [] then Some(root)
    else
      match Reach(dec, mem, depth, root, path[..|path| - 1])
      case None => None
      case Some(t) =>
        match Read(dec, mem, LevelOf(depth, path), Slot(t, path[|path| - 1]))
        case Absent => None
        case Leaf(_) => None
        case Next(t') => Some(t')
  }

  /** No table is linked twice. */
  ghost predicate NonAliased<T(!new), I(!new), L(!new), W(!new)>(dec: Decoder<T, L, W>, mem: map<Slot<T, I>, W>,
                                                                  depth: nat, root: T)
  {
    forall p: seq<I>, q: seq<I> ::
      Reach(dec, mem, depth, root, p).Some? && Reach(dec, mem, depth, root, p) == Reach(dec, mem, depth, root, q) ==> p == q
  }

  /** The walk from a table that is reached by `done`, along the rest of the path. */
  lemma {:induction false} WalkAfterWrite<T(!new), I(!new), L(!new), W(!new)>(
      dec: Decoder<T, L, W>, mem: map<Slot<T, I>, W>, depth: nat, root: T, at: seq<I>, i: I, w: W,
      done: seq<I>, t: T, rest: seq<I>)
    requires NonAliased(dec, mem, depth, root) && |done| + |rest| == depth && |at| < depth
    requires Reach(dec, mem, depth, root, at).Some? && Reach(dec, mem, depth, root, done) == Some(t)
    ensures var slot := Slot(Reach(dec, mem, depth, root, at).value, i);
      !(at + [i] <= done + rest) ==> Walk(dec, mem[slot := w], t, rest) == Walk(dec, mem, t, rest)
    decreases |rest|
  {
    var slot := Slot(Reach(dec, mem, depth, root, at).value, i);
    if rest != [] && !(at + [i] <= done + rest) {
      var here := Slot(t, rest[0]);
      assert done + rest == (done + [rest[0]]) + rest[1..];
      assert here == slot ==> done == at;
      match Read(dec, mem, |rest|, here) {
        case Next(t') =>
          var done' := done + [rest[0]];
          assert done'[..|done'| - 1] == done;
          assert Reach(dec, mem, depth, root, done') == Some(t');
          assert done' + rest[1..] == done + rest;
          WalkAfterWrite(dec, mem, depth, root, at, i, w, done', t', rest[1..]);
        case _ =>
      }
    }
  }

  /** The entries in front of a reached table are links, so the walk along them goes on from there. */
  lemma {:induction false} WalkToReached<T, I, L, W>(dec: Decoder<T, L, W>, mem: map<Slot<T, I>, W>, depth: nat, root: T,
                                                     at: seq<I>, rest: seq<I>)
    requires |at| + |rest| == depth && Reach(dec, mem, depth, root, at).Some?
    ensures Walk(dec, mem, root, at + rest) == Walk(dec, mem, Reach(dec, mem, depth, root, at).value, rest)
    decreases |at|
  {
    if at == [] {
      assert at + rest == rest;
    } else {
      var n := |at| - 1;
      WalkToReached(dec, mem, depth, root, at[..n], [at[n]] + rest);
      assert at[..n] + ([at[n]] + rest) == at + rest;
      assert ([at[n]] + rest)[1..] == rest;
    }
  }

  /** A write outside the path to a table leaves the table where it is. */
  lemma {:induction false} ReachAfterWrite<T(!new), I(!new), L(!new), W(!new)>(
      dec: Decoder<T, L, W>, mem: map<Slot<T, I>, W>, depth: nat, root: T, at: seq<I>, i: I, w: W, p: seq<I>)
    requires NonAliased(dec, mem, depth, root) && Reach(dec, mem, depth, root, at).Some?
    requires !(at + [i] <= p)
    ensures var slot := Slot(Reach(dec, mem, depth, root, at).value, i);
      Reach(dec, mem[slot := w], depth, root, p) == Reach(dec, mem, depth, root, p)
    decreases |p|
  {
    if p != [] {
      var prefix := p[..|p| - 1];
      assert p == prefix + [p[|p| - 1]];
      ReachAfterWrite(dec, mem, depth, root, at, i, w, prefix);
      assert Reach(dec, mem, depth, root, prefix) == Reach(dec, mem, depth, root, at) ==> prefix == at;
    }
  }

  /**
   The frame theorem. In a tree without aliases, writing the entry that a path leads to changes the lookup of
   exactly the keys that extend the path: they find what the written entry says, all others what they found.
   */
  lemma WriteFrame<T(!new), I(!new), L(!new), W(!new)>(dec: Decoder<T, L, W>, mem: map<Slot<T, I>, W>, depth: nat, root: T,
                                                      at: seq<I>, i: I, w: W, key: seq<I>)
    requires NonAliased(dec, mem, depth, root) && |at| < depth == |key|
    requires Reach(dec, mem, depth, root, at).Some?
    ensures var mem' := mem[Slot(Reach(dec, mem, depth, root, at).value, i) := w];
      && (!(at + [i] <= key) ==> Walk(dec, mem', root, key) == Walk(dec, mem, root, key))
      && (at + [i] <= key ==>
            match dec(depth - |at|, w)
            case Absent => Walk(dec, mem', root, key).None?
            case Leaf(v) => Walk(dec, mem', root, key) == Some((v, key[|at| + 1..]))
            case Next(t') => Walk(dec, mem', root, key) == Walk(dec, mem', t', key[|at| + 1..]))
  {
    var slot := Slot(Reach(dec, mem, depth, root, at).value, i);
    WalkAfterWrite(dec, mem, depth, root, at, i, w, [], root, key);
    assert [] + key == key;
    if at + [i] <= key {
      ReachAfterWrite(dec, mem, depth, root, at, i, w, at);
      WalkToReached(dec, mem[slot := w], depth, root, at, key[|at|..]);
      assert at + key[|at|..] == key;
      assert key[|at|..][1..] == key[|at| + 1..];
    }
  }

  lemma WrittenLinkReaches<T(!new), I(!new), L(!new), W(!new)>(
      dec: Decoder<T, L, W>, mem: map<Slot<T, I>, W>, depth: nat, root: T, at: seq<I>, i: I, w: W)
    requires NonAliased(dec, mem, depth, root) && Reach(dec, mem, depth, root, at).Some?
    ensures var e := dec(LevelOf(depth, at + [i]), w);
      Reach(dec, mem[Slot(Reach(dec, mem, depth, root, at).value, i) := w], depth, root, at + [i])
      == if e.Next? then Some(e.table) else None
  {
    ReachAfterWrite(dec, mem, depth, root, at, i, w, at);
    assert (at + [i])[..|at + [i]| - 1] == at;
  }

  /** What is reached through a written slot: the linked table, and nothing behind it while that has no links. */
  lemma {:induction false} ReachThroughWrite<T(!new), I(!new), L(!new), W(!new)>(
      dec: Decoder<T, L, W>, mem: map<Slot<T, I>, W>, depth: nat, root: T, at: seq<I>, i: I, w: W, p: seq<I>)
    requires NonAliased(dec, mem, depth, root) && Reach(dec, mem, depth, root, at).Some?
    requires at + [i] <= p
    requires var e := dec(LevelOf(depth, at + [i]), w);
      e.Next? ==> e.table != Reach(dec, mem, depth, root, at).value
                  && forall j: I :: !Read(dec, mem, Below(LevelOf(depth, at + [i])), Slot(e.table, j)).Next?
    ensures var mem', e := mem[Slot(Reach(dec, mem, depth, root, at).value, i) := w], dec(LevelOf(depth, at + [i]), w);
      Reach(dec, mem', depth, root, p) == if p == at + [i] && e.Next? then Some(e.table) else None
    decreases |p|
  {
    var prefix := p[..|p| - 1];
    if |p| == |at| + 1 {
      assert p == at + [i];
      WrittenLinkReaches(dec, mem, depth, root, at, i, w);
    } else {
      ReachThroughWrite(dec, mem, depth, root, at, i, w, prefix);
      var e := dec(LevelOf(depth, at + [i]), w);
      assert |p| == |at| + 2 ==> prefix == at + [i] && LevelOf(depth, p) == Below(LevelOf(depth, at + [i]));
      assert e.Next? ==> !Read(dec, mem, Below(LevelOf(depth, at + [i])), Slot(e.table, p[|p| - 1])).Next?;
    }
  }

  /** A terminal entry, or a link to a table that is not in the tree yet and has no links itself. */
  ghost predicate CleanWrite<T(!new), I(!new), L(!new), W(!new)>(dec: Decoder<T, L, W>, mem: map<Slot<T, I>, W>, depth: nat, root: T,
                                                                 at: seq<I>, i: I, w: W)
  {
    var e := dec(LevelOf(depth, at + [i]), w);
    e.Next? ==> (forall p: seq<I> :: Reach(dec, mem, depth, root, p) != Some(e.table))
                && forall j: I :: !Read(dec, mem, Below(LevelOf(depth, at + [i])), Slot(e.table, j)).Next?
  }

  /** Which table a path leads to after such a write. */
  lemma ReachedAfterWrite<T(!new), I(!new), L(!new), W(!new)>(
      dec: Decoder<T, L, W>, mem: map<Slot<T, I>, W>, depth: nat, root: T, at: seq<I>, i: I, w: W, p: seq<I>)
    requires NonAliased(dec, mem, depth, root) && Reach(dec, mem, depth, root, at).Some?
    requires CleanWrite(dec, mem, depth, root, at, i, w)
    ensures var mem', e := mem[Slot(Reach(dec, mem, depth, root, at).value, i) := w], dec(LevelOf(depth, at + [i]), w);
      Reach(dec, mem', depth, root, p)
      == if at + [i] <= p then if p == at + [i] && e.Next? then Some(e.table) else None
         else Reach(dec, mem, depth, root, p)
  {
    if at + [i] <= p {
      ReachThroughWrite(dec, mem, depth, root, at, i, w, p);
    } else {
      ReachAfterWrite(dec, mem, depth, root, at, i, w, p);
    }
  }

  /** A clean write keeps the tree free of aliases. */
  lemma WriteKeepsTree<T(!new), I(!new), L(!new), W(!new)>(dec: Decoder<T, L, W>, mem: map<Slot<T, I>, W>, depth: nat, root: T,
                                                          at: seq<I>, i: I, w: W)
    requires NonAliased(dec, mem, depth, root) && Reach(dec, mem, depth, root, at).Some?
    requires CleanWrite(dec, mem, depth, root, at, i, w)
    ensures NonAliased(dec, mem[Slot(Reach(dec, mem, depth, root, at).value, i) := w], depth, root)
  {
    var mem' := mem[Slot(Reach(dec, mem, depth, root, at).value, i) := w];
    var e := dec(LevelOf(depth, at + [i]), w);
    forall p: seq<I>
      ensures Reach(dec, mem', depth, root, p)
              == if at + [i] <= p then if p == at + [i] && e.Next? then Some(e.table) else None
                 else Reach(dec, mem, depth, root, p)
    {
      ReachedAfterWrite(dec, mem, depth, root, at, i, w, p);
    }
  }

  /** A table that no path leads to. */
  ghost predicate IsDetached<T(!new), I(!new), L(!new), W(!new)>(dec: Decoder<T, L, W>, mem: map<Slot<T, I>, W>, depth: nat, root: T,
                                                                 table: T)
  {
    forall p: seq<I> :: Reach(dec, mem, depth, root, p) != Some(table)
  }

  /** A write to a detached table moves no table of the tree. */
  lemma {:induction false} DetachedReach<T(!new), I(!new), L(!new), W(!new)>(
      dec: Decoder<T, L, W>, mem: map<Slot<T, I>, W>, depth: nat, root: T, table: T, i: I, w: W, p: seq<I>)
    requires IsDetached(dec, mem, depth, root, table)
    ensures Reach(dec, mem[Slot(table, i) := w], depth, root, p) == Reach(dec, mem, depth, root, p)
    decreases |p|
  {
    if p != [] {
      DetachedReach(dec, mem, depth, root, table, i, w, p[..|p| - 1]);
      assert Reach(dec, mem, depth, root, p[..|p| - 1]) != Some(table);
    }
  }

  /** It changes no lookup. */
  lemma {:induction false} DetachedWalk<T(!new), I(!new), L(!new), W(!new)>(
      dec: Decoder<T, L, W>, mem: map<Slot<T, I>, W>, depth: nat, root: T, table: T, i: I, w: W, done: seq<I>, t: T, rest: seq<I>)
    requires IsDetached(dec, mem, depth, root, table) && |done| + |rest| == depth
    requires Reach(dec, mem, depth, root, done) == Some(t)
    ensures Walk(dec, mem[Slot(table, i) := w], t, rest) == Walk(dec, mem, t, rest)
    decreases |rest|
  {
    if rest != [] {
      var here := Slot(t, rest[0]);
      assert t != table;
      match Read(dec, mem, |rest|, here) {
        case Next(t') =>
          var done' := done + [rest[0]];
          assert done'[..|done'| - 1] == done;
          assert Reach(dec, mem, depth, root, done') == Some(t');
          DetachedWalk(dec, mem, depth, root, table, i, w, done', t', rest[1..]);
        case _ =>
      }
    }
  }

  lemma DetachedKeepsTree<T(!new), I(!new), L(!new), W(!new)>(dec: Decoder<T, L, W>, mem: map<Slot<T, I>, W>, depth: nat, root: T,
                                                              table: T, i: I, w: W)
    requires NonAliased(dec, mem, depth, root) && IsDetached(dec, mem, depth, root, table)
    ensures NonAliased(dec, mem[Slot(table, i) := w], depth, root)
  {
    var mem' := mem[Slot(table, i) := w];
    forall p: seq<I> ensures Reach(dec, mem', depth, root, p) == Reach(dec, mem, depth, root, p) {
      DetachedReach(dec, mem, depth, root, table, i, w, p);
    }
  }

  /** A root table without entries is a tree. */
  lemma EmptyTree<T(!new), I(!new), L(!new), W(!new)>(dec: Decoder<T, L, W>, depth: nat, root: T)
    ensures NonAliased<T, I, L, W>(dec, map[], depth, root)
  {
    forall p: seq<I> | Reach<T, I, L, W>(dec, map[], depth, root, p).Some? ensures p == [] {
    }
  }
}
