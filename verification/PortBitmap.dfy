/**
 Ownership of I/O ports (vcpu.c, bitops.h). Each target has a bitmap in which a set bit makes the processor
 trap the port; a new target takes its ports away from the root target, and a leaving target gives back
 those that the root target's own whitelist grants.
 */
module PortBitmap {
  import opened Common

  const PORTS: nat := 0x1_0000
  /** The i8042 command port. */
  const I8042_CMD: nat := 0x64
  const PM_TIMER_PORTS: nat := 4

  type Port = p: int | 0 <= p < 0x1_0000

  /** struct spy_pio: an interval of ports. */
  datatype Pio = Pio(base: nat, length: nat)

  type Whitelist = seq<Pio>

  predicate Covers(pio: Pio, p: int) {
    pio.base <= p < pio.base + pio.length
  }

  /** A configuration is valid when its intervals stay inside the port space. */
  predicate WhitelistOk(wl: Whitelist) {
    forall i :: 0 <= i < |wl| ==> wl[i].base + wl[i].length <= PORTS
  }

  predicate Grants(wl: Whitelist, p: int) {
    exists i :: 0 <= i < |wl| && Covers(wl[i], p)
  }

  /** The PM timer, if the platform has one (address not 0). */
  predicate PmPort(pm: nat, p: int) {
    pm != 0 && pm <= p < pm + PM_TIMER_PORTS
  }

  predicate PmOk(pm: nat) {
    pm + PM_TIMER_PORTS <= PORTS
  }

  // ---- The bitmap in memory ----

  /** A byte as the set of its 1 bits. */
  type Byte = b: set<nat> | forall i :: i in b ==> i < 8

  /** A 64-bit word as the set of its 1 bits. */
  type Word = w: set<nat> | forall i :: i in w ==> i < 64

  predicate ByteHas(w: Word, k: nat, i: nat) {
    8 * k + i in w
  }

  /** Byte `k` of a word, counted from the low end. */
  function ByteOf(w: Word, k: nat): (b: Byte)
    requires k < 8
    ensures forall i: nat :: i in b <==> i < 8 && ByteHas(w, k, i)
  {
    set i: nat | i < 8 && ByteHas(w, k, i)
  }

  /** Bit `p` of memory is bit p % 8 of byte p / 8, and bit p % 64 of word p / 64. */
  lemma Locate(p: nat)
    ensures p / 64 == p / 8 / 8 && p % 64 == 8 * (p / 8 % 8) + p % 8
    ensures p / 8 == 8 * (p / 64) + p / 8 % 8
  {
  }

  /**
   Two pages of memory, which the driver writes both as 64-bit words and as bytes; the machine is little-endian.
   A set bit makes the processor trap the port.
   */
  class IoBitmap {
    const bytes: array<Byte>

    ghost predicate Valid() {
      bytes.Length == PORTS / 8
    }

    ghost predicate Traps(p: int)
      requires Valid() && 0 <= p < PORTS
      reads bytes
    {
      p % 8 in bytes[p / 8]
    }

    /** memset(-1): trap every port. */
    constructor ()
      ensures Valid() && fresh(bytes) && forall p :: 0 <= p < PORTS ==> Traps(p)
    {
      bytes := new Byte[PORTS / 8](_ => {0, 1, 2, 3, 4, 5, 6, 7});
    }

    /** A 64-bit load. */
    method LoadWord(index: nat) returns (w: Word)
      requires Valid() && index < PORTS / 64
      ensures forall p :: 64 * index <= p < 64 * index + 64 ==> (p % 64 in w <==> Traps(p))
    {
      w := set i: nat | i < 64 && i % 8 in bytes[8 * index + i / 8];
      forall p | 64 * index <= p < 64 * index + 64 ensures p % 64 in w <==> Traps(p) {
        Locate(p);
        assert p == 64 * index + p % 64;
      }
    }

    /** A 64-bit store. */
    method StoreWord(index: nat, w: Word)
      requires Valid() && index < PORTS / 64
      modifies bytes
      ensures forall p :: 0 <= p < PORTS ==> (Traps(p) <==> if p / 64 == index then p % 64 in w else old(Traps(p)))
    {
      forall k | 0 <= k < 8 {
        bytes[8 * index + k] := ByteOf(w, k);
      }
      forall p | 0 <= p < PORTS ensures Traps(p) <==> if p / 64 == index then p % 64 in w else old(Traps(p)) {
        Locate(p);
        if p / 64 == index {
          assert bytes[8 * index + p / 8 % 8] == ByteOf(w, p / 8 % 8);
        } else {
          assert bytes[p / 8] == old(bytes[p / 8]);
        }
      }
    }

    /** set_bit / clear_bit: a read-modify-write of a whole 64-bit word. */
    method WriteWordBit(nr: nat, value: bool)
      requires Valid() && nr < PORTS
      modifies bytes
      ensures forall p :: 0 <= p < PORTS ==> (Traps(p) <==> if p == nr then value else old(Traps(p)))
    {
      var w := LoadWord(nr / 64);
      var bit: set<nat> := {nr % 64};
      StoreWord(nr / 64, if value then w + bit else w - bit);
      assert forall p :: 0 <= p < PORTS && p / 64 == nr / 64 && p % 64 == nr % 64 ==> p == nr;
    }

    /** bitmap[nr / 8] |= or &= ~ (1 << (nr % 8)): a read-modify-write of one byte. */
    method WriteByteBit(nr: nat, value: bool)
      requires Valid() && nr < PORTS
      modifies bytes
      ensures forall p :: 0 <= p < PORTS ==> (Traps(p) <==> if p == nr then value else old(Traps(p)))
    {
      var bit: set<nat> := {nr % 8};
      bytes[nr / 8] := if value then bytes[nr / 8] + bit else bytes[nr / 8] - bit;
    }

    /**
     pio_allow_access. The source does not check that the interval ends inside the bitmap; here the loop stops at
     its end, and `overrun` tells that the source would go on behind it.
     */
    method AllowAccess(pio: Pio, access: bool) returns (overrun: bool)
      requires Valid()
      modifies bytes
      ensures forall p :: 0 <= p < PORTS ==> (Traps(p) <==> if Covers(pio, p) then !access else old(Traps(p)))
      ensures overrun <==> exists p :: p >= PORTS && Covers(pio, p)
    {
      var length, startBit := pio.length, pio.base;
      while length > 0
        invariant 0 <= length <= pio.length && startBit == pio.base + pio.length - length
        invariant startBit <= PORTS || startBit == pio.base
        invariant forall p :: 0 <= p < PORTS ==>
          (Traps(p) <==> if pio.base <= p < startBit then !access else old(Traps(p)))
      {
        if startBit >= PORTS {
          assert Covers(pio, startBit);
          return true;
        }
        WriteWordBit(startBit, !access);
        length, startBit := length - 1, startBit + 1;
      }
      return false;
    }

    method AllowAll(wl: Whitelist, access: bool)
      requires Valid() && WhitelistOk(wl)
      modifies bytes
      ensures forall p :: 0 <= p < PORTS ==> (Traps(p) <==> if Grants(wl, p) then !access else old(Traps(p)))
    {
      var n := 0;
      while n < |wl|
        invariant n <= |wl|
        invariant forall p :: 0 <= p < PORTS ==> (Traps(p) <==> if Grants(wl[..n], p) then !access else old(Traps(p)))
      {
        var _ := AllowAccess(wl[n], access);
        forall p | 0 <= p < PORTS ensures Grants(wl[..n + 1], p) <==> Grants(wl[..n], p) || Covers(wl[n], p) {
          GrantsOneMore(wl, n, p);
        }
        n := n + 1;
      }
      assert wl[..n] == wl;
    }

    /**
     The refund loop of vcpu_target_exit on the root target's bitmap: intersecting every interval of the
     target with every interval of the root target hands back exactly the ports that both lists grant.
     */
    method Refund(target: Whitelist, root: Whitelist)
      requires Valid() && WhitelistOk(target) && WhitelistOk(root)
      modifies bytes
      ensures forall p :: 0 <= p < PORTS ==> Traps(p) == (old(Traps(p)) && !(Grants(target, p) && Grants(root, p)))
    {
      var m := 0;
      while m < |target|
        invariant m <= |target|
        invariant forall p :: 0 <= p < PORTS ==>
          Traps(p) == (old(Traps(p)) && !(Grants(target[..m], p) && Grants(root, p)))
      {
        label inner:
        var n := 0;
        while n < |root|
          invariant n <= |root|
          invariant forall p :: 0 <= p < PORTS ==>
            Traps(p) == (old@inner(Traps(p)) && !(Covers(target[m], p) && Grants(root[..n], p)))
        {
          var start := if target[m].base >= root[n].base then target[m].base else root[n].base;
          var targetEnd, rootEnd := target[m].base + target[m].length, root[n].base + root[n].length;
          var end := if targetEnd <= rootEnd then targetEnd else rootEnd;
          if start < end {
            var _ := AllowAccess(Pio(start, end - start), true);
          }
          forall p | 0 <= p < PORTS ensures Grants(root[..n + 1], p) <==> Grants(root[..n], p) || Covers(root[n], p) {
            GrantsOneMore(root, n, p);
          }
          n := n + 1;
        }
        assert root[..n] == root;
        forall p | 0 <= p < PORTS ensures Grants(target[..m + 1], p) <==> Grants(target[..m], p) || Covers(target[m], p) {
          GrantsOneMore(target, m, p);
        }
        m := m + 1;
      }
      assert target[..m] == target;
    }
  }

  lemma GrantsOneMore(wl: Whitelist, n: nat, p: int)
    requires n < |wl|
    ensures Grants(wl[..n + 1], p) <==> Grants(wl[..n], p) || Covers(wl[n], p)
  {
    if Grants(wl[..n], p) {
      var i :| 0 <= i < n && Covers(wl[..n][i], p);
      assert Covers(wl[..n + 1][i], p);
    }
    if Covers(wl[n], p) {
      assert Covers(wl[..n + 1][n], p);
    }
    if Grants(wl[..n + 1], p) {
      var i :| 0 <= i < n + 1 && Covers(wl[..n + 1][i], p);
      assert i < n ==> Covers(wl[..n][i], p);
    }
  }

  /** A target's own bitmap: whitelisted ports but the i8042 command port, and the PM timer. */
  predicate InitiallyAllowed(wl: Whitelist, pm: nat, p: int) {
    (Grants(wl, p) && p != I8042_CMD) || PmPort(pm, p)
  }

  /** A target that vcpu_target_init is called for. */
  class Target {
    const whitelist: Whitelist
    var bitmap: IoBitmap?
    var i8042Allowed: bool

    constructor (whitelist: Whitelist)
      ensures this.whitelist == whitelist && bitmap == null
    {
      this.whitelist, bitmap, i8042Allowed := whitelist, null, false;
    }

    /**
     vcpu_target_init: `page` is false if page_alloc fails, and `vendor` is the result of the vendor's part.
     `root` is the root target's bitmap, or null if this is the root target.
     */
    method Init(root: IoBitmap?, pm: nat, page: bool, vendor: Option<Errno>) returns (r: Result<nat>)
      requires WhitelistOk(whitelist) && PmOk(pm) && (root != null ==> root.Valid())
      modifies this, if root == null then {} else {root.bytes}
      ensures r == if !page then Err(ENOMEM) else if vendor.Some? then Err(vendor.value) else Ok(0)
      ensures r.Err? && root != null ==> root.bytes[..] == old(root.bytes[..])
      ensures r.Ok? ==>
        && bitmap != null && fresh(bitmap) && fresh(bitmap.bytes) && bitmap.Valid()
        && (forall p :: 0 <= p < PORTS ==> (!bitmap.Traps(p) <==> InitiallyAllowed(whitelist, pm, p)))
        && (i8042Allowed <==> Grants(whitelist, I8042_CMD))
        && (root != null ==>
              forall p :: 0 <= p < PORTS ==> root.Traps(p) == (Grants(whitelist, p) || old(root.Traps(p))))
    {
      if !page {
        return Err(ENOMEM);
      }
      if vendor.Some? {
        return Err(vendor.value);
      }
      var bm := new IoBitmap();
      bitmap := bm;
      i8042Allowed := false;
      bm.AllowAll(whitelist, true);
      var n := 0;
      while n < |whitelist|
        invariant n <= |whitelist| && (i8042Allowed <==> Grants(whitelist[..n], I8042_CMD))
        modifies `i8042Allowed
      {
        GrantsOneMore(whitelist, n, I8042_CMD);
        if whitelist[n].base <= I8042_CMD && whitelist[n].base + whitelist[n].length > I8042_CMD {
          i8042Allowed := true;
        }
        n := n + 1;
      }
      assert whitelist[..n] == whitelist;
      bm.WriteByteBit(I8042_CMD, true);
      if root != null {
        root.AllowAll(whitelist, false);
      }
      if pm != 0 {
        n := 0;
        while n < PM_TIMER_PORTS
          invariant n <= PM_TIMER_PORTS
          invariant forall p :: 0 <= p < PORTS ==>
            (!bm.Traps(p) <==> (Grants(whitelist, p) && p != I8042_CMD) || pm <= p < pm + n)
          modifies bm.bytes
        {
          bm.WriteByteBit(pm + n, false);
          n := n + 1;
        }
      }
      return Ok(0);
    }
  }
}
