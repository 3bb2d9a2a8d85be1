/**
 CR0 and CR4 of a guest (vmx.c): the restrictions VMX imposes, the value the guest is given, and the read
 shadow and guest/host mask that hide the difference (Intel SDM volume 3, section 24.6.6).

 Only bitwise operations occur here, so a 64-bit word is the set of its 1 bits: & is intersection, | is
 union, and ~ is the difference from all 64 bits.
 */
module ControlRegisters {
  type Word = w: set<nat> | forall b :: b in w ==> b < 64

  function BitsBelow(n: nat): (w: set<nat>)
    ensures forall b: nat :: b in w <==> b < n
  {
    if n == 0 then {} else BitsBelow(n - 1) + {n - 1}
  }

  function Not(w: Word): (n: Word)
    ensures forall b: nat :: b in n <==> b < 64 && b !in w
  {
    BitsBelow(64) - w
  }

  /** Bits that may be 1, and bits that must be 1. */
  datatype Restriction = Restriction(maybe1: Word, required1: Word)

  /** X86_CR4_VMXE. */
  const VMXE: Word := {13}

  /** The register the guest runs with. */
  function Effective(r: Restriction, val: Word): Word {
    (val * r.maybe1) + r.required1
  }

  /** The bits the guest does not own. */
  function HostMask(r: Restriction): Word {
    r.required1 + Not(r.maybe1)
  }

  /** Reading a register through shadow and mask. */
  function Through(mask: Word, shadow: Word, reg: Word): Word {
    (shadow * mask) + (reg - mask)
  }

  /** All required bits, and none outside the permitted ones. */
  predicate Obeys(r: Restriction, reg: Word) {
    r.required1 <= reg <= r.maybe1 + r.required1
  }

  // ---- One register as the VMCS holds it ----

  /** Guest register, read shadow, guest/host mask. */
  datatype Cr = Cr(reg: Word, shadow: Word, mask: Word)

  /** What the guest itself reads. */
  function GuestView(c: Cr): Word {
    Through(c.mask, c.shadow, c.reg)
  }

  /** What vcpu_vendor_get_guest_cr4 computes. */
  function HypervisorView(r: Restriction, c: Cr): Word {
    Through(HostMask(r), c.shadow, c.reg)
  }

  /** vmx_set_guest_cr; `forced` is CR4.VMXE for CR4 and 0 for CR0. */
  function SetCr(r: Restriction, val: Word, forced: Word): Cr {
    Cr(Effective(r, val + forced), val + forced, HostMask(r))
  }

  // ---- The driver ----

  const CR4_IDX: nat := 1

  class ControlRegisterState {
    const restrictions: array<Restriction>
    const vmcs: array<Cr>

    ghost predicate Valid()
    {
      restrictions.Length == 2 && vmcs.Length == 2
    }

    constructor ()
      ensures Valid() && fresh(restrictions) && fresh(vmcs)
      ensures restrictions[0] == restrictions[1] == Restriction({}, {})
    {
      restrictions := new Restriction[2](_ => Restriction({}, {}));
      vmcs := new Cr[2](_ => Cr({}, {}, {}));
    }

    /** vmx_define_cr_restrictions, run by every CPU with what its own MSRs say. */
    method Define(idx: nat, maybe1: Word, required1: Word) returns (ok: bool)
      requires Valid() && idx < 2
      modifies restrictions
      ensures (restrictions[idx], ok) == DefineOne(old(restrictions[idx]), Restriction(maybe1, required1))
      ensures restrictions[1 - idx] == old(restrictions[1 - idx])
    {
      if restrictions[idx].maybe1 == {} {
        restrictions[idx] := Restriction(maybe1, required1);
        return true;
      }
      return restrictions[idx].maybe1 == maybe1 && restrictions[idx].required1 == required1;
    }

    /** vmx_set_guest_cr. */
    method SetGuestCr(idx: nat, val: Word)
      requires Valid() && idx < 2
      modifies vmcs
      ensures vmcs[idx] == SetCr(restrictions[idx], val, if idx == CR4_IDX then VMXE else {})
      ensures vmcs[1 - idx] == old(vmcs[1 - idx])
    {
      var v := val;
      var r := restrictions[idx];
      if idx != 0 {
        v := v + VMXE;
      }
      vmcs[idx] := Cr((v * r.maybe1) + r.required1, v, r.required1 + Not(r.maybe1));
    }

    /** vcpu_vendor_get_guest_cr4. */
    method GetGuestCr4() returns (v: Word)
      requires Valid()
      ensures v == HypervisorView(restrictions[CR4_IDX], vmcs[CR4_IDX])
    {
      var hostMask := restrictions[CR4_IDX].required1 + Not(restrictions[CR4_IDX].maybe1);
      v := (vmcs[CR4_IDX].shadow * hostMask) + (vmcs[CR4_IDX].reg - hostMask);
    }
  }

  // ---- One restriction for all CPUs ----

  /** What is stored after one CPU has reported its restriction, and whether the CPU passed. */
  function DefineOne(stored: Restriction, own: Restriction): (Restriction, bool) {
    if stored.maybe1 == {} then (own, true) else (stored, stored == own)
  }

  /** What is stored after all CPUs of a list, and whether all of them passed. */
  function DefineAll(cpus: seq<Restriction>): (Restriction, bool) {
    if cpus == [] then (Restriction({}, {}), true)
    else
      var (stored, ok) := DefineAll(cpus[..|cpus| - 1]);
      var (stored', ok') := DefineOne(stored, cpus[|cpus| - 1]);
      (stored', ok && ok')
  }

  /** The first CPU that permits any bit at all, or the number of CPUs. */
  function FirstReport(cpus: seq<Restriction>): (k: nat)
    ensures k <= |cpus| && (k < |cpus| ==> cpus[k].maybe1 != {})
    ensures forall i :: 0 <= i < k ==> cpus[i].maybe1 == {}
  {
    if cpus == [] then 0
    else
      var k := FirstReport(cpus[..|cpus| - 1]);
      if k < |cpus| - 1 || cpus[k].maybe1 != {} then k else |cpus|
  }

  /**
   All CPUs pass exactly when every CPU from the first one on that permits any bit reports the same
   restriction, and that one is stored. A CPU that permits no bit passes only while no other has reported.
   */
  lemma {:induction false} AllPassIffSame(cpus: seq<Restriction>)
    ensures var k := FirstReport(cpus);
      && (DefineAll(cpus).1 <==> forall i :: k <= i < |cpus| ==> cpus[i] == cpus[k])
      && (if k < |cpus| then DefineAll(cpus).0 == cpus[k] else DefineAll(cpus).0.maybe1 == {})
  {
    if cpus != [] {
      var n := |cpus| - 1;
      var prefix := cpus[..n];
      AllPassIffSame(prefix);
      var k := FirstReport(prefix);
      assert cpus == prefix + [cpus[n]];
      if k < n {
        assert (forall i :: k <= i <= n ==> cpus[i] == cpus[k])
               <==> (forall i :: k <= i < n ==> prefix[i] == prefix[k]) && cpus[n] == cpus[k];
      }
    }
  }

  /** Whether CPU `i` of a list passes. */
  function Passes(cpus: seq<Restriction>, i: nat): bool
    requires i < |cpus|
  {
    DefineOne(DefineAll(cpus[..i]).0, cpus[i]).1
  }

  lemma {:induction false} StoredAfterPrefix(cpus: seq<Restriction>, i: nat)
    requires i <= |cpus|
    ensures FirstReport(cpus[..i]) == if FirstReport(cpus) < i then FirstReport(cpus) else i
    ensures FirstReport(cpus) < i ==> DefineAll(cpus[..i]).0 == DefineAll(cpus).0
    decreases |cpus|
  {
    AllPassIffSame(cpus);
    AllPassIffSame(cpus[..i]);
    if i < |cpus| {
      var prefix := cpus[..|cpus| - 1];
      assert prefix[..i] == cpus[..i];
      StoredAfterPrefix(prefix, i);
      assert FirstReport(cpus) < i ==> cpus[..i][FirstReport(cpus)] == cpus[FirstReport(cpus)];
    } else {
      assert cpus[..i] == cpus;
    }
  }

  /**
   Each CPU by itself, whether or not others fail: it passes exactly if it is the first that permits any bit, or
   comes before that one, or reports the pair that is stored.
   */
  lemma PassesIff(cpus: seq<Restriction>, i: nat)
    requires i < |cpus|
    ensures Passes(cpus, i) <==> i <= FirstReport(cpus) || cpus[i] == DefineAll(cpus).0
  {
    StoredAfterPrefix(cpus, i);
    AllPassIffSame(cpus);
    AllPassIffSame(cpus[..i]);
  }

  // ---- Set and get ----

  lemma EffectiveObeys(r: Restriction, val: Word)
    ensures Obeys(r, Effective(r, val))
  {
  }

  lemma ReadBack(r: Restriction, val: Word)
    ensures Through(HostMask(r), val, Effective(r, val)) == val
  {
  }

  /** A requested value reads back unchanged, both for the guest and for the hypervisor. */
  lemma SetThenGet(r: Restriction, val: Word, forced: Word)
    ensures GuestView(SetCr(r, val, forced)) == val + forced
    ensures HypervisorView(r, SetCr(r, val, forced)) == val + forced
    ensures Obeys(r, SetCr(r, val, forced).reg)
  {
    EffectiveObeys(r, val + forced);
    ReadBack(r, val + forced);
  }

  /** The guest owns exactly the bits of which VMX operation permits both values. */
  lemma OwnedIffFree(r: Restriction, reg: Word, b: nat)
    requires Obeys(r, reg) && b < 64
    ensures b !in HostMask(r) <==> Obeys(r, reg + {b}) && Obeys(r, reg - {b})
  {
    var set1: Word, set0: Word := reg + {b}, reg - {b};
    assert b in set1 && b !in set0;
  }

  // ---- CR4 over a whole run of the guest ----

  datatype Event = Write(val: Word) | Reset

  /** vmcs_setup with the CR4 that Linux had; it stores a mask of 0 behind vmx_set_guest_cr. */
  function Setup(r: Restriction, linux: Word): Cr {
    SetCr(r, linux, VMXE).(mask := {})
  }

  /**
   A write by the guest exits if it differs from the shadow in a masked bit, and is then emulated; otherwise
   the processor performs it on the unmasked bits, unless VMX operation does not permit the result.
   */
  function After(r: Restriction, c: Cr, e: Event): Cr {
    match e
    case Reset => SetCr(r, {}, VMXE)
    case Write(v) =>
      if v * c.mask != c.shadow * c.mask then SetCr(r, v, VMXE)
      else
        var reg := (c.reg * c.mask) + (v - c.mask);
        if Obeys(r, reg) then c.(reg := reg) else c
  }

  function Exec(r: Restriction, linux: Word, run: seq<Event>): Cr {
    if run == [] then Setup(r, linux) else After(r, Exec(r, linux, run[..|run| - 1]), run[|run| - 1])
  }

  /** Until the first reset the mask of vmcs_setup is in force. */
  predicate WasReset(run: seq<Event>) {
    exists k :: 0 <= k < |run| && run[k].Reset?
  }

  /**
   What the guest should read, from its writes alone. Before the first reset the processor refuses what VMX
   operation does not permit; after it every write is accepted, and one that asks for a change of a bit that the
   guest does not own turns VMXE on in what is read back.
   */
  function LastWritten(r: Restriction, linux: Word, run: seq<Event>): Word {
    if run == [] then Effective(r, linux + VMXE)
    else
      var prefix := run[..|run| - 1];
      var before := LastWritten(r, linux, prefix);
      match run[|run| - 1]
      case Reset => VMXE
      case Write(v) =>
        if !WasReset(prefix) then (if Obeys(r, v) then v else before)
        else if v * HostMask(r) == before * HostMask(r) then v
        else v + VMXE
  }

  ghost predicate Inv(r: Restriction, linux: Word, run: seq<Event>, c: Cr) {
    && Obeys(r, c.reg) && GuestView(c) == LastWritten(r, linux, run)
    && if WasReset(run) then c.mask == HostMask(r) else c.mask == {} && c.shadow == linux + VMXE
  }

  lemma DirectWriteReads(mask: Word, shadow: Word, reg: Word, v: Word)
    requires v * mask == shadow * mask
    ensures Through(mask, shadow, (reg * mask) + (v - mask)) == v
  {
  }

  lemma UnmaskedView(shadow: Word, reg: Word)
    ensures Through({}, shadow, reg) == reg
  {
  }

  /** A direct write changes no bit of the mask, so it stays within the restriction. */
  lemma DirectWriteObeys(r: Restriction, reg: Word, v: Word)
    requires Obeys(r, reg)
    ensures Obeys(r, (reg * HostMask(r)) + (v - HostMask(r)))
  {
  }

  /** In the bits of the mask the guest reads the shadow. */
  lemma MaskedView(c: Cr)
    ensures GuestView(c) * c.mask == c.shadow * c.mask
  {
  }

  lemma ResetInPrefix(run: seq<Event>)
    requires run != []
    ensures WasReset(run) <==> WasReset(run[..|run| - 1]) || run[|run| - 1].Reset?
  {
    var prefix := run[..|run| - 1];
    if k :| 0 <= k < |prefix| && prefix[k].Reset? {
      assert run[k].Reset?;
    }
    if k :| 0 <= k < |run| && run[k].Reset? {
      assert k < |prefix| ==> prefix[k].Reset?;
    }
  }

  lemma WriteKeepsInv(r: Restriction, linux: Word, prefix: seq<Event>, c: Cr, v: Word)
    requires Inv(r, linux, prefix, c)
    ensures Inv(r, linux, prefix + [Write(v)], After(r, c, Write(v)))
  {
    var run := prefix + [Write(v)];
    assert run[..|run| - 1] == prefix;
    ResetInPrefix(run);
    if WasReset(prefix) {
      MaskedView(c);
      if v * c.mask != c.shadow * c.mask {
        SetThenGet(r, v, VMXE);
      } else {
        DirectWriteObeys(r, c.reg, v);
        DirectWriteReads(c.mask, c.shadow, c.reg, v);
      }
    } else {
      assert v * c.mask == c.shadow * c.mask && (c.reg * c.mask) + (v - c.mask) == v;
      UnmaskedView(c.shadow, c.reg);
      UnmaskedView(c.shadow, v);
    }
  }

  lemma {:induction false} RunInv(r: Restriction, linux: Word, run: seq<Event>)
    ensures Inv(r, linux, run, Exec(r, linux, run))
  {
    if run == [] {
      EffectiveObeys(r, linux + VMXE);
      UnmaskedView(linux + VMXE, Effective(r, linux + VMXE));
    } else {
      var prefix, e := run[..|run| - 1], run[|run| - 1];
      RunInv(r, linux, prefix);
      assert run == prefix + [e];
      match e
      case Reset => SetThenGet(r, {}, VMXE);
      case Write(v) => WriteKeepsInv(r, linux, prefix, Exec(r, linux, prefix), v);
    }
  }

  /** Over every run the guest reads back what it wrote last, and its register stays within the restriction. */
  lemma GuestReadsItsLastWrite(r: Restriction, linux: Word, run: seq<Event>)
    ensures GuestView(Exec(r, linux, run)) == LastWritten(r, linux, run) && Obeys(r, Exec(r, linux, run).reg)
  {
    RunInv(r, linux, run);
  }

  lemma ViewsDiffer(r: Restriction, shadow: Word, reg: Word)
    requires Obeys(r, reg)
    ensures Through(HostMask(r), shadow, reg) == reg <==> shadow * HostMask(r) == r.required1
  {
  }

  /**
   What the hypervisor takes for the guest's CR4 is what the guest reads, in every state after a reset; before
   that exactly when the CR4 inherited from Linux, with VMXE, has all required bits and no forbidden one,
   whatever the guest has written since.
   */
  lemma HypervisorSeesGuestValue(r: Restriction, linux: Word, run: seq<Event>)
    ensures var c := Exec(r, linux, run);
      HypervisorView(r, c) == GuestView(c) <==> WasReset(run) || (linux + VMXE) * HostMask(r) == r.required1
  {
    RunInv(r, linux, run);
    var c := Exec(r, linux, run);
    if !WasReset(run) {
      UnmaskedView(c.shadow, c.reg);
      ViewsDiffer(r, linux + VMXE, c.reg);
    }
  }
}
