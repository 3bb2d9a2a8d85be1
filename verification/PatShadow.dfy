/**
 The shadow of a guest's page attribute table (vcpu.c): while the guest has its MTRRs disabled, it runs with
 an all-uncached PAT of 0, but reads and writes of the PAT register go to the shadow.
 */
module PatShadow {
  /** 64-bit values are numbers; a byte is selected by dividing, a flag by its weight. */
  type U64 = v: nat | v < 0x1_0000_0000_0000_0000

  /** PAT_RESET_VALUE and the weight of MTRR_ENABLE, bit 11. */
  const PAT_RESET: U64 := 0x0007_0406_0007_0406
  const MTRR_ENABLE: nat := 0x800

  /** (val >> (8 * i)) & 0xff */
  function Byte(val: nat, i: nat): (b: nat)
    ensures b < 256
  {
    if i == 0 then val % 256 else Byte(val / 256, i - 1)
  }

  /** 2 and 3 are reserved, and there is no type above 7. */
  predicate MemoryType(b: nat) {
    b <= 7 && b != 2 && b != 3
  }

  ghost predicate ValidPat(val: nat) {
    forall i :: 0 <= i < 8 ==> MemoryType(Byte(val, i))
  }

  predicate MtrrEnabled(defType: nat) {
    defType / MTRR_ENABLE % 2 == 1
  }

  /** The enable bit of `val` in an otherwise unchanged `defType`. */
  function SetEnable(defType: nat, val: nat): (d: nat)
    ensures MtrrEnabled(d) <==> MtrrEnabled(val)
    ensures d % MTRR_ENABLE == defType % MTRR_ENABLE && d / (2 * MTRR_ENABLE) == defType / (2 * MTRR_ENABLE)
  {
    defType - (if MtrrEnabled(defType) then MTRR_ENABLE else 0) + (if MtrrEnabled(val) then MTRR_ENABLE else 0)
  }

  /** The value of wrmsr: the low half of rax and the low half of rdx. */
  function WrmsrValue(rax: U64, rdx: U64): U64 {
    rax % 0x1_0000_0000 + rdx % 0x1_0000_0000 * 0x1_0000_0000
  }

  /** Shadow PAT, shadow of MTRRdefType, and the PAT the guest runs with. */
  datatype State = State(pat: U64, defType: U64, guestPat: U64)

  datatype Event = WritePat(rax: U64, rdx: U64) | WriteDefType(rax: U64, rdx: U64) | Reset(hard: bool)

  class Cpu {
    var pat: U64
    var defType: U64
    var guestPat: U64

    ghost function Abs(): State
      reads this
    {
      State(pat, defType, guestPat)
    }

    /** arch_cpu_init and vmcs_setup: the host's values, and a guest PAT equal to the host's. */
    constructor (hostPat: U64, hostDefType: U64)
      ensures Abs() == State(hostPat, hostDefType, hostPat)
    {
      pat, defType, guestPat := hostPat, hostDefType, hostPat;
    }

    /** The PAT case of vcpu_handle_msr_write: a value with a reserved memory type is refused. */
    method WritePatMsr(rax: U64, rdx: U64) returns (ok: bool)
      modifies this
      ensures ok <==> ValidPat(WrmsrValue(rax, rdx))
      ensures Abs() == old(After(Abs(), WritePat(rax, rdx)))
    {
      var val := WrmsrValue(rax, rdx);
      var i, rest: nat := 0, val;
      while i < 8
        invariant i <= 8 && (forall k :: i <= k < 8 ==> Byte(val, k) == Byte(rest, k - i))
        invariant forall k :: 0 <= k < i ==> MemoryType(Byte(val, k))
      {
        var pa := rest % 256;
        assert pa == Byte(rest, 0) && pa == Byte(val, i);
        if pa == 2 || pa == 3 || pa > 7 {
          return false;
        }
        rest, i := rest / 256, i + 1;
      }
      pat := val;
      if MtrrEnabled(defType) {
        guestPat := val;
      }
      return true;
    }

    /** The MTRRdefType case of vcpu_handle_msr_write. */
    method WriteDefTypeMsr(rax: U64, rdx: U64)
      modifies this
      ensures Abs() == old(After(Abs(), WriteDefType(rax, rdx)))
    {
      var val := WrmsrValue(rax, rdx);
      EnableFits(defType, val);
      defType := SetEnable(defType, val);
      guestPat := if MtrrEnabled(val) then pat else 0;
    }

    /** The register reads of vcpu_handle_msr_read. */
    method ReadMsrs() returns (patRax: U64, patRdx: U64, defRax: U64, defRdx: U64)
      ensures WrmsrValue(patRax, patRdx) == pat && WrmsrValue(defRax, defRdx) == defType
      ensures patRax < 0x1_0000_0000 && patRdx < 0x1_0000_0000 && defRax < 0x1_0000_0000 && defRdx < 0x1_0000_0000
    {
      SplitValue(pat);
      SplitValue(defType);
      patRax, patRdx := pat % 0x1_0000_0000, pat / 0x1_0000_0000;
      defRax, defRdx := defType % 0x1_0000_0000, defType / 0x1_0000_0000;
    }

    /** vcpu_reset; `hard` for APIC_BSP_PSEUDO_SIPI. */
    method ResetCpu(hard: bool)
      modifies this
      ensures Abs() == old(After(Abs(), Reset(hard)))
    {
      if hard {
        pat := PAT_RESET;
        EnableFits(defType, 0);
        defType := SetEnable(defType, 0);
        guestPat := 0;
      }
    }
  }

  lemma SplitValue(v: U64)
    ensures v % 0x1_0000_0000 < 0x1_0000_0000 && v / 0x1_0000_0000 < 0x1_0000_0000
    ensures WrmsrValue(v % 0x1_0000_0000, v / 0x1_0000_0000) == v
  {
  }

  lemma EnableFits(defType: U64, val: nat)
    ensures SetEnable(defType, val) < 0x1_0000_0000_0000_0000
  {
  }

  ghost function After(s: State, e: Event): State {
    match e
    case WritePat(rax, rdx) =>
      var val := WrmsrValue(rax, rdx);
      if !ValidPat(val) then s
      else State(val, s.defType, if MtrrEnabled(s.defType) then val else s.guestPat)
    case WriteDefType(rax, rdx) =>
      var val := WrmsrValue(rax, rdx);
      EnableFits(s.defType, val);
      State(s.pat, SetEnable(s.defType, val), if MtrrEnabled(val) then s.pat else 0)
    case Reset(hard) =>
      EnableFits(s.defType, 0);
      if hard then State(PAT_RESET, SetEnable(s.defType, 0), 0) else s
  }

  ghost function Exec(s0: State, run: seq<Event>): State {
    if run == [] then s0 else After(Exec(s0, run[..|run| - 1]), run[|run| - 1])
  }

  // ---- What every run guarantees ----

  /** The guest runs with the shadow PAT while its MTRRs are enabled, and with all memory uncached otherwise. */
  predicate GuestPatOk(s: State) {
    s.guestPat == if MtrrEnabled(s.defType) then s.pat else 0
  }

  lemma ResetPatValid()
    ensures ValidPat(PAT_RESET)
  {
    forall i | 0 <= i < 8 ensures MemoryType(Byte(PAT_RESET, i)) {
      ResetBytes(State(0, 0, 0), i);
    }
  }

  // ---- What a write asks for, read off the two registers ----

  lemma {:induction false} JoinedBytes(a: nat, b: nat, i: nat)
    requires a < 0x1_0000_0000 && i < 8
    ensures Byte(a + b * 0x1_0000_0000, i) == if i < 4 then Byte(a, i) else Byte(b, i - 4)
  {
    JoinedByte(a, b * 0x100_0000, i);
    if i > 0 { JoinedByte(a / 256, b * 0x1_0000, i - 1); }
    if i > 1 { JoinedByte(a / 256 / 256, b * 0x100, i - 2); }
    if i > 2 { JoinedByte(a / 256 / 256 / 256, b, i - 3); }
    assert a / 256 / 256 / 256 / 256 == 0;
    assert i > 0 ==> Byte(a, i) == Byte(a / 256, i - 1);
    assert i > 1 ==> Byte(a / 256, i - 1) == Byte(a / 256 / 256, i - 2);
  }

  lemma JoinedByte(a: nat, c: nat, i: nat)
    ensures Byte(a + c * 256, i) == if i == 0 then Byte(a, 0) else Byte(a / 256 + c, i - 1)
  {
  }

  lemma LowBytes(v: nat, i: nat)
    requires i < 4
    ensures Byte(v % 0x1_0000_0000, i) == Byte(v, i)
  {
    JoinedBytes(v % 0x1_0000_0000, v / 0x1_0000_0000, i);
  }

  /** The four low bytes of a register. */
  ghost predicate LowTypes(v: nat) {
    forall k :: 0 <= k < 4 ==> MemoryType(Byte(v, k))
  }

  lemma WrmsrByte(rax: U64, rdx: U64, i: nat)
    requires i < 8
    ensures Byte(WrmsrValue(rax, rdx), i) == if i < 4 then Byte(rax, i) else Byte(rdx, i - 4)
  {
    JoinedBytes(rax % 0x1_0000_0000, rdx % 0x1_0000_0000, i);
    if i < 4 {
      LowBytes(rax, i);
    } else {
      LowBytes(rdx, i - 4);
    }
  }

  /**
   wrmsr takes bytes 0 to 3 of a PAT from rax and bytes 4 to 7 from rdx: the write is accepted exactly if all of
   them are memory types, and then byte `i` of the shadow is that byte.
   */
  lemma PatWriteExact(s: State, rax: U64, rdx: U64, i: nat)
    requires i < 8
    ensures ValidPat(WrmsrValue(rax, rdx)) <==> LowTypes(rax) && LowTypes(rdx)
    ensures LowTypes(rax) && LowTypes(rdx) ==>
      Byte(After(s, WritePat(rax, rdx)).pat, i) == if i < 4 then Byte(rax, i) else Byte(rdx, i - 4)
  {
    var val := WrmsrValue(rax, rdx);
    WrmsrByte(rax, rdx, i);
    if ValidPat(val) {
      forall k | 0 <= k < 4 ensures MemoryType(Byte(rax, k)) {
        WrmsrByte(rax, rdx, k);
      }
      forall k | 0 <= k < 4 ensures MemoryType(Byte(rdx, k)) {
        WrmsrByte(rax, rdx, k + 4);
      }
    }
    if LowTypes(rax) && LowTypes(rdx) {
      forall k | 0 <= k < 8 ensures MemoryType(Byte(val, k)) {
        WrmsrByte(rax, rdx, k);
      }
    }
  }

  /** A write to MTRRdefType turns the MTRRs on exactly if bit 11 of rax is set; rdx plays no role. */
  lemma DefTypeWriteExact(s: State, rax: U64, rdx: U64)
    ensures After(s, WriteDefType(rax, rdx)).defType / 2048 % 2 == rax / 2048 % 2
    ensures After(s, WriteDefType(rax, rdx)).guestPat == if rax / 2048 % 2 == 1 then s.pat else 0
  {
    var low := rax % 0x1_0000_0000;
    assert WrmsrValue(rax, rdx) / 2048 == low / 2048 + rdx % 0x1_0000_0000 * 0x20_0000;
    assert rax / 2048 == low / 2048 + rax / 0x1_0000_0000 * 0x20_0000;
  }

  /** A hard reset restores the memory types of the processor's reset state: WB, WT, UC-, UC, twice. */
  lemma ResetBytes(s: State, i: nat)
    requires i < 8
    ensures Byte(After(s, Reset(true)).pat, i) == [6, 4, 7, 0, 6, 4, 7, 0][i]
  {
    assert Byte(0x0007_0406_0007_0406, 0) == 6 && Byte(0x0007_0406_0007_0406, 1) == 4;
    assert Byte(0x0007_0406_0007_0406, 2) == 7 && Byte(0x0007_0406_0007_0406, 3) == 0;
    assert Byte(0x0007_0406_0007_0406, 4) == 6 && Byte(0x0007_0406_0007_0406, 5) == 4;
    assert Byte(0x0007_0406_0007_0406, 6) == 7 && Byte(0x0007_0406_0007_0406, 7) == 0;
  }

  /** What a PAT read should return: the last accepted write, the reset value, or the host's PAT. */
  ghost function LastPat(hostPat: U64, run: seq<Event>): U64 {
    if run == [] then hostPat
    else
      match run[|run| - 1]
      case WritePat(rax, rdx) =>
        if ValidPat(WrmsrValue(rax, rdx)) then WrmsrValue(rax, rdx) else LastPat(hostPat, run[..|run| - 1])
      case WriteDefType(_, _) => LastPat(hostPat, run[..|run| - 1])
      case Reset(hard) => if hard then PAT_RESET else LastPat(hostPat, run[..|run| - 1])
  }

  /** Whether the guest's MTRRs are enabled: the last write or hard reset decides. */
  function LastEnable(hostDefType: U64, run: seq<Event>): bool {
    if run == [] then MtrrEnabled(hostDefType)
    else
      match run[|run| - 1]
      case WritePat(_, _) => LastEnable(hostDefType, run[..|run| - 1])
      case WriteDefType(rax, rdx) => MtrrEnabled(WrmsrValue(rax, rdx))
      case Reset(hard) => !hard && LastEnable(hostDefType, run[..|run| - 1])
  }

  /** A write or hard reset has set the guest PAT since the start. */
  predicate Decided(run: seq<Event>) {
    exists i :: 0 <= i < |run| && (run[i].WriteDefType? || run[i] == Reset(true))
  }

  /**
   Over every run, starting with a valid PAT: a PAT read returns the last accepted write even while the MTRRs
   are off, every byte of the shadow is a memory type, and only the enable bit of MTRRdefType follows the guest.
   */
  lemma {:induction false} ShadowFollowsWrites(hostPat: U64, hostDefType: U64, run: seq<Event>)
    requires ValidPat(hostPat)
    ensures var s := Exec(State(hostPat, hostDefType, hostPat), run);
      && s.pat == LastPat(hostPat, run) && ValidPat(s.pat)
      && (MtrrEnabled(s.defType) <==> LastEnable(hostDefType, run))
      && s.defType % MTRR_ENABLE == hostDefType % MTRR_ENABLE
      && s.defType / (2 * MTRR_ENABLE) == hostDefType / (2 * MTRR_ENABLE)
  {
    ResetPatValid();
    if run != [] {
      ShadowFollowsWrites(hostPat, hostDefType, run[..|run| - 1]);
    }
  }

  /**
   The guest PAT is the shadow PAT or 0, as the MTRRs are on or off, in every state of every run exactly when
   the guest starts with its MTRRs on (or with a PAT of 0): vmcs_setup does not look at the enable bit.
   */
  lemma GuestPatFollowsIff(hostPat: U64, hostDefType: U64)
    ensures (forall run: seq<Event> :: GuestPatOk(Exec(State(hostPat, hostDefType, hostPat), run)))
            <==> MtrrEnabled(hostDefType) || hostPat == 0
  {
    var s0 := State(hostPat, hostDefType, hostPat);
    var none: seq<Event> := [];
    assert GuestPatOk(Exec(s0, none)) <==> MtrrEnabled(hostDefType) || hostPat == 0;
    if MtrrEnabled(hostDefType) || hostPat == 0 {
      forall run: seq<Event> ensures GuestPatOk(Exec(s0, run)) {
        KeepsGuestPat(s0, run);
      }
    }
  }

  lemma {:induction false} KeepsGuestPat(s0: State, run: seq<Event>)
    requires GuestPatOk(s0)
    ensures GuestPatOk(Exec(s0, run))
  {
    if run != [] {
      KeepsGuestPat(s0, run[..|run| - 1]);
    }
  }

  /** From any start, the first MTRR write or hard reset brings guest PAT and shadow in line for good. */
  lemma {:induction false} GuestPatFollowsOnceDecided(s0: State, run: seq<Event>)
    requires Decided(run)
    ensures GuestPatOk(Exec(s0, run))
  {
    var prefix, e := run[..|run| - 1], run[|run| - 1];
    if !(e.WriteDefType? || e == Reset(true)) {
      var i :| 0 <= i < |run| && (run[i].WriteDefType? || run[i] == Reset(true));
      assert prefix[i] == run[i];
      GuestPatFollowsOnceDecided(s0, prefix);
    }
  }
}
