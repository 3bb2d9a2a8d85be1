/**
 Taking over a unit's invalidation queue from the root target and handing it back (vtd.c): the emulation
 starts at the position the hardware had reached, and on shutdown the hardware is driven to the position
 the emulation has reached.
 */
module QueueHandback {
  import opened Common
  import opened InvalidationQueue
  import Emu = IrEmulation

  /** Bits that must be zero in a queue address the emulation accepts: ~VTD_IQA_ADDR_MASK. */
  const IQA_LOW: nat := 4096

  /** `n` wait descriptors of the same CPU. */
  function Waits(n: nat, cpu: nat): (w: seq<Descriptor>)
    ensures |w| == n
  {
    if n == 0 then [] else Waits(n - 1, cpu) + [Wait(cpu)]
  }

  /** A wait of the CPU at the end and nowhere else. */
  predicate EndsInWait(w: seq<Descriptor>, cpu: nat) {
    w != [] && forall k :: 0 <= k < |w| ==> (w[k] == Wait(cpu) <==> k == |w| - 1)
  }

  lemma FirstOfWait(w: seq<Descriptor>, cpu: nat)
    requires EndsInWait(w, cpu)
    ensures w[0] == Wait(cpu) <==> |w| == 1
    ensures |w| > 1 ==> EndsInWait(w[1..], cpu)
  {
  }

  lemma MoveFirst(log: seq<Descriptor>, w: seq<Descriptor>)
    requires w != []
    ensures (log + [w[0]]) + w[1..] == log + w
  {
  }

  /** One unit as the CPU that runs shutdown sees it: the ring it has programmed, and the registers. */
  class QueueUnit {
    const ring: array<Descriptor>
    var head: nat
    var tail: nat
    var completed: bool
    ghost var log: seq<Descriptor>

    ghost predicate Valid()
      reads this
    {
      ring.Length == SLOTS && head < SLOTS && tail < SLOTS
    }

    /** Programs a ring and enables it: both registers start at the first slot. */
    constructor (ring: array<Descriptor>)
      requires ring.Length == SLOTS
      ensures Valid() && this.ring == ring && head == tail == 0 && log == []
    {
      this.ring := ring;
      head, tail, completed, log := 0, 0, false, [];
    }

    ghost function Pending(): seq<Descriptor>
      requires Valid()
      reads this, ring
    {
      Window(ring[..], head, tail)
    }

    /** inv_queue_write. */
    method Put(index: nat, d: Descriptor) returns (next: nat)
      requires Valid() && index < SLOTS
      modifies ring
      ensures ring[..] == old(ring[..])[index := d] && next == Advance(index)
    {
      ring[index] := d;
      next := (index + 1) % SLOTS;
    }

    /** The hardware fetches the next descriptor, which moves the head, and executes it. */
    method HardwareStep(cpu: nat)
      requires Valid() && head != tail
      modifies this
      ensures Valid() && tail == old(tail) && head == Advance(old(head))
      ensures log == old(log) + [ring[old(head)]]
      ensures completed == (old(completed) || ring[old(head)] == Wait(cpu))
    {
      var d := ring[head];
      head := (head + 1) % SLOTS;
      log := log + [d];
      if d == Wait(cpu) {
        completed := true;
      }
    }

    /** Stores the descriptors of one call behind the tail and returns the new tail index. */
    method Fill(cpu: nat, request: Option<Request>) returns (index: nat)
      requires Valid() && head == tail
      modifies ring
      ensures index == (tail + |Batch(cpu, request)|) % SLOTS
      ensures Window(ring[..], head, index) == Batch(cpu, request)
    {
      index := tail;
      if request.Some? {
        WindowGrows(ring[..], head, index, Invalidate(request.value));
        index := Put(index, Invalidate(request.value));
      }
      WindowGrows(ring[..], head, index, Wait(cpu));
      index := Put(index, Wait(cpu));
    }

    /** The polling loop: the hardware works until the wait descriptor has set the flag. */
    method Drain(cpu: nat)
      requires Valid() && !completed && EndsInWait(Pending(), cpu)
      modifies this
      ensures Valid() && head == tail == old(tail) && log == old(log) + old(Pending())
    {
      ghost var pending := Pending();
      while !completed
        invariant Valid() && tail == old(tail) && pending == Pending()
        invariant log + pending == old(log) + old(Pending())
        invariant if completed then pending == [] else EndsInWait(pending, cpu)
        decreases |pending|
      {
        WindowStep(ring[..], head, tail);
        FirstOfWait(pending, cpu);
        MoveFirst(log, pending);
        HardwareStep(cpu);
        pending := pending[1..];
      }
    }

    /** vtd_submit_iq_request on an idle queue: returns when the hardware has executed exactly this batch. */
    method Submit(cpu: nat, request: Option<Request>)
      requires Valid() && head == tail
      modifies this, ring
      ensures Valid() && head == tail == (old(tail) + |Batch(cpu, request)|) % SLOTS
      ensures log == old(log) + Batch(cpu, request)
    {
      completed := false;
      tail := Fill(cpu, request);
      assert Pending() == Batch(cpu, request);
      Drain(cpu);
    }

    /**
     The dummy-request loop of vtd_restore_ir on a freshly enabled queue; `mapped` tells whether the guest's
     queue page could be mapped. Exactly iqh / 16 wait-only requests bring the head to `iqh`.
     */
    method RestoreHead(cpu: nat, iqh: nat, mapped: bool) returns (requests: nat)
      requires Valid() && head == tail == 0 && Emu.QueueOffset(iqh)
      modifies this, ring
      ensures Valid() && head == tail && requests == (if mapped then iqh / Emu.DESC_SIZE else 0)
      ensures mapped ==> head * Emu.DESC_SIZE == iqh
      ensures log == old(log) + Waits(requests, cpu)
    {
      requests := 0;
      if mapped {
        while head * Emu.DESC_SIZE != iqh
          invariant Valid() && head == tail == requests && requests * Emu.DESC_SIZE <= iqh
          invariant log == old(log) + Waits(requests, cpu)
          decreases iqh - requests * Emu.DESC_SIZE
        {
          Submit(cpu, None);
          requests := requests + 1;
        }
      }
    }

    /**
     The part of vtd_init_ir_emulation that takes over the queue: wait until the hardware has caught up with
     the tail the root target wrote, and adopt that position; a queue address with low bits set (a queue of
     more than one page) is refused.
     */
    method AdoptPosition(cpu: nat, iqa: nat) returns (r: Result<nat>)
      requires Valid()
      modifies this
      ensures Valid() && tail == old(tail) && head == tail
      ensures r == if iqa % IQA_LOW == 0 then Ok(Emu.DESC_SIZE * tail) else Err(EIO)
      ensures r.Ok? ==> Emu.QueueOffset(r.value)
      ensures log == old(log) + old(Pending())
    {
      var iqt := tail;
      assert log + Pending() == old(log) + old(Pending());
      while head != iqt
        invariant Valid() && tail == iqt && log + Pending() == old(log) + old(Pending())
        decreases (tail - head) % SLOTS
      {
        WindowStep(ring[..], head, tail);
        MoveFirst(log, Pending());
        Distance(head, tail);
        Distance(Advance(head), tail);
        HardwareStep(cpu);
      }
      assert Pending() == [];
      if iqa % IQA_LOW != 0 {
        return Err(EIO);
      }
      return Ok(Emu.DESC_SIZE * iqt);
    }
  }

  /** Dummy requests reach a position exactly when it is a descriptor boundary inside the page. */
  lemma ReachableByDummies(iqh: nat)
    ensures (exists k: nat :: k % SLOTS * Emu.DESC_SIZE == iqh) <==> Emu.QueueOffset(iqh)
  {
    if Emu.QueueOffset(iqh) {
      var k := iqh / Emu.DESC_SIZE;
      assert k % SLOTS * Emu.DESC_SIZE == iqh;
    }
  }

  /** Taking over at hardware position `tail`, emulating `n` descriptors and handing back ends n slots further on. */
  lemma TakeoverRoundTrip(tail: nat, n: nat)
    requires tail < SLOTS
    ensures Emu.OffsetAt(Emu.DESC_SIZE * tail, n) / Emu.DESC_SIZE == (tail + n) % SLOTS
    ensures Emu.QueueOffset(Emu.OffsetAt(Emu.DESC_SIZE * tail, n))
  {
    var x := tail + n;
    assert Emu.DESC_SIZE * tail + Emu.DESC_SIZE * n == Emu.DESC_SIZE * x;
    assert x == SLOTS * (x / SLOTS) + x % SLOTS;
  }
}
