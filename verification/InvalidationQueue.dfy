/**
 The queued-invalidation protocol of vtd.c (VT-d specification, section 6.5.2): any number of CPUs
 submit requests to any number of units under one lock, while the units fetch and execute
 descriptors at their own pace.
 */
module InvalidationQueue {
  import opened Common

  /** PAGE_SIZE / sizeof(struct vtd_entry): slots of a unit's one-page ring. */
  const SLOTS: nat := 256

  /** The invalidation requests the driver issues. */
  datatype Request =
    | GlobalContext
    | GlobalIotlb
    | GlobalInt
    | DomainContext(did: nat)
    | DomainIotlb(did: nat)
    | IntIndex(index: nat)

  /** A 16-byte descriptor; a wait descriptor carries the address of the CPU's completion flag. */
  datatype Descriptor = Invalidate(request: Request) | Wait(cpu: nat)

  /**
   A remapping unit: its ring in memory, its head and tail registers, the descriptors it has
   fetched but not completed, and the history of what it has executed.
   */
  datatype Unit = Unit(ring: seq<Descriptor>, head: nat, tail: nat,
                       fetched: seq<Descriptor>, log: seq<Descriptor>)

  /** Where a CPU stands in vtd_submit_iq_request; `mark` is the length of the log when the lock was taken. */
  datatype Pc =
    | Idle
    | Locking(unit: nat, request: Option<Request>)
    | Locked(unit: nat, request: Option<Request>, mark: nat)
    | Indexed(unit: nat, request: Option<Request>, mark: nat, index: nat)
    | Requested(unit: nat, request: Option<Request>, mark: nat, index: nat)
    | Filled(unit: nat, request: Option<Request>, mark: nat, index: nat)
    | Polling(unit: nat, request: Option<Request>, mark: nat)
    | Leaving(unit: nat, request: Option<Request>, mark: nat)

  datatype Cpu = Cpu(pc: Pc, completed: bool)

  datatype Call = Call(cpu: nat, unit: nat, request: Option<Request>)

  /** `returned` is the history of finished calls, in the order in which they released the lock. */
  datatype State = State(units: seq<Unit>, cpus: seq<Cpu>, holder: Option<nat>, returned: seq<Call>)

  datatype Event =
    | Submit(call: Call)              // clear the completion flag
    | Acquire(cpu: nat)               // spin_lock
    | ReadTail(cpu: nat)
    | WriteRequest(cpu: nat)          // skipped in effect when there is no request
    | WriteWait(cpu: nat)
    | WriteTail(cpu: nat)
    | SeeCompletion(cpu: nat)         // leave the polling loop
    | Release(cpu: nat)               // spin_unlock and return
    | Fetch(unit: nat)                // hardware
    | Complete(unit: nat, slot: nat)  // hardware, in any order except across a wait

  function Advance(index: nat): nat {
    (index + 1) % SLOTS
  }

  /** What one call puts into the ring. */
  function Batch(cpu: nat, request: Option<Request>): (b: seq<Descriptor>)
    ensures 1 <= |b| <= 2
  {
    (if request.Some? then [Invalidate(request.value)] else []) + [Wait(cpu)]
  }

  /** The descriptors in ring slots `head` up to but not including `tail`, with wrap-around. */
  function Window(ring: seq<Descriptor>, head: nat, tail: nat): (w: seq<Descriptor>)
    requires |ring| == SLOTS
    ensures |w| == (tail - head) % SLOTS
  {
    seq((tail - head) % SLOTS, (i: nat) requires i < SLOTS => ring[(head + i) % SLOTS])
  }

  /** Everything handed to the hardware that it has not executed yet. */
  function InFlight(u: Unit): seq<Descriptor>
    requires |u.ring| == SLOTS
  {
    u.fetched + Window(u.ring, u.head, u.tail)
  }

  predicate At(s: State, c: nat) {
    c < |s.cpus| && !s.cpus[c].pc.Idle? && s.cpus[c].pc.unit < |s.units|
  }

  predicate FetchPossible(u: Unit) {
    |u.ring| == SLOTS && u.head < SLOTS && u.head != u.tail
  }

  /** Fetched requests complete in any order, but a wait only behind everything in front of it. */
  predicate CompletePossible(u: Unit, k: nat) {
    k < |u.fetched| && (u.fetched[k].Wait? ==> forall j :: 0 <= j < k ==> u.fetched[j].Wait?)
  }

  predicate Enabled(s: State, e: Event) {
    match e
    case Submit(call) => call.cpu < |s.cpus| && s.cpus[call.cpu].pc.Idle? && call.unit < |s.units|
    case Acquire(c) => At(s, c) && s.cpus[c].pc.Locking? && s.holder.None?
    case ReadTail(c) => At(s, c) && s.cpus[c].pc.Locked?
    case WriteRequest(c) => At(s, c) && s.cpus[c].pc.Indexed? && s.cpus[c].pc.index < |s.units[s.cpus[c].pc.unit].ring|
    case WriteWait(c) => At(s, c) && s.cpus[c].pc.Requested? && s.cpus[c].pc.index < |s.units[s.cpus[c].pc.unit].ring|
    case WriteTail(c) => At(s, c) && s.cpus[c].pc.Filled?
    case SeeCompletion(c) => At(s, c) && s.cpus[c].pc.Polling? && s.cpus[c].completed
    case Release(c) => At(s, c) && s.cpus[c].pc.Leaving?
    case Fetch(u) => u < |s.units| && FetchPossible(s.units[u])
    case Complete(u, k) => u < |s.units| && CompletePossible(s.units[u], k)
  }

  function Move(s: State, c: nat, pc: Pc): State
    requires c < |s.cpus|
  {
    s.(cpus := s.cpus[c := s.cpus[c].(pc := pc)])
  }

  /** inv_queue_write: store a descriptor and step the index. */
  function Put(u: Unit, index: nat, d: Descriptor): Unit
    requires index < |u.ring|
  {
    u.(ring := u.ring[index := d])
  }

  function AfterComplete(s: State, u: nat, k: nat): State
    requires u < |s.units| && CompletePossible(s.units[u], k)
  {
    var d := s.units[u].fetched[k];
    var unit := s.units[u].(fetched := s.units[u].fetched[..k] + s.units[u].fetched[k + 1..],
                            log := s.units[u].log + [d]);
    var s' := s.(units := s.units[u := unit]);
    if d.Wait? && d.cpu < |s.cpus| then s'.(cpus := s.cpus[d.cpu := s.cpus[d.cpu].(completed := true)]) else s'
  }

  function After(s: State, e: Event): State
    requires Enabled(s, e)
  {
    match e
    case Submit(call) =>
      s.(cpus := s.cpus[call.cpu := Cpu(Locking(call.unit, call.request), false)])
    case Acquire(c) =>
      var pc := s.cpus[c].pc;
      Move(s, c, Locked(pc.unit, pc.request, |s.units[pc.unit].log|)).(holder := Some(c))
    case ReadTail(c) =>
      var pc := s.cpus[c].pc;
      Move(s, c, Indexed(pc.unit, pc.request, pc.mark, s.units[pc.unit].tail))
    case WriteRequest(c) =>
      var pc := s.cpus[c].pc;
      if pc.request.None? then Move(s, c, Requested(pc.unit, pc.request, pc.mark, pc.index))
      else Move(s.(units := s.units[pc.unit := Put(s.units[pc.unit], pc.index, Invalidate(pc.request.value))]),
                c, Requested(pc.unit, pc.request, pc.mark, Advance(pc.index)))
    case WriteWait(c) =>
      var pc := s.cpus[c].pc;
      Move(s.(units := s.units[pc.unit := Put(s.units[pc.unit], pc.index, Wait(c))]),
           c, Filled(pc.unit, pc.request, pc.mark, Advance(pc.index)))
    case WriteTail(c) =>
      var pc := s.cpus[c].pc;
      Move(s.(units := s.units[pc.unit := s.units[pc.unit].(tail := pc.index)]),
           c, Polling(pc.unit, pc.request, pc.mark))
    case SeeCompletion(c) =>
      var pc := s.cpus[c].pc;
      Move(s, c, Leaving(pc.unit, pc.request, pc.mark))
    case Release(c) =>
      var pc := s.cpus[c].pc;
      Move(s, c, Idle).(holder := None, returned := s.returned + [Call(c, pc.unit, pc.request)])
    case Fetch(u) =>
      var unit := s.units[u];
      s.(units := s.units[u := unit.(head := Advance(unit.head), fetched := unit.fetched + [unit.ring[unit.head]])])
    case Complete(u, k) =>
      AfterComplete(s, u, k)
  }

  /** Rings may hold anything at the start; the registers agree and nothing is in flight. */
  predicate Initial(s: State) {
    && (forall u :: 0 <= u < |s.units| ==> Quiet(s.units[u]) && s.units[u].log == [])
    && (forall c :: 0 <= c < |s.cpus| ==> s.cpus[c].pc.Idle?)
    && s.holder.None? && s.returned == []
  }

  function Exec(s0: State, run: seq<Event>): Option<State> {
    if run == [] then Some(s0)
    else
      var e := run[|run| - 1];
      match Exec(s0, run[..|run| - 1])
      case None => None
      case Some(s) => if Enabled(s, e) then Some(After(s, e)) else None
  }

  // ---- The invariant ----

  /** Nothing pending: head and tail agree and no fetched descriptor is incomplete. */
  predicate Quiet(u: Unit) {
    |u.ring| == SLOTS && u.head == u.tail < SLOTS && u.fetched == []
  }

  /** What a unit executes for a list of calls made one after the other. */
  function Flatten(calls: seq<Call>, unit: nat): seq<Descriptor> {
    if calls == [] then []
    else
      var last := calls[|calls| - 1];
      Flatten(calls[..|calls| - 1], unit) + (if last.unit == unit then Batch(last.cpu, last.request) else [])
  }

  /** The unit the lock holder works on, at each of its steps. */
  ghost predicate HolderOk(s: State, c: nat)
    requires At(s, c)
  {
    var pc := s.cpus[c].pc;
    var u := s.units[pc.unit];
    |u.ring| == SLOTS && u.head < SLOTS && u.tail < SLOTS &&
    match pc
    case Idle => false
    case Locking(_, _) => false
    case Locked(_, _, mark) => Quiet(u) && !s.cpus[c].completed && mark == |u.log|
    case Indexed(_, _, mark, i) => Quiet(u) && !s.cpus[c].completed && mark == |u.log| && i == u.tail
    case Requested(_, r, mark, i) =>
      Quiet(u) && !s.cpus[c].completed && mark == |u.log| && i < SLOTS &&
      Window(u.ring, u.tail, i) + [Wait(c)] == Batch(c, r)
    case Filled(_, r, mark, i) =>
      Quiet(u) && !s.cpus[c].completed && mark == |u.log| && i < SLOTS && Window(u.ring, u.tail, i) == Batch(c, r)
    case Polling(_, r, mark) =>
      mark <= |u.log| && u.log[mark..] + InFlight(u) == Batch(c, r) && s.cpus[c].completed == (InFlight(u) == [])
    case Leaving(_, r, mark) =>
      mark <= |u.log| && Quiet(u) && u.log[mark..] == Batch(c, r)
  }

  predicate Holding(s: State, u: nat) {
    s.holder.Some? && At(s, s.holder.value) && s.cpus[s.holder.value].pc.unit == u
  }

  /** A unit nobody works on is quiet, and has executed exactly the batches of the finished calls. */
  ghost predicate UnitOk(s: State, u: nat)
    requires u < |s.units|
  {
    if Holding(s, u) then
      var pc := s.cpus[s.holder.value].pc;
      !pc.Locking? && pc.mark <= |s.units[u].log| && s.units[u].log[..pc.mark] == Flatten(s.returned, u)
    else
      Quiet(s.units[u]) && s.units[u].log == Flatten(s.returned, u)
  }

  ghost predicate CpuOk(s: State, c: nat)
    requires c < |s.cpus|
  {
    (!s.cpus[c].pc.Idle? ==> s.cpus[c].pc.unit < |s.units|) &&
    (s.cpus[c].pc.Locking? ==> !s.cpus[c].completed) &&
    (s.holder != Some(c) ==> s.cpus[c].pc.Idle? || s.cpus[c].pc.Locking?)
  }

  ghost predicate Inv(s: State) {
    && (s.holder.Some? ==> At(s, s.holder.value) && HolderOk(s, s.holder.value))
    && (forall u :: 0 <= u < |s.units| ==> UnitOk(s, u))
    && (forall c :: 0 <= c < |s.cpus| ==> CpuOk(s, c))
  }

  /** How far a slot is ahead of the head. */
  lemma Distance(head: nat, index: nat)
    requires head < SLOTS && index < SLOTS
    ensures (index - head) % SLOTS == if index >= head then index - head else index - head + SLOTS
  {
  }

  /** The slot `i` places behind the head. */
  lemma SlotAt(head: nat, i: nat)
    requires head < SLOTS && i < SLOTS
    ensures (head + i) % SLOTS == if head + i < SLOTS then head + i else head + i - SLOTS
  {
  }

  lemma WindowStep(ring: seq<Descriptor>, head: nat, tail: nat)
    requires |ring| == SLOTS && head < SLOTS && tail < SLOTS && head != tail
    ensures Window(ring, head, tail) == [ring[head]] + Window(ring, Advance(head), tail)
  {
    var w, v := Window(ring, head, tail), Window(ring, Advance(head), tail);
    SlotAt(head, 1);
    Distance(head, tail);
    Distance(Advance(head), tail);
    assert |w| == |v| + 1;
    SlotAt(head, 0);
    forall i | 0 <= i < |v| ensures w[i + 1] == v[i] {
      SlotAt(head, i + 1);
      SlotAt(Advance(head), i);
    }
  }

  lemma SlotArithmetic(head: nat, index: nat, i: nat)
    requires head < SLOTS && index < SLOTS
    ensures (head + (index - head) % SLOTS) % SLOTS == index
    ensures i < (index - head) % SLOTS ==> (head + i) % SLOTS != index
    ensures (index - head) % SLOTS + 1 < SLOTS ==> (Advance(index) - head) % SLOTS == (index - head) % SLOTS + 1
  {
    Distance(head, index);
    SlotAt(head, (index - head) % SLOTS);
    if i < (index - head) % SLOTS {
      SlotAt(head, i);
    }
    SlotAt(index, 1);
    Distance(head, Advance(index));
  }

  lemma WindowGrows(ring: seq<Descriptor>, head: nat, index: nat, d: Descriptor)
    requires |ring| == SLOTS && head < SLOTS && index < SLOTS && (index - head) % SLOTS + 1 < SLOTS
    ensures Window(ring[index := d], head, Advance(index)) == Window(ring, head, index) + [d]
  {
    var w := Window(ring, head, index);
    var v := Window(ring[index := d], head, Advance(index));
    SlotArithmetic(head, index, 0);
    assert |v| == |w| + 1;
    forall i | 0 <= i < |v| ensures v[i] == (w + [d])[i] {
      SlotArithmetic(head, index, i);
    }
  }

  lemma SubmitKeepsInv(s: State, call: Call)
    requires Inv(s) && Enabled(s, Submit(call))
    ensures Inv(After(s, Submit(call)))
  {
    var s' := After(s, Submit(call));
    assert CpuOk(s, call.cpu);
    forall u | 0 <= u < |s'.units| ensures UnitOk(s', u) {
      assert UnitOk(s, u);
    }
    forall c | 0 <= c < |s'.cpus| ensures CpuOk(s', c) {
      assert CpuOk(s, c);
    }
  }

  lemma AcquireKeepsInv(s: State, c: nat)
    requires Inv(s) && Enabled(s, Acquire(c))
    ensures Inv(After(s, Acquire(c)))
  {
    var s' := After(s, Acquire(c));
    var v := s.cpus[c].pc.unit;
    assert CpuOk(s, c) && UnitOk(s, v);
    forall u | 0 <= u < |s'.units| ensures UnitOk(s', u) {
      assert UnitOk(s, u);
    }
    forall d | 0 <= d < |s'.cpus| ensures CpuOk(s', d) {
      assert CpuOk(s, d);
    }
  }

  predicate IsHolderStep(e: Event) {
    e.ReadTail? || e.WriteRequest? || e.WriteWait? || e.WriteTail? || e.SeeCompletion?
  }

  lemma HolderStepKeepsHolder(s: State, e: Event)
    requires Inv(s) && Enabled(s, e) && IsHolderStep(e)
    ensures At(After(s, e), e.cpu) && HolderOk(After(s, e), e.cpu)
  {
    var s', c := After(s, e), e.cpu;
    var pc := s.cpus[c].pc;
    var u := s.units[pc.unit];
    assert CpuOk(s, c) && s.holder == Some(c);
    match e {
      case WriteRequest(_) =>
        if pc.request.Some? {
          WindowGrows(u.ring, u.tail, pc.index, Invalidate(pc.request.value));
        }
      case WriteWait(_) =>
        WindowGrows(u.ring, u.tail, pc.index, Wait(c));
      case WriteTail(_) =>
        assert u.log[pc.mark..] == [];
        assert InFlight(s'.units[pc.unit]) == Window(u.ring, u.tail, pc.index);
      case SeeCompletion(_) =>
        assert u.fetched == [] && |Window(u.ring, u.head, u.tail)| == 0;
      case _ =>
    }
  }

  /** A step of the lock holder that leaves its log, the lock and the list of finished calls alone. */
  lemma HolderStepKeepsInv(s: State, e: Event)
    requires Inv(s) && Enabled(s, e) && IsHolderStep(e)
    ensures Inv(After(s, e))
  {
    HolderStepKeepsHolder(s, e);
    var s', c := After(s, e), e.cpu;
    assert CpuOk(s, c) && s.holder == Some(c);
    assert UnitOk(s, s.cpus[c].pc.unit);
    forall v | 0 <= v < |s'.units| ensures UnitOk(s', v) {
      assert UnitOk(s, v);
    }
    forall d | 0 <= d < |s'.cpus| ensures CpuOk(s', d) {
      assert CpuOk(s, d);
    }
  }

  lemma ReleaseKeepsInv(s: State, c: nat)
    requires Inv(s) && Enabled(s, Release(c))
    ensures Inv(After(s, Release(c)))
  {
    var s' := After(s, Release(c));
    var pc := s.cpus[c].pc;
    assert CpuOk(s, c) && s.holder == Some(c);
    assert s'.returned[..|s'.returned| - 1] == s.returned;
    forall u | 0 <= u < |s'.units| ensures UnitOk(s', u) {
      assert UnitOk(s, u);
      if u == pc.unit {
        assert s.units[u].log == s.units[u].log[..pc.mark] + s.units[u].log[pc.mark..];
      }
    }
    forall d | 0 <= d < |s'.cpus| ensures CpuOk(s', d) {
      assert CpuOk(s, d);
    }
  }

  /** Hardware only ever moves in the unit of a CPU that is polling. */
  lemma HardwareStepHasPoller(s: State, u: nat)
    requires Inv(s) && u < |s.units|
    requires FetchPossible(s.units[u]) || exists k :: CompletePossible(s.units[u], k)
    ensures Holding(s, u) && s.cpus[s.holder.value].pc.Polling?
    ensures s.units[u].log[s.cpus[s.holder.value].pc.mark..] + InFlight(s.units[u])
            == Batch(s.holder.value, s.cpus[s.holder.value].pc.request)
  {
    assert UnitOk(s, u);
  }

  lemma FetchKeepsInv(s: State, u: nat)
    requires Inv(s) && Enabled(s, Fetch(u))
    ensures Inv(After(s, Fetch(u)))
  {
    HardwareStepHasPoller(s, u);
    var s', unit := After(s, Fetch(u)), s.units[u];
    WindowStep(unit.ring, unit.head, unit.tail);
    assert InFlight(s'.units[u]) == InFlight(unit);
    forall v | 0 <= v < |s'.units| ensures UnitOk(s', v) {
      assert UnitOk(s, v);
    }
    forall d | 0 <= d < |s'.cpus| ensures CpuOk(s', d) {
      assert CpuOk(s, d);
    }
  }

  /** The pending rest of a batch completes front to back: the wait comes last. */
  lemma CompletesInOrder(s: State, u: nat, k: nat)
    requires Inv(s) && Enabled(s, Complete(u, k))
    ensures k == 0
  {
    HardwareStepHasPoller(s, u);
    var unit, c := s.units[u], s.holder.value;
    var rest := unit.log[s.cpus[c].pc.mark..];
    assert (rest + InFlight(unit))[|rest| + k] == unit.fetched[k];
    assert (rest + InFlight(unit))[|rest|] == unit.fetched[0];
  }

  /** Executing the oldest fetched descriptor moves it from what is in flight to the log. */
  lemma CompleteFirst(u: Unit, mark: nat, b: seq<Descriptor>)
    requires |u.ring| == SLOTS && u.fetched != [] && mark <= |u.log| && u.log[mark..] + InFlight(u) == b
    ensures var u' := u.(fetched := u.fetched[1..], log := u.log + [u.fetched[0]]);
      && InFlight(u) == [u.fetched[0]] + InFlight(u')
      && u'.log[mark..] + InFlight(u') == b
      && b[|b| - |InFlight(u)|] == u.fetched[0]
  {
    var u' := u.(fetched := u.fetched[1..], log := u.log + [u.fetched[0]]);
    assert InFlight(u) == [u.fetched[0]] + InFlight(u');
    assert u'.log[mark..] == u.log[mark..] + [u.fetched[0]];
  }

  /** Only the unit and the completion flag of its poller change. */
  lemma CompleteEffect(s: State, u: nat, k: nat)
    requires Inv(s) && Enabled(s, Complete(u, k))
    ensures var s', unit := After(s, Complete(u, k)), s.units[u];
      && s'.holder == s.holder && s'.returned == s.returned
      && s'.units == s.units[u := unit.(fetched := unit.fetched[1..], log := unit.log + [unit.fetched[0]])]
      && |s'.cpus| == |s.cpus| && s.holder.Some?
      && forall c :: 0 <= c < |s.cpus| ==>
           s'.cpus[c].pc == s.cpus[c].pc
           && s'.cpus[c].completed == (s.cpus[c].completed || (s.holder == Some(c) && unit.fetched[0].Wait?))
  {
    HardwareStepHasPoller(s, u);
    CompletesInOrder(s, u, k);
    var unit, c := s.units[u], s.holder.value;
    var b := Batch(c, s.cpus[c].pc.request);
    CompleteFirst(unit, s.cpus[c].pc.mark, b);
    assert unit.fetched[0] == b[|b| - |InFlight(unit)|];
    assert unit.fetched[..0] + unit.fetched[1..] == unit.fetched[1..];
  }

  lemma CompleteKeepsHolder(s: State, u: nat, k: nat)
    requires Inv(s) && Enabled(s, Complete(u, k))
    ensures s.holder.Some? && At(After(s, Complete(u, k)), s.holder.value)
    ensures HolderOk(After(s, Complete(u, k)), s.holder.value)
  {
    HardwareStepHasPoller(s, u);
    CompletesInOrder(s, u, k);
    var unit, c := s.units[u], s.holder.value;
    var pc := s.cpus[c].pc;
    var b := Batch(c, pc.request);
    CompleteFirst(unit, pc.mark, b);
    var left := |InFlight(unit)|;
    assert unit.fetched[0] == b[|b| - left];
    assert unit.fetched[0].Wait? <==> left == 1;
    CompleteEffect(s, u, k);
  }

  lemma CompleteKeepsInv(s: State, u: nat, k: nat)
    requires Inv(s) && Enabled(s, Complete(u, k))
    ensures Inv(After(s, Complete(u, k)))
  {
    HardwareStepHasPoller(s, u);
    CompleteEffect(s, u, k);
    CompleteKeepsHolder(s, u, k);
    var s' := After(s, Complete(u, k));
    forall v | 0 <= v < |s'.units| ensures UnitOk(s', v) {
      assert UnitOk(s, v);
    }
    forall d | 0 <= d < |s'.cpus| ensures CpuOk(s', d) {
      assert CpuOk(s, d);
    }
  }

  lemma KeepsInv(s: State, e: Event)
    requires Inv(s) && Enabled(s, e)
    ensures Inv(After(s, e))
  {
    match e
    case Submit(call) => SubmitKeepsInv(s, call);
    case Acquire(c) => AcquireKeepsInv(s, c);
    case Release(c) => ReleaseKeepsInv(s, c);
    case Fetch(u) => FetchKeepsInv(s, u);
    case Complete(u, k) => CompleteKeepsInv(s, u, k);
    case _ => HolderStepKeepsInv(s, e);
  }

  lemma {:induction false} ReachableInv(s0: State, run: seq<Event>)
    requires Initial(s0) && Exec(s0, run).Some?
    ensures Inv(Exec(s0, run).value)
  {
    if run == [] {
      forall u | 0 <= u < |s0.units| ensures UnitOk(s0, u) {
        assert Flatten([], u) == [];
      }
    } else {
      ReachableInv(s0, run[..|run| - 1]);
      KeepsInv(Exec(s0, run[..|run| - 1]).value, run[|run| - 1]);
    }
  }

  // ---- What every run guarantees ----

  /**
   While the lock is free, every unit's queue is empty, and what the unit has executed so far is the
   batches of all finished calls, in the order in which they held the lock: each call acts as one step.
   The finished calls are those that were made, each at the place of its return.
   */
  lemma FreeLockMeansIdleUnits(s0: State, run: seq<Event>, u: nat)
    requires Initial(s0) && Exec(s0, run).Some?
    requires Exec(s0, run).value.holder.None? && u < |Exec(s0, run).value.units|
    ensures var s := Exec(s0, run).value;
      && Quiet(s.units[u]) && s.units[u].log == Flatten(s.returned, u)
      && |s.returned| == |ReturnedCalls(run)|
      && forall k :: 0 <= k < |s.returned| ==> ReturnedCalls(run)[k] == Some(s.returned[k])
  {
    ReachableInv(s0, run);
    ReturnedAsMade(s0, run);
    assert UnitOk(Exec(s0, run).value, u);
  }

  lemma InFlightBound(s: State, u: nat)
    requires Inv(s) && u < |s.units|
    ensures |s.units[u].ring| == SLOTS && |InFlight(s.units[u])| <= 2
  {
    assert UnitOk(s, u);
    if Holding(s, u) && s.cpus[s.holder.value].pc.Polling? {
      var c := s.holder.value;
      assert |s.units[u].log[s.cpus[c].pc.mark..] + InFlight(s.units[u])| <= 2;
    }
  }

  /** No unit ever has more than two descriptors in flight. */
  lemma AtMostTwoInFlight(s0: State, run: seq<Event>, u: nat)
    requires Initial(s0) && Exec(s0, run).Some? && u < |Exec(s0, run).value.units|
    ensures var unit := Exec(s0, run).value.units[u]; |unit.ring| == SLOTS && |InFlight(unit)| <= 2
  {
    ReachableInv(s0, run);
    InFlightBound(Exec(s0, run).value, u);
  }

  /** A slot the hardware has not fetched yet is never written: a write to the ring leaves the window alone. */
  lemma UnconsumedSlotsSurviveWrites(s0: State, run: seq<Event>, c: nat, e: Event)
    requires Initial(s0) && Exec(s0, run).Some? && Enabled(Exec(s0, run).value, e)
    requires e == WriteRequest(c) || e == WriteWait(c)
    ensures var s := Exec(s0, run).value;
      var unit := s.units[s.cpus[c].pc.unit];
      var unit' := After(s, e).units[s.cpus[c].pc.unit];
      |unit.ring| == |unit'.ring| == SLOTS && InFlight(unit') == InFlight(unit) == []
  {
    ReachableInv(s0, run);
    var s := Exec(s0, run).value;
    assert CpuOk(s, c);
    KeepsInv(s, e);
    assert CpuOk(After(s, e), c);
  }

  /** The call a CPU has made last. */
  function LastCall(run: seq<Event>, c: nat): Option<Call> {
    if run == [] then None
    else
      match run[|run| - 1]
      case Submit(call) => if call.cpu == c then Some(call) else LastCall(run[..|run| - 1], c)
      case _ => LastCall(run[..|run| - 1], c)
  }

  /** The calls that have returned, in order: at each Release, the last call of that CPU. */
  function ReturnedCalls(run: seq<Event>): seq<Option<Call>> {
    if run == [] then []
    else
      var prefix := run[..|run| - 1];
      match run[|run| - 1]
      case Release(c) => ReturnedCalls(prefix) + [LastCall(prefix, c)]
      case _ => ReturnedCalls(prefix)
  }

  /** A step of the protocol works for the call that its CPU has made, and for no other. */
  predicate WorksFor(s: State, c: nat, call: Option<Call>) {
    c < |s.cpus| && !s.cpus[c].pc.Idle? ==> call == Some(Call(c, s.cpus[c].pc.unit, s.cpus[c].pc.request))
  }

  lemma StepWorksFor(s: State, run: seq<Event>, e: Event, c: nat)
    requires Enabled(s, e) && WorksFor(s, c, LastCall(run, c))
    ensures WorksFor(After(s, e), c, LastCall(run + [e], c))
  {
    assert (run + [e])[..|run|] == run;
  }

  /** In every run each CPU carries out the call it has made last. */
  lemma {:induction false} RunWorksFor(s0: State, run: seq<Event>, c: nat)
    requires Initial(s0) && Exec(s0, run).Some?
    ensures WorksFor(Exec(s0, run).value, c, LastCall(run, c))
  {
    if run != [] {
      var prefix, e := run[..|run| - 1], run[|run| - 1];
      RunWorksFor(s0, prefix, c);
      StepWorksFor(Exec(s0, prefix).value, prefix, e, c);
      assert prefix + [e] == run;
    }
  }

  /** The history of finished calls holds the calls that were made, each at the place of its return. */
  lemma {:induction false} ReturnedAsMade(s0: State, run: seq<Event>)
    requires Initial(s0) && Exec(s0, run).Some?
    ensures var s := Exec(s0, run).value;
      |s.returned| == |ReturnedCalls(run)| && forall k :: 0 <= k < |s.returned| ==> ReturnedCalls(run)[k] == Some(s.returned[k])
  {
    if run != [] {
      var prefix, e := run[..|run| - 1], run[|run| - 1];
      ReturnedAsMade(s0, prefix);
      if e.Release? {
        RunWorksFor(s0, prefix, e.cpu);
      }
    }
  }

  /**
   A call returns only after the hardware has executed its own request and its own wait, and nothing
   else in between: the completion flag it saw is not left over from an earlier call.
   */
  lemma ReturnsOnlyAfterOwnRequest(s0: State, run: seq<Event>, c: nat)
    requires Initial(s0) && Exec(s0, run).Some? && Enabled(Exec(s0, run).value, Release(c))
    ensures LastCall(run, c).Some? && LastCall(run, c).value.cpu == c
    ensures var s, call := Exec(s0, run).value, LastCall(run, c).value;
      && call.unit < |s.units| && s.cpus[c].pc.mark <= |s.units[call.unit].log|
      && s.units[call.unit].log[s.cpus[c].pc.mark..]
         == match call.request
            case Some(r) => [Invalidate(r), Wait(c)]
            case None => [Wait(c)]
  {
    ReachableInv(s0, run);
    RunWorksFor(s0, run, c);
    assert CpuOk(Exec(s0, run).value, c);
  }

  /** A polling CPU is never stuck: it sees its flag, or the hardware of its unit can take a step. */
  lemma PollingNeverStuck(s0: State, run: seq<Event>, c: nat)
    requires Initial(s0) && Exec(s0, run).Some?
    requires At(Exec(s0, run).value, c) && Exec(s0, run).value.cpus[c].pc.Polling?
    ensures var s := Exec(s0, run).value;
      Enabled(s, SeeCompletion(c)) || Enabled(s, Fetch(s.cpus[c].pc.unit)) || Enabled(s, Complete(s.cpus[c].pc.unit, 0))
  {
    ReachableInv(s0, run);
    var s := Exec(s0, run).value;
    assert CpuOk(s, c);
    var u := s.units[s.cpus[c].pc.unit];
    if !s.cpus[c].completed && u.fetched == [] {
      assert |Window(u.ring, u.head, u.tail)| > 0;
    }
  }

  // ---- Every call returns ----

  /** Steps a CPU has still to make, with those of the hardware for its batch counted until they are handed over. */
  function Rank(pc: Pc): nat {
    match pc
    case Idle => 0
    case Leaving(_, _, _) => 1
    case Polling(_, _, _) => 2
    case Filled(_, _, _, _) => 7
    case Requested(_, _, _, _) => 8
    case Indexed(_, _, _, _) => 9
    case Locked(_, _, _) => 10
    case Locking(_, _) => 11
  }

  function Ranks(cpus: seq<Cpu>): nat {
    if cpus == [] then 0 else Ranks(cpus[..|cpus| - 1]) + Rank(cpus[|cpus| - 1].pc)
  }

  /** A fetch and an execution for each descriptor in the ring, an execution for each fetched one. */
  function Work(u: Unit): nat
    requires |u.ring| == SLOTS
  {
    2 * |Window(u.ring, u.head, u.tail)| + |u.fetched|
  }

  /** The pending work, all in the unit of the lock holder. */
  function HolderWork(s: State): nat {
    if s.holder.Some? && At(s, s.holder.value) && |s.units[s.cpus[s.holder.value].pc.unit].ring| == SLOTS
    then Work(s.units[s.cpus[s.holder.value].pc.unit]) else 0
  }

  function Remaining(s: State): nat {
    Ranks(s.cpus) + HolderWork(s)
  }

  lemma {:induction false} RanksUpdate(cpus: seq<Cpu>, c: nat, cpu: Cpu)
    requires c < |cpus|
    ensures Ranks(cpus[c := cpu]) + Rank(cpus[c].pc) == Ranks(cpus) + Rank(cpu.pc)
    decreases |cpus|
  {
    var n := |cpus| - 1;
    if c < n {
      RanksUpdate(cpus[..n], c, cpu);
      assert cpus[c := cpu][..n] == cpus[..n][c := cpu];
    } else {
      assert cpus[c := cpu][..n] == cpus[..n];
    }
  }

  lemma {:induction false} RanksSame(cpus: seq<Cpu>, cpus': seq<Cpu>)
    requires |cpus'| == |cpus| && forall c :: 0 <= c < |cpus| ==> cpus'[c].pc == cpus[c].pc
    ensures Ranks(cpus') == Ranks(cpus)
    decreases |cpus|
  {
    if cpus != [] {
      RanksSame(cpus[..|cpus| - 1], cpus'[..|cpus| - 1]);
    }
  }

  lemma HardwareStepShrinks(s: State, e: Event)
    requires Inv(s) && Enabled(s, e) && (e.Fetch? || e.Complete?)
    ensures Remaining(After(s, e)) < Remaining(s)
  {
    HardwareStepHasPoller(s, e.unit);
    RanksSameAfterHardware(s, e);
    var u := s.units[e.unit];
    match e {
      case Fetch(_) => WindowStep(u.ring, u.head, u.tail);
      case Complete(_, k) => CompleteEffect(s, e.unit, k);
    }
  }

  lemma RanksSameAfterHardware(s: State, e: Event)
    requires Inv(s) && Enabled(s, e) && (e.Fetch? || e.Complete?)
    ensures Ranks(After(s, e).cpus) == Ranks(s.cpus)
  {
    if e.Complete? {
      CompleteEffect(s, e.unit, e.slot);
    }
    RanksSame(s.cpus, After(s, e).cpus);
  }

  /** Everything but a new call brings the calls in progress closer to their return. */
  lemma StepShrinks(s: State, e: Event)
    requires Inv(s) && Enabled(s, e) && !e.Submit?
    ensures Remaining(After(s, e)) < Remaining(s)
  {
    if e.Fetch? || e.Complete? {
      HardwareStepShrinks(s, e);
    } else {
      CpuStepShrinks(s, e);
    }
  }

  lemma CpuStepShrinks(s: State, e: Event)
    requires Inv(s) && Enabled(s, e) && !e.Submit? && !e.Fetch? && !e.Complete?
    ensures Remaining(After(s, e)) < Remaining(s)
  {
    var s', c := After(s, e), e.cpu;
    assert CpuOk(s, c) && UnitOk(s, s.cpus[c].pc.unit);
    assert s'.cpus == s.cpus[c := s'.cpus[c]];
    RanksUpdate(s.cpus, c, s'.cpus[c]);
    KeepsInv(s, e);
    if e.WriteTail? {
      InFlightBound(s', s.cpus[c].pc.unit);
    }
  }

  /** While some call is in progress, some step other than a new call is possible. */
  lemma NeverStuck(s: State)
    requires Inv(s) && !(forall c :: 0 <= c < |s.cpus| ==> s.cpus[c].pc.Idle?)
    ensures exists e :: Enabled(s, e) && !e.Submit?
  {
    if s.holder.Some? {
      HolderCanStep(s);
    } else {
      var c :| 0 <= c < |s.cpus| && !s.cpus[c].pc.Idle?;
      assert CpuOk(s, c);
      assert Enabled(s, Acquire(c));
    }
  }

  lemma HolderCanStep(s: State)
    requires Inv(s) && s.holder.Some?
    ensures exists e :: Enabled(s, e) && !e.Submit?
  {
    var c := s.holder.value;
    var u := s.units[s.cpus[c].pc.unit];
    match s.cpus[c].pc {
      case Locked(_, _, _) => assert Enabled(s, ReadTail(c));
      case Indexed(_, _, _, _) => assert Enabled(s, WriteRequest(c));
      case Requested(_, _, _, _) => assert Enabled(s, WriteWait(c));
      case Filled(_, _, _, _) => assert Enabled(s, WriteTail(c));
      case Leaving(_, _, _) => assert Enabled(s, Release(c));
      case Polling(unit, _, _) =>
        if s.cpus[c].completed {
          assert Enabled(s, SeeCompletion(c));
        } else if u.fetched == [] {
          assert |Window(u.ring, u.head, u.tail)| > 0;
          assert Enabled(s, Fetch(unit));
        } else {
          assert Enabled(s, Complete(unit, 0));
        }
      case _ =>
    }
  }

  predicate NoNewCalls(run: seq<Event>) {
    forall k :: 0 <= k < |run| ==> !run[k].Submit?
  }

  lemma {:induction false} RunShrinks(s: State, run: seq<Event>)
    requires Inv(s) && Exec(s, run).Some? && NoNewCalls(run)
    ensures Inv(Exec(s, run).value) && |run| + Remaining(Exec(s, run).value) <= Remaining(s)
    decreases |run|
  {
    if run != [] {
      var prefix, e := run[..|run| - 1], run[|run| - 1];
      RunShrinks(s, prefix);
      KeepsInv(Exec(s, prefix).value, e);
      StepShrinks(Exec(s, prefix).value, e);
    }
  }

  /**
   All calls in progress return: however the steps of CPUs and hardware interleave, without new calls there are
   only so many of them, and as long as a call is in progress another one is possible.
   */
  lemma AllCallsReturn(s0: State, run: seq<Event>, more: seq<Event>)
    requires Initial(s0) && Exec(s0, run).Some?
    requires Exec(Exec(s0, run).value, more).Some? && NoNewCalls(more)
    ensures |more| <= Remaining(Exec(s0, run).value)
    ensures var t := Exec(Exec(s0, run).value, more).value;
      (forall c :: 0 <= c < |t.cpus| ==> t.cpus[c].pc.Idle?) || exists e :: Enabled(t, e) && !e.Submit?
  {
    ReachableInv(s0, run);
    RunShrinks(Exec(s0, run).value, more);
    var t := Exec(Exec(s0, run).value, more).value;
    if !(forall c :: 0 <= c < |t.cpus| ==> t.cpus[c].pc.Idle?) {
      NeverStuck(t);
    }
  }
}
