/**
 The handshake of vmx.c between NMIs and the preemption timer. An NMI that hits a CPU in hypervisor mode
 only enables the timer; with a timer value of 0 the next VM entry then exits before the guest executes an
 instruction (Intel SDM volume 3, section 25.5.1), and the exit disables the timer and checks for events.
 */
module NmiTimer {
  import opened Common

  /** The pin-based controls: the preemption-timer bit, and all other bits. */
  datatype PinControls = PinControls(timer: bool, others: nat)

  datatype VmxState = VmxOff | VmxOn | VmcsReady

  class Vcpu {
    var pin: PinControls
    var state: VmxState
    /** Runs of x86_check_events. */
    var checks: nat

    /** vmx_preemption_timer_set_enable. */
    method SetTimer(enable: bool)
      modifies this`pin
      ensures pin == old(pin).(timer := enable)
    {
      var value := pin;
      value := value.(timer := enable);
      pin := value;
    }

    /** vcpu_nmi_handler. */
    method NmiHandler()
      modifies this`pin
      ensures pin == if state.VmcsReady? then old(pin).(timer := true) else old(pin)
    {
      if state == VmcsReady {
        SetTimer(true);
      }
    }

    /** vmx_check_events. */
    method CheckEvents()
      modifies this`pin, this`checks
      ensures pin == old(pin).(timer := false) && checks == old(checks) + 1
    {
      SetTimer(false);
      checks := checks + 1;
    }
  }

  // ---- One CPU, step by step, with NMIs in between ----

  datatype Pc =
    | Setup                              // vcpu_init, first before and then after vmxon
    | Entry                              // about to enter the guest
    | Guest
    | Handling                           // an exit that does not check for events
    | NmiExit                            // an exit caused by an NMI; further NMIs are blocked
    | HandlerRead                        // the handler, invoked by a software interrupt
    | HandlerWrite(value: PinControls)
    | DisableRead                        // vmx_check_events
    | DisableWrite(value: PinControls)   // the controls were read, not yet written back
    | Check                              // about to run x86_check_events
    | Checking

  /** `pending`: an NMI was delivered since the last run of x86_check_events began. */
  datatype State = State(pc: Pc, pin: PinControls, state: VmxState, pending: bool, checks: nat)

  datatype Event =
    | Nmi
    | OtherExit      // CPUID, CR access, MSR access, I/O, EPT violation, ...
    | ExceptionExit  // #DB or #AC
    | Step           // the next step of the hypervisor on this CPU

  predicate NmiBlocked(pc: Pc) {
    pc.NmiExit? || pc.HandlerRead? || pc.HandlerWrite?
  }

  predicate Enabled(s: State, e: Event) {
    match e
    case Nmi => !NmiBlocked(s.pc)
    case OtherExit => s.pc.Guest?
    case ExceptionExit => s.pc.Guest?
    case Step => !s.pc.Guest?
  }

  function After(s: State, e: Event): State
    requires Enabled(s, e)
  {
    match e
    case OtherExit => s.(pc := Handling)
    case ExceptionExit => s.(pc := DisableRead)
    case Nmi =>
      if s.pc.Guest? then s.(pc := NmiExit, pending := true)
      else if s.state.VmcsReady? then s.(pin := s.pin.(timer := true), pending := true)
      else s.(pending := true)
    case Step =>
      match s.pc
      case Setup => if s.state.VmxOff? then s.(state := VmxOn) else s.(pc := Entry, state := VmcsReady)
      case Entry => s.(pc := if s.pin.timer then DisableRead else Guest)
      case Handling => s.(pc := Entry)
      case NmiExit => s.(pc := HandlerRead)
      case HandlerRead => s.(pc := if s.state.VmcsReady? then HandlerWrite(s.pin) else DisableRead)
      case HandlerWrite(v) => s.(pc := DisableRead, pin := v.(timer := true))
      case DisableRead => s.(pc := DisableWrite(s.pin))
      case DisableWrite(v) => s.(pc := Check, pin := v.(timer := false))
      case Check => s.(pc := Checking, pending := false, checks := s.checks + 1)
      case Checking => s.(pc := Entry)
  }

  /** The start of vcpu_init; vmcs_setup leaves the timer off, and no NMI is pending. */
  function Init(others: nat): State {
    State(Setup, PinControls(false, others), VmxOff, false, 0)
  }

  function Exec(s0: State, run: seq<Event>): Option<State> {
    if run == [] then Some(s0)
    else
      var e := run[|run| - 1];
      match Exec(s0, run[..|run| - 1])
      case None => None
      case Some(s) => if Enabled(s, e) then Some(After(s, e)) else None
  }

  // ---- Invariants ----

  /** On the way to x86_check_events, whatever the timer bit is. */
  predicate WillCheck(pc: Pc) {
    pc.NmiExit? || pc.HandlerRead? || pc.HandlerWrite? || pc.DisableRead? || pc.DisableWrite? || pc.Check?
  }

  /** No NMI is forgotten. */
  predicate Covered(s: State) {
    s.state.VmcsReady? && (s.pending ==> WillCheck(s.pc) || (s.pin.timer && !s.pc.Guest?))
  }

  predicate Inv(s: State, others: nat) {
    && s.pin.others == others
    && (s.pc.HandlerWrite? || s.pc.DisableWrite? ==> s.pc.value.others == others)
    && (s.pc.Setup? <==> !s.state.VmcsReady?)
  }

  lemma {:induction false} ReachableInv(s0: State, others: nat, run: seq<Event>)
    requires Inv(s0, others) && Exec(s0, run).Some?
    ensures Inv(Exec(s0, run).value, others)
  {
    if run != [] {
      ReachableInv(s0, others, run[..|run| - 1]);
    }
  }

  lemma {:induction false} StaysCovered(s: State, run: seq<Event>)
    requires Covered(s) && Inv(s, s.pin.others) && Exec(s, run).Some?
    ensures Covered(Exec(s, run).value)
  {
    if run != [] {
      StaysCovered(s, run[..|run| - 1]);
      ReachableInv(s, s.pin.others, run[..|run| - 1]);
    }
  }

  // ---- What every run guarantees ----

  /** The guest gets to run although an NMI is waiting to be acted upon. */
  ghost predicate CanBeIgnored(s: State) {
    exists run :: Exec(s, run).Some? && Exec(s, run).value.pc.Guest? && Exec(s, run).value.pending
  }

  /**
   In every reachable state in which an NMI can be delivered, it can be ignored exactly when the VMCS is not
   yet marked ready: from then on no NMI is lost, wherever it hits, also between the read and the write of
   the controls.
   */
  lemma NoNmiIgnoredIffReady(others: nat, run: seq<Event>)
    requires Exec(Init(others), run).Some? && Enabled(Exec(Init(others), run).value, Nmi)
    ensures var s := Exec(Init(others), run).value;
      CanBeIgnored(After(s, Nmi)) <==> !s.state.VmcsReady?
  {
    ReachableInv(Init(others), others, run);
    var s := Exec(Init(others), run).value;
    var t := After(s, Nmi);
    if s.state.VmcsReady? {
      assert Covered(t);
      forall more: seq<Event> | Exec(t, more).Some? && Exec(t, more).value.pc.Guest?
        ensures !Exec(t, more).value.pending
      {
        StaysCovered(t, more);
      }
    } else {
      TimerOffInSetup(others, run);
      SetupEnters(if t.state.VmxOff? then After(t, Step) else t);
      if t.state.VmxOff? {
        var u := After(t, Step);
        assert [Step, Step, Step][..2] == [Step, Step] && [Step, Step][..1] == [Step] && [Step][..0] == [];
        assert Exec(t, [Step]) == Some(u) && Exec(t, [Step, Step]) == Some(After(u, Step));
        assert Exec(t, [Step, Step, Step]) == Some(After(After(u, Step), Step));
      } else {
        assert [Step, Step][..1] == [Step] && [Step][..0] == [];
        assert Exec(t, [Step]) == Some(After(t, Step));
        assert Exec(t, [Step, Step]) == Some(After(After(t, Step), Step));
      }
    }
  }

  /** From vcpu_init the guest is entered, whatever is pending. */
  lemma SetupEnters(s: State)
    requires s.pc.Setup? && s.state.VmxOn? && !s.pin.timer
    ensures Enabled(s, Step) && Enabled(After(s, Step), Step)
    ensures After(After(s, Step), Step).pc.Guest? && After(After(s, Step), Step).pending == s.pending
  {
  }

  lemma {:induction false} TimerOffInSetup(others: nat, run: seq<Event>)
    requires Exec(Init(others), run).Some?
    ensures Exec(Init(others), run).value.pc.Setup? ==> !Exec(Init(others), run).value.pin.timer
  {
    if run != [] {
      TimerOffInSetup(others, run[..|run| - 1]);
      ReachableInv(Init(others), others, run[..|run| - 1]);
    }
  }

  /** Steps the hypervisor needs at most until x86_check_events begins, for a covered pending NMI. */
  function StepsToCheck(pc: Pc): nat {
    match pc
    case Check => 1
    case DisableWrite(_) => 2
    case DisableRead => 3
    case HandlerWrite(_) => 4
    case HandlerRead => 5
    case NmiExit => 6
    case Entry => 4
    case Handling => 5
    case Checking => 5
    case Setup => 5
    case Guest => 0
  }

  function StepCount(run: seq<Event>): nat {
    if run == [] then 0 else StepCount(run[..|run| - 1]) + if run[|run| - 1].Step? then 1 else 0
  }

  lemma {:induction false} StepsCountDown(s: State, run: seq<Event>)
    requires Covered(s) && s.pending && Inv(s, s.pin.others) && Exec(s, run).Some?
    ensures var t := Exec(s, run).value;
      t.checks > s.checks || (t.pending && t.checks == s.checks && StepsToCheck(t.pc) + StepCount(run) <= StepsToCheck(s.pc))
  {
    if run != [] {
      var prefix := run[..|run| - 1];
      StepsCountDown(s, prefix);
      StaysCovered(s, prefix);
      ReachableInv(s, s.pin.others, prefix);
    }
  }

  /**
   Once the VMCS is ready, every NMI is followed by a run of x86_check_events after at most six steps of the
   hypervisor on this CPU, no matter how many more NMIs arrive in between.
   */
  lemma EveryNmiIsCheckedSoon(others: nat, run: seq<Event>, more: seq<Event>)
    requires Exec(Init(others), run).Some? && Enabled(Exec(Init(others), run).value, Nmi)
    requires Exec(Init(others), run).value.state.VmcsReady?
    requires Exec(After(Exec(Init(others), run).value, Nmi), more).Some? && StepCount(more) >= 6
    ensures var s := Exec(Init(others), run).value; Exec(After(s, Nmi), more).value.checks > s.checks
  {
    ReachableInv(Init(others), others, run);
    var t := After(Exec(Init(others), run).value, Nmi);
    StepsCountDown(t, more);
    StaysCovered(t, more);
  }

  /** After an exit for an exception or the timer, up to the run of x86_check_events. */
  predicate OnTheWay(pc: Pc) {
    pc.DisableRead? || pc.DisableWrite? || pc.Check?
  }

  lemma {:induction false} ChecksBeforeEntry(s: State, run: seq<Event>)
    requires OnTheWay(s.pc) && Exec(s, run).Some?
    ensures var t := Exec(s, run).value; t.checks > s.checks || (t.checks == s.checks && OnTheWay(t.pc))
  {
    if run != [] {
      ChecksBeforeEntry(s, run[..|run| - 1]);
    }
  }

  /**
   A guest that causes one exception after the other stays under control: between any two of its exits for an
   exception x86_check_events has run.
   */
  lemma ExceptionExitsCheck(others: nat, run: seq<Event>, more: seq<Event>)
    requires Exec(Init(others), run).Some? && Enabled(Exec(Init(others), run).value, ExceptionExit)
    requires var t := After(Exec(Init(others), run).value, ExceptionExit);
      Exec(t, more).Some? && Exec(t, more).value.pc.Guest?
    ensures var s := Exec(Init(others), run).value; Exec(After(s, ExceptionExit), more).value.checks > s.checks
  {
    ChecksBeforeEntry(After(Exec(Init(others), run).value, ExceptionExit), more);
  }

  /** No interleaving of the two read-modify-write sequences ever disturbs another control bit. */
  lemma OtherControlsUntouched(others: nat, run: seq<Event>)
    requires Exec(Init(others), run).Some?
    ensures Exec(Init(others), run).value.pin.others == others
  {
    ReachableInv(Init(others), others, run);
  }

  // ---- The guest gets to run ----

  /** Steps of the hypervisor with no NMI in between. */
  function Steps(n: nat): seq<Event> {
    seq(n, _ => Step)
  }

  /** One round through x86_check_events takes six steps; the timer bit decides whether another one follows. */
  function StepsToGuest(pc: Pc, timer: bool): (n: nat)
    ensures n <= 8 && (pc.DisableRead? ==> n == 5)
  {
    match pc
    case Guest => 0
    case Setup => 0
    case Entry => if timer then 6 else 1
    case Checking => if timer then 7 else 2
    case Handling => if timer then 7 else 2
    case Check => if timer then 8 else 3
    case DisableWrite(_) => 4
    case DisableRead => 5
    case HandlerWrite(_) => 6
    case HandlerRead => 7
    case NmiExit => 8
  }

  lemma OneStepCloser(s: State)
    requires s.state.VmcsReady? && !s.pc.Setup? && !s.pc.Guest?
    ensures var t := After(s, Step);
      && t.state.VmcsReady? && !t.pc.Setup? && (t.pc.Guest? ==> !t.pin.timer)
      && StepsToGuest(t.pc, t.pin.timer) == StepsToGuest(s.pc, s.pin.timer) - 1
  {
  }

  lemma ExecStep(s0: State, run: seq<Event>, s: State)
    requires Exec(s0, run) == Some(s) && Enabled(s, Step)
    ensures Exec(s0, run + [Step]) == Some(After(s, Step))
  {
    assert (run + [Step])[..|run|] == run;
  }

  lemma {:induction false} ReachesGuest(s0: State, run: seq<Event>, s: State)
    requires Exec(s0, run) == Some(s) && s.state.VmcsReady? && !s.pc.Setup? && (s.pc.Guest? ==> !s.pin.timer)
    ensures var r := Exec(s0, run + Steps(StepsToGuest(s.pc, s.pin.timer)));
      r.Some? && r.value.pc.Guest? && !r.value.pin.timer
    decreases StepsToGuest(s.pc, s.pin.timer)
  {
    var n := StepsToGuest(s.pc, s.pin.timer);
    if s.pc.Guest? {
      assert run + Steps(n) == run;
    } else {
      OneStepCloser(s);
      ExecStep(s0, run, s);
      assert run + [Step] + Steps(n - 1) == run + Steps(n);
      ReachesGuest(s0, run + [Step], After(s, Step));
    }
  }

  /**
   The hypervisor always comes back to the guest: from every reachable state with a ready VMCS, at most eight
   steps without another NMI, and from the start of vmx_check_events exactly five, enter the guest. The timer
   is then off, so the guest executes instructions.
   */
  lemma GuestRunsAgain(others: nat, run: seq<Event>)
    requires Exec(Init(others), run).Some? && Exec(Init(others), run).value.state.VmcsReady?
    ensures var s := Exec(Init(others), run).value;
      !s.pc.Guest? ==> exists n: nat ::
        && n <= 8 && (s.pc.DisableRead? ==> n == 5)
        && Exec(Init(others), run + Steps(n)).Some?
        && Exec(Init(others), run + Steps(n)).value.pc.Guest?
        && !Exec(Init(others), run + Steps(n)).value.pin.timer
  {
    ReachableInv(Init(others), others, run);
    var s := Exec(Init(others), run).value;
    if !s.pc.Guest? {
      ReachesGuest(Init(others), run, s);
    }
  }

  // ---- The steps are those of the methods ----

  /** Vcpu.CheckEvents as steps: without an NMI in between, the timer is off and one check has begun. */
  lemma CheckEventsSteps(s: State)
    requires s.pc.DisableRead?
    ensures Exec(s, [Step, Step, Step]) ==
      Some(State(Checking, s.pin.(timer := false), s.state, false, s.checks + 1))
  {
    assert [Step, Step, Step][..2] == [Step, Step] && [Step, Step][..1] == [Step] && [Step][..0] == [];
    var t := After(s, Step);
    assert Exec(s, [Step]) == Some(t);
    assert Exec(s, [Step, Step]) == Some(After(t, Step));
  }

  /** Vcpu.NmiHandler as steps, after an exit caused by an NMI. */
  lemma NmiHandlerSteps(s: State)
    requires s.pc.HandlerRead? && s.state.VmcsReady?
    ensures Exec(s, [Step, Step]) == Some(s.(pc := DisableRead, pin := s.pin.(timer := true)))
  {
    assert [Step, Step][..1] == [Step] && [Step][..0] == [];
    assert Exec(s, [Step]) == Some(After(s, Step));
  }
}
