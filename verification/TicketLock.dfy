/**
 The 16-bit ticket spinlock of asm/spinlock.h: the atomic operations on the packed
 lock word, and every interleaving of any number of CPUs that use it.
 */
module TicketLock {
  import opened Common

  /** Number of different 16-bit tickets. */
  const TICKETS: nat := 0x1_0000

  type Ticket = t: int | 0 <= t < 0x1_0000

  /** The 32-bit word that `xaddl` operates on: `owner` is the low half, `next` the high half. */
  function Pack(owner: Ticket, next: Ticket): nat {
    owner + 0x1_0000 * next
  }

  class SpinLock {
    var owner: Ticket
    var next: Ticket

    constructor ()
      ensures owner == 0 && next == 0
    {
      owner, next := 0, 0;
    }

    /** `lock xaddl`: adds { owner = 0, next = 1 } as one 32-bit number and returns the old word. */
    method FetchAdd() returns (seen: Ticket, ticket: Ticket)
      modifies this
      ensures seen == old(owner) && ticket == old(next)
      ensures owner == old(owner)
      ensures next == (old(next) + 1) % TICKETS
    {
      var word := Pack(owner, next);
      seen, ticket := word % 0x1_0000, word / 0x1_0000;
      var sum := (word + Pack(0, 1)) % 0x1_0000_0000;
      owner, next := sum % 0x1_0000, sum / 0x1_0000;
    }

    /** `addw $1` on the low half only. */
    method Unlock()
      modifies this`owner
      ensures owner == (old(owner) + 1) % TICKETS
    {
      owner := (owner + 1) % 0x1_0000;
    }
  }

  /** Where a CPU stands in spin_lock / spin_unlock. */
  datatype Pc =
    | Idle
    | Fetched(seen: Ticket, ticket: Ticket) // after xaddl, before comparing the two halves it returned
    | Spinning(ticket: Ticket)              // in the loop that re-reads `owner`
    | Critical                              // between spin_lock and spin_unlock

  /**
   The lock word, the CPUs, and the history of the run: which CPUs fetched a ticket and which
   entered the critical section, in order, and how often the lock was released.
   */
  datatype State = State(owner: Ticket, next: Ticket, cpus: seq<Pc>,
                         fetched: seq<nat>, entered: seq<nat>, released: nat)

  datatype Event = FetchAdd(cpu: nat) | Compare(cpu: nat) | Poll(cpu: nat) | Release(cpu: nat)

  function Init(n: nat): State {
    State(0, 0, seq(n, _ => Idle), [], [], 0)
  }

  predicate Enabled(s: State, e: Event) {
    e.cpu < |s.cpus| &&
    match e
    case FetchAdd(c) => s.cpus[c].Idle?
    case Compare(c) => s.cpus[c].Fetched?
    case Poll(c) => s.cpus[c].Spinning?
    case Release(c) => s.cpus[c].Critical?
  }

  function Enter(s: State, c: nat): State
    requires c < |s.cpus|
  {
    s.(cpus := s.cpus[c := Critical], entered := s.entered + [c])
  }

  function After(s: State, e: Event): (s': State)
    requires Enabled(s, e)
    ensures |s'.cpus| == |s.cpus|
  {
    match e
    case FetchAdd(c) =>
      s.(next := (s.next + 1) % TICKETS,
         cpus := s.cpus[c := Fetched(s.owner, s.next)],
         fetched := s.fetched + [c])
    case Compare(c) =>
      if s.cpus[c].seen == s.cpus[c].ticket then Enter(s, c)
      else s.(cpus := s.cpus[c := Spinning(s.cpus[c].ticket)])
    case Poll(c) =>
      if s.owner == s.cpus[c].ticket then Enter(s, c) else s
    case Release(c) =>
      s.(owner := (s.owner + 1) % TICKETS, cpus := s.cpus[c := Idle], released := s.released + 1)
  }

  /** The state after a run, or None if some event of the run was not possible. */
  function Exec(n: nat, run: seq<Event>): Option<State> {
    if run == [] then Some(Init(n))
    else
      var e := run[|run| - 1];
      match Exec(n, run[..|run| - 1])
      case None => None
      case Some(s) => if Enabled(s, e) then Some(After(s, e)) else None
  }

  ghost predicate AtMostOneCritical(s: State) {
    forall c, d :: 0 <= c < |s.cpus| && 0 <= d < |s.cpus| && s.cpus[c].Critical? && s.cpus[d].Critical? ==> c == d
  }

  ghost predicate MutualExclusion(n: nat) {
    forall run: seq<Event> :: Exec(n, run).Some? ==> AtMostOneCritical(Exec(n, run).value)
  }

  // ---- The invariant ----

  /** CPUs that hold or wait for the lock, in ticket order. */
  function Outstanding(s: State): seq<nat>
    requires s.released <= |s.fetched|
  {
    s.fetched[s.released..]
  }

  ghost predicate Distinct(q: seq<nat>) {
    forall i, j :: 0 <= i < j < |q| ==> q[i] != q[j]
  }

  /** The CPU that took ticket number `j` still stands where a CPU with that ticket may stand. */
  ghost predicate TicketOk(s: State, j: nat)
    requires s.released <= j < |s.fetched|
  {
    s.fetched[j] < |s.cpus| &&
    match s.cpus[s.fetched[j]]
    case Idle => false
    case Fetched(seen, t) =>
      t == j % TICKETS && (seen == t ==> j == s.released) && (j == s.released ==> |s.entered| == s.released)
    case Spinning(t) => t == j % TICKETS && (j == s.released ==> |s.entered| == s.released)
    case Critical => j == s.released && |s.entered| == s.released + 1
  }

  ghost predicate Inv(s: State) {
    && s.released <= |s.entered| <= s.released + 1
    && s.entered <= s.fetched
    && s.owner == s.released % TICKETS
    && s.next == |s.fetched| % TICKETS
    && Distinct(Outstanding(s))
    && (forall j :: s.released <= j < |s.fetched| ==> TicketOk(s, j))
    && (forall c :: 0 <= c < |s.cpus| && !s.cpus[c].Idle? ==> c in Outstanding(s))
  }

  /** Distinct numbers below `n`: there are at most `n` of them. */
  lemma {:induction false} Pigeonhole(q: seq<nat>, n: nat)
    requires Distinct(q)
    requires forall i :: 0 <= i < |q| ==> q[i] < n
    ensures |q| <= n
  {
    if q != [] {
      assert q[0] < n;
      if k :| 0 <= k < |q| && q[k] == n - 1 {
        Pigeonhole(q[..k] + q[k + 1..], n - 1);
      } else {
        Pigeonhole(q, n - 1);
      }
    }
  }

  /** The queue is no longer than the number of CPUs, and shorter while some CPU is idle. */
  lemma OutstandingBound(s: State)
    requires Inv(s)
    ensures |Outstanding(s)| <= |s.cpus|
    ensures forall c :: 0 <= c < |s.cpus| && s.cpus[c].Idle? ==> |Outstanding(s)| < |s.cpus|
  {
    var q := Outstanding(s);
    forall i | 0 <= i < |q| ensures q[i] < |s.cpus| && !s.cpus[q[i]].Idle? {
      assert TicketOk(s, s.released + i);
    }
    Pigeonhole(q, |s.cpus|);
    forall c | 0 <= c < |s.cpus| && s.cpus[c].Idle? ensures |q| < |s.cpus| {
      Pigeonhole(q + [c], |s.cpus|);
    }
  }

  /** Equal remainders of numbers less than one full turn apart are equal numbers. */
  lemma SameTicket(i: nat, j: nat)
    requires i <= j < i + TICKETS
    ensures i % TICKETS == j % TICKETS <==> i == j
    ensures (j % TICKETS - i % TICKETS) % TICKETS == j - i
  {
  }

  lemma NextTicket(n: nat)
    ensures (n % TICKETS + 1) % TICKETS == (n + 1) % TICKETS
  {
  }

  lemma OutstandingIndex(s: State, c: nat) returns (j: nat)
    requires Inv(s) && c < |s.cpus| && !s.cpus[c].Idle?
    ensures s.released <= j < |s.fetched| && s.fetched[j] == c
    ensures TicketOk(s, j)
    ensures j - s.released < |s.cpus|
    ensures forall k :: s.released <= k < |s.fetched| && k != j ==> s.fetched[k] != c
  {
    var q := Outstanding(s);
    assert c in q;
    var i :| 0 <= i < |q| && q[i] == c;
    j := s.released + i;
    OutstandingBound(s);
    forall k | s.released <= k < |s.fetched| && k != j ensures s.fetched[k] != c {
      assert q[k - s.released] == s.fetched[k];
    }
  }

  lemma FetchAddKeepsInv(s: State, c: nat)
    requires Inv(s) && Enabled(s, FetchAdd(c)) && |s.cpus| <= TICKETS
    ensures Inv(After(s, FetchAdd(c)))
  {
    var s' := After(s, FetchAdd(c));
    OutstandingBound(s);
    SameTicket(s.released, |s.fetched|);
    NextTicket(|s.fetched|);
    forall j | s.released <= j < |s.fetched| ensures s.fetched[j] != c {
      assert TicketOk(s, j);
    }
    assert Outstanding(s') == Outstanding(s) + [c];
    forall j | s'.released <= j < |s'.fetched| ensures TicketOk(s', j) {
      if j < |s.fetched| {
        assert TicketOk(s, j) && s'.fetched[j] == s.fetched[j];
      }
    }
  }

  /** A CPU enters exactly when it is first in the queue: the heart of the lock. */
  lemma EnterKeepsInv(s: State, c: nat)
    requires Inv(s) && c < |s.cpus|
    requires s.released < |s.fetched| && s.fetched[s.released] == c && !s.cpus[c].Critical?
    ensures Inv(Enter(s, c))
  {
    var s' := Enter(s, c);
    assert TicketOk(s, s.released);
    assert s.entered == s.fetched[..s.released];
    assert s'.entered == s.fetched[..s.released + 1];
    forall j | s'.released <= j < |s'.fetched| ensures TicketOk(s', j) {
      assert TicketOk(s, j);
      assert Outstanding(s)[j - s.released] == s.fetched[j] && Outstanding(s)[0] == c;
    }
  }

  lemma ReleaseKeepsInv(s: State, c: nat)
    requires Inv(s) && Enabled(s, Release(c)) && |s.cpus| <= TICKETS
    ensures Inv(After(s, Release(c)))
  {
    var s' := After(s, Release(c));
    var j := OutstandingIndex(s, c);
    assert Outstanding(s') == Outstanding(s)[1..];
    assert Outstanding(s)[0] == c;
    forall k | s'.released <= k < |s'.fetched| ensures TicketOk(s', k) {
      assert TicketOk(s, k);
    }
  }

  /** A CPU that looks at the owner either goes on spinning or enters. */
  lemma PollKeepsInv(s: State, e: Event)
    requires Inv(s) && Enabled(s, e) && |s.cpus| <= TICKETS && !e.FetchAdd? && !e.Release?
    ensures Inv(After(s, e))
  {
    var s', c := After(s, e), e.cpu;
    var j := OutstandingIndex(s, c);
    SameTicket(s.released, j);
    if s'.entered != s.entered {
      EnterKeepsInv(s, c);
    } else {
      assert Outstanding(s') == Outstanding(s);
      forall k | s'.released <= k < |s'.fetched| ensures TicketOk(s', k) {
        assert TicketOk(s, k);
      }
    }
  }

  lemma KeepsInv(s: State, e: Event)
    requires Inv(s) && Enabled(s, e) && |s.cpus| <= TICKETS
    ensures Inv(After(s, e))
  {
    match e
    case FetchAdd(c) => FetchAddKeepsInv(s, c);
    case Release(c) => ReleaseKeepsInv(s, c);
    case _ => PollKeepsInv(s, e);
  }

  lemma {:induction false} ReachableInv(n: nat, run: seq<Event>)
    requires n <= TICKETS && Exec(n, run).Some?
    ensures Inv(Exec(n, run).value) && |Exec(n, run).value.cpus| == n
  {
    if run != [] {
      var prefix := run[..|run| - 1];
      ReachableInv(n, prefix);
      KeepsInv(Exec(n, prefix).value, run[|run| - 1]);
    }
  }

  // ---- Mutual exclusion, exactly ----

  lemma InvExcludes(s: State)
    requires Inv(s) && |s.cpus| <= TICKETS
    ensures AtMostOneCritical(s)
  {
    forall c, d | 0 <= c < |s.cpus| && 0 <= d < |s.cpus| && s.cpus[c].Critical? && s.cpus[d].Critical?
      ensures c == d
    {
      var i := OutstandingIndex(s, c);
      var j := OutstandingIndex(s, d);
    }
  }

  /** CPU 0 takes the lock, then CPUs 1 to k-1 fetch a ticket each. */
  function Crowd(k: nat): seq<Event>
    requires k >= 1
  {
    if k == 1 then [FetchAdd(0), Compare(0)] else Crowd(k - 1) + [FetchAdd(k - 1)]
  }

  lemma ExecSnoc(n: nat, run: seq<Event>, e: Event)
    ensures Exec(n, run + [e])
            == match Exec(n, run)
               case None => None
               case Some(s) => if Enabled(s, e) then Some(After(s, e)) else None
  {
    assert (run + [e])[..|run|] == run;
  }

  ghost predicate Crowded(s: State, n: nat, k: nat) {
    && |s.cpus| == n && s.owner == 0 && s.next == k % TICKETS
    && n > 0 && s.cpus[0].Critical? && forall c :: k <= c < n ==> s.cpus[c].Idle?
  }

  lemma FirstEnters(n: nat)
    requires n >= 1
    ensures Enabled(Init(n), FetchAdd(0)) && Enabled(After(Init(n), FetchAdd(0)), Compare(0))
    ensures Crowded(After(After(Init(n), FetchAdd(0)), Compare(0)), n, 1)
  {
  }

  lemma CrowdGrows(s: State, n: nat, k: nat)
    requires 1 <= k < n && Crowded(s, n, k)
    ensures Enabled(s, FetchAdd(k)) && Crowded(After(s, FetchAdd(k)), n, k + 1)
  {
    NextTicket(k);
  }

  lemma {:induction false} CrowdState(n: nat, k: nat)
    requires 1 <= k <= n && k <= TICKETS
    ensures Exec(n, Crowd(k)).Some? && Crowded(Exec(n, Crowd(k)).value, n, k)
  {
    if k == 1 {
      assert [FetchAdd(0), Compare(0)] == ([] + [FetchAdd(0)]) + [Compare(0)];
      ExecSnoc(n, [], FetchAdd(0));
      ExecSnoc(n, [] + [FetchAdd(0)], Compare(0));
      FirstEnters(n);
    } else {
      CrowdState(n, k - 1);
      ExecSnoc(n, Crowd(k - 1), FetchAdd(k - 1));
      CrowdGrows(Exec(n, Crowd(k - 1)).value, n, k - 1);
    }
  }

  /** With one CPU more than tickets, the last one to arrive draws the holder's ticket and enters. */
  lemma OneTooMany(n: nat)
    requires n > TICKETS
    ensures !MutualExclusion(n)
  {
    CrowdState(n, TICKETS);
    var more := Crowd(TICKETS) + [FetchAdd(TICKETS)];
    var most := more + [Compare(TICKETS)];
    ExecSnoc(n, Crowd(TICKETS), FetchAdd(TICKETS));
    ExecSnoc(n, more, Compare(TICKETS));
    var s := Exec(n, most).value;
    assert s.cpus[0].Critical? && s.cpus[TICKETS].Critical?;
  }

  /** The lock excludes in every interleaving exactly when there are no more CPUs than tickets. */
  lemma MutualExclusionIffEnoughTickets(n: nat)
    ensures MutualExclusion(n) <==> n <= TICKETS
  {
    if n <= TICKETS {
      forall run: seq<Event> | Exec(n, run).Some? ensures AtMostOneCritical(Exec(n, run).value) {
        ReachableInv(n, run);
        InvExcludes(Exec(n, run).value);
      }
    } else {
      OneTooMany(n);
    }
  }

  // ---- Fairness ----

  /** CPUs enter in the order of their fetch-and-add; nobody overtakes and nobody is skipped. */
  lemma FirstComeFirstServed(n: nat, run: seq<Event>)
    requires n <= TICKETS && Exec(n, run).Some?
    ensures Exec(n, run).value.entered <= Exec(n, run).value.fetched
  {
    ReachableInv(n, run);
  }

  /** Number of releases a waiting CPU still has to see, computed from its ticket and `owner` alone. */
  function Distance(s: State, c: nat): nat
    requires c < |s.cpus| && (s.cpus[c].Fetched? || s.cpus[c].Spinning?)
  {
    (s.cpus[c].ticket - s.owner) % TICKETS
  }

  predicate Waiting(s: State, c: nat) {
    c < |s.cpus| && (s.cpus[c].Fetched? || s.cpus[c].Spinning?)
  }

  /** The distance is the CPU's place in the queue, and distinct waiters have distinct distances. */
  lemma DistanceIsQueuePosition(n: nat, run: seq<Event>, c: nat)
    requires n <= TICKETS && Exec(n, run).Some? && Waiting(Exec(n, run).value, c)
    ensures var s := Exec(n, run).value;
      && s.released + Distance(s, c) < |s.fetched| && s.fetched[s.released + Distance(s, c)] == c
      && Distance(s, c) < n
  {
    ReachableInv(n, run);
    var s := Exec(n, run).value;
    var j := OutstandingIndex(s, c);
    SameTicket(s.released, j);
  }

  /** Only a release changes a waiter's distance, and each one lowers it by exactly one. */
  lemma ReleaseLowersDistanceByOne(n: nat, run: seq<Event>, e: Event, c: nat)
    requires n <= TICKETS && Exec(n, run).Some? && Enabled(Exec(n, run).value, e)
    requires Waiting(Exec(n, run).value, c)
    requires Waiting(After(Exec(n, run).value, e), c)
    ensures var s := Exec(n, run).value;
      Distance(After(s, e), c) == Distance(s, c) - (if e.Release? then 1 else 0)
  {
    ReachableInv(n, run);
    StepDistance(Exec(n, run).value, e, c);
  }

  lemma DistanceFromIndex(s: State, c: nat, j: nat)
    requires Inv(s) && |s.cpus| <= TICKETS && Waiting(s, c)
    requires s.released <= j < |s.fetched| && s.fetched[j] == c
    ensures Distance(s, c) == j - s.released
  {
    OutstandingBound(s);
    assert TicketOk(s, j);
    SameTicket(s.released, j);
  }

  lemma StepDistance(s: State, e: Event, c: nat)
    requires Inv(s) && |s.cpus| <= TICKETS && Enabled(s, e) && Waiting(s, c) && Waiting(After(s, e), c)
    ensures Distance(After(s, e), c) == Distance(s, c) - (if e.Release? then 1 else 0)
  {
    var j := OutstandingIndex(s, c);
    KeepsInv(s, e);
    DistanceFromIndex(s, c, j);
    if e.Release? {
      assert TicketOk(s, s.released);
      var h := OutstandingIndex(s, e.cpu);
    }
    DistanceFromIndex(After(s, e), c, j);
  }

  /** A poll ends the wait exactly for the CPU at distance zero. */
  lemma PollEntersExactlyAtDistanceZero(n: nat, run: seq<Event>, c: nat)
    requires n <= TICKETS && Exec(n, run).Some?
    requires c < |Exec(n, run).value.cpus| && Exec(n, run).value.cpus[c].Spinning?
    ensures var s := Exec(n, run).value;
      After(s, Poll(c)).cpus[c].Critical? <==> Distance(s, c) == 0
  {
    ReachableInv(n, run);
    var s := Exec(n, run).value;
    var j := OutstandingIndex(s, c);
    SameTicket(s.released, j);
  }

  // ---- Progress ----

  /** The CPU whose turn it is. */
  function Head(s: State): nat
    requires s.released < |s.fetched|
  {
    s.fetched[s.released]
  }

  function NextOf(pc: Pc, c: nat): Event {
    match pc
    case Idle => FetchAdd(c)
    case Fetched(_, _) => Compare(c)
    case Spinning(_) => Poll(c)
    case Critical => Release(c)
  }

  /** Steps to the critical section, without the releases in between. */
  function Stage(pc: Pc): nat {
    if pc.Fetched? then 2 else if pc.Spinning? then 1 else 0
  }

  /** How many steps a waiting CPU is away from the critical section if only the CPU whose turn it is steps. */
  function Rank(s: State, c: nat): nat
    requires Waiting(s, c) && s.released < |s.fetched| && Head(s) < |s.cpus|
  {
    3 * Distance(s, c) + Stage(s.cpus[Head(s)])
  }

  lemma HeadOfQueue(s: State, c: nat)
    requires Inv(s) && |s.cpus| <= TICKETS && Waiting(s, c)
    ensures s.released < |s.fetched| && Head(s) < |s.cpus| && TicketOk(s, s.released)
    ensures Distance(s, c) == 0 <==> Head(s) == c
  {
    var j := OutstandingIndex(s, c);
    DistanceFromIndex(s, c, j);
    assert TicketOk(s, s.released);
  }

  /** A step of the CPU whose turn it is brings a waiting CPU into the critical section, or closer to it. */
  lemma HeadStep(s: State, c: nat)
    requires Inv(s) && |s.cpus| <= TICKETS && Waiting(s, c)
    requires s.released < |s.fetched| && Head(s) < |s.cpus|
    ensures var e := NextOf(s.cpus[Head(s)], Head(s));
      Enabled(s, e) && (Waiting(After(s, e), c) || After(s, e).cpus[c].Critical?)
    ensures var s' := After(s, NextOf(s.cpus[Head(s)], Head(s)));
      Waiting(s', c) ==> s'.released < |s'.fetched| && Head(s') < |s'.cpus| && Rank(s', c) < Rank(s, c)
  {
    HeadOfQueue(s, c);
    var h := Head(s);
    var e := NextOf(s.cpus[h], h);
    var s' := After(s, e);
    KeepsInv(s, e);
    if Waiting(s', c) {
      HeadOfQueue(s', c);
      StepDistance(s, e, c);
      if e.Poll? {
        SameTicket(s.released, s.released);
      }
    }
  }

  lemma RunHeadStep(n: nat, run: seq<Event>, s: State, c: nat)
    requires n <= TICKETS && Exec(n, run) == Some(s) && Waiting(s, c)
    requires s.released < |s.fetched| && Head(s) < |s.cpus|
    ensures var e := NextOf(s.cpus[Head(s)], Head(s));
      Enabled(s, e) && Exec(n, run + [e]) == Some(After(s, e)) && (Waiting(After(s, e), c) || After(s, e).cpus[c].Critical?)
    ensures var s' := After(s, NextOf(s.cpus[Head(s)], Head(s)));
      Waiting(s', c) ==> s'.released < |s'.fetched| && Head(s') < |s'.cpus| && Rank(s', c) < Rank(s, c)
  {
    ReachableInv(n, run);
    HeadStep(s, c);
    ExecSnoc(n, run, NextOf(s.cpus[Head(s)], Head(s)));
  }

  lemma {:induction false} EntersInTurn(n: nat, run: seq<Event>, s: State, c: nat) returns (more: seq<Event>)
    requires n <= TICKETS && Exec(n, run) == Some(s) && Waiting(s, c)
    requires s.released < |s.fetched| && Head(s) < |s.cpus|
    ensures |more| <= Rank(s, c)
    ensures Exec(n, run + more).Some? && c < |Exec(n, run + more).value.cpus| && Exec(n, run + more).value.cpus[c].Critical?
    decreases Rank(s, c)
  {
    RunHeadStep(n, run, s, c);
    var e := NextOf(s.cpus[Head(s)], Head(s));
    var s' := After(s, e);
    if s'.cpus[c].Critical? {
      more := [e];
    } else {
      var rest := EntersInTurn(n, run + [e], s', c);
      more := [e] + rest;
      assert run + more == run + [e] + rest;
    }
  }

  /**
   No CPU waits in vain: from every reachable state a CPU at distance k of the lock can enter the critical section
   after at most 3k + 2 more steps; nobody has to step for it but the CPUs whose turn it is.
   */
  lemma WaitingCpuEnters(n: nat, run: seq<Event>, c: nat)
    requires n <= TICKETS && Exec(n, run).Some? && Waiting(Exec(n, run).value, c)
    ensures exists more: seq<Event> ::
      && |more| <= 3 * Distance(Exec(n, run).value, c) + 2
      && Exec(n, run + more).Some? && c < |Exec(n, run + more).value.cpus| && Exec(n, run + more).value.cpus[c].Critical?
  {
    var s := Exec(n, run).value;
    ReachableInv(n, run);
    HeadOfQueue(s, c);
    var more := EntersInTurn(n, run, s, c);
  }

  /** A CPU without the lock can ask for it at any time, and waits from then on. */
  lemma LockPossible(n: nat, run: seq<Event>, s: State, c: nat)
    requires Exec(n, run) == Some(s) && c < |s.cpus| && s.cpus[c].Idle?
    ensures var r := Exec(n, run + [FetchAdd(c)]); r.Some? && Waiting(r.value, c)
  {
    ExecSnoc(n, run, FetchAdd(c));
  }

  /** A CPU with the lock can give it back at any time. */
  lemma UnlockPossible(n: nat, run: seq<Event>, s: State, c: nat)
    requires Exec(n, run) == Some(s) && c < |s.cpus| && s.cpus[c].Critical?
    ensures var r := Exec(n, run + [Release(c)]); r.Some? && c < |r.value.cpus| && r.value.cpus[c].Idle?
  {
    ExecSnoc(n, run, Release(c));
  }
}
