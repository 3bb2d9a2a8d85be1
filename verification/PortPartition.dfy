/**
 Who may access which port, over every run in which targets start and leave: the pointwise effect of
 vcpu_target_init and vcpu_target_exit on the root target's bitmap, what follows from it, and exactly when it fails.
 */
module PortPartition {
  import opened Common
  import opened PortBitmap

  datatype Event = Start(id: nat, whitelist: Whitelist) | Leave(id: nat)

  /** The root target's whitelist and the PM timer's address. */
  datatype Platform = Platform(root: Whitelist, pm: nat)

  /** The targets that have started and not left. */
  function Live(run: seq<Event>): map<nat, Whitelist> {
    if run == [] then map[]
    else
      var before := Live(run[..|run| - 1]);
      match run[|run| - 1]
      case Start(id, wl) => before[id := wl]
      case Leave(id) => before - {id}
  }

  predicate Disjoint(a: Whitelist, b: Whitelist) {
    forall p: Port :: !(Grants(a, p) && Grants(b, p))
  }

  /** Targets leave only while they live, and a new target shares no port with a live one. */
  ghost predicate ValidRun(run: seq<Event>) {
    run == [] ||
    (ValidRun(run[..|run| - 1]) &&
     var live := Live(run[..|run| - 1]);
     match run[|run| - 1]
     case Start(id, wl) => id !in live && forall other :: other in live ==> Disjoint(live[other], wl)
     case Leave(id) => id in live)
  }

  /** The root target's access to one port, as Target.Init and IoBitmap.Refund change its bit. */
  function RootAllowed(pf: Platform, run: seq<Event>, p: Port): bool {
    if run == [] then InitiallyAllowed(pf.root, pf.pm, p)
    else
      var before := RootAllowed(pf, run[..|run| - 1], p);
      match run[|run| - 1]
      case Start(_, wl) => before && !Grants(wl, p)
      case Leave(id) =>
        var live := Live(run[..|run| - 1]);
        before || (id in live && Grants(live[id], p) && Grants(pf.root, p))
  }

  // ---- The bitmaps follow the events ----

  /** The root target's bitmap after a run. */
  ghost predicate Follows(root: IoBitmap, pf: Platform, run: seq<Event>)
    reads root.bytes
  {
    root.Valid() && forall p: Port :: root.Traps(p) <==> !RootAllowed(pf, run, p)
  }

  /** vcpu_target_init for the root target. */
  method StartRoot(pf: Platform) returns (root: IoBitmap)
    requires WhitelistOk(pf.root) && PmOk(pf.pm)
    ensures fresh(root) && fresh(root.bytes) && Follows(root, pf, [])
  {
    var target := new Target(pf.root);
    var _ := target.Init(null, pf.pm, true, None);
    root := target.bitmap;
  }

  /** vcpu_target_init for another target. */
  method StartTarget(root: IoBitmap, pf: Platform, ghost run: seq<Event>, ghost id: nat, wl: Whitelist) returns (target: Target)
    requires WhitelistOk(wl) && PmOk(pf.pm) && Follows(root, pf, run)
    modifies root.bytes
    ensures Follows(root, pf, run + [Start(id, wl)])
    ensures fresh(target) && target.bitmap != null && target.bitmap.Valid()
    ensures forall p: Port :: target.bitmap.Traps(p) <==> !InitiallyAllowed(wl, pf.pm, p)
  {
    assert (run + [Start(id, wl)])[..|run|] == run;
    target := new Target(wl);
    var _ := target.Init(root, pf.pm, true, None);
  }

  /** vcpu_target_exit. */
  method LeaveTarget(root: IoBitmap, pf: Platform, ghost run: seq<Event>, ghost id: nat, wl: Whitelist)
    requires WhitelistOk(wl) && WhitelistOk(pf.root) && Follows(root, pf, run)
    requires id in Live(run) && Live(run)[id] == wl
    modifies root.bytes
    ensures Follows(root, pf, run + [Leave(id)])
  {
    assert (run + [Leave(id)])[..|run|] == run;
    root.Refund(wl, pf.root);
  }

  // ---- What every run guarantees ----

  ghost predicate TakenNow(run: seq<Event>, p: Port) {
    exists id :: id in Live(run) && Grants(Live(run)[id], p)
  }

  /** Some target that was ever started had the port in its whitelist. */
  predicate EverTaken(run: seq<Event>, p: Port) {
    exists i :: 0 <= i < |run| && run[i].Start? && Grants(run[i].whitelist, p)
  }

  lemma LiveWasStarted(run: seq<Event>, p: Port)
    requires TakenNow(run, p)
    ensures EverTaken(run, p)
  {
    var prefix, e := run[..|run| - 1], run[|run| - 1];
    var id :| id in Live(run) && Grants(Live(run)[id], p);
    if e.Start? && e.id == id {
      assert run[|run| - 1].Start? && Grants(run[|run| - 1].whitelist, p);
    } else {
      assert id in Live(prefix) && Live(prefix)[id] == Live(run)[id];
      LiveWasStarted(prefix, p);
      var i :| 0 <= i < |prefix| && prefix[i].Start? && Grants(prefix[i].whitelist, p);
      assert run[i] == prefix[i];
    }
  }

  lemma EverTakenStep(run: seq<Event>, p: Port)
    requires run != []
    ensures EverTaken(run, p)
            <==> EverTaken(run[..|run| - 1], p) || (run[|run| - 1].Start? && Grants(run[|run| - 1].whitelist, p))
  {
    var prefix := run[..|run| - 1];
    if EverTaken(prefix, p) {
      var i :| 0 <= i < |prefix| && prefix[i].Start? && Grants(prefix[i].whitelist, p);
      assert run[i].Start? && Grants(run[i].whitelist, p);
    }
    if EverTaken(run, p) {
      var i :| 0 <= i < |run| && run[i].Start? && Grants(run[i].whitelist, p);
      assert i < |run| - 1 ==> prefix[i].Start? && Grants(prefix[i].whitelist, p);
    }
  }

  /** A port has at most one live taker. */
  lemma {:induction false} OneTaker(run: seq<Event>, a: nat, b: nat, p: Port)
    requires ValidRun(run) && a in Live(run) && b in Live(run)
    requires Grants(Live(run)[a], p) && Grants(Live(run)[b], p)
    ensures a == b
  {
    var prefix, e := run[..|run| - 1], run[|run| - 1];
    if e.Leave? || (e.id != a && e.id != b) {
      OneTaker(prefix, a, b, p);
    }
  }

  /** A start takes the new target's ports, and a leave gives back exactly the leaving target's. */
  lemma TakenStep(run: seq<Event>, p: Port)
    requires ValidRun(run) && run != []
    ensures var prefix := run[..|run| - 1];
      match run[|run| - 1]
      case Start(_, wl) => TakenNow(run, p) <==> TakenNow(prefix, p) || Grants(wl, p)
      case Leave(id) =>
        id in Live(prefix) && (TakenNow(run, p) <==> TakenNow(prefix, p) && !Grants(Live(prefix)[id], p))
  {
    var prefix, e := run[..|run| - 1], run[|run| - 1];
    if TakenNow(prefix, p) {
      var id :| id in Live(prefix) && Grants(Live(prefix)[id], p);
      if id in Live(run) {
        assert Live(run)[id] == Live(prefix)[id];
      }
      if e.Leave? && TakenNow(run, p) {
        var other :| other in Live(run) && Grants(Live(run)[other], p);
        assert Live(run)[other] == Live(prefix)[other];
        if Grants(Live(prefix)[e.id], p) {
          OneTaker(prefix, e.id, other, p);
        }
      }
    }
    if TakenNow(run, p) {
      var other :| other in Live(run) && Grants(Live(run)[other], p);
      assert other in Live(prefix) && !(e.Start? && other == e.id) ==> Grants(Live(prefix)[other], p);
    }
    if e.Start? && Grants(e.whitelist, p) {
      assert Grants(Live(run)[e.id], p);
    }
  }

  /**
   The root target's access to every port, exactly. A port that a live target has is gone; a port that some
   target had and gave back follows the root target's whitelist; a port that no target ever had is as it was.
   */
  lemma {:induction false} RootAccessExact(pf: Platform, run: seq<Event>, p: Port)
    requires ValidRun(run)
    ensures RootAllowed(pf, run, p)
            <==> !TakenNow(run, p) && if EverTaken(run, p) then Grants(pf.root, p) else InitiallyAllowed(pf.root, pf.pm, p)
  {
    if run != [] {
      var prefix := run[..|run| - 1];
      RootAccessExact(pf, prefix, p);
      EverTakenStep(run, p);
      TakenStep(run, p);
      if TakenNow(prefix, p) {
        LiveWasStarted(prefix, p);
      }
      if run[|run| - 1].Leave? && Grants(Live(prefix)[run[|run| - 1].id], p) {
        assert TakenNow(prefix, p);
      }
    }
  }

  /** Ports without an exception: not the i8042 command port and not the PM timer. */
  predicate Ordinary(pf: Platform, p: Port) {
    p != I8042_CMD && !PmPort(pf.pm, p)
  }

  /**
   Partition: for an ordinary port, the root target has access exactly when its whitelist grants the port and
   no live target's does; a live target has access exactly when its own does; and no two have access at once.
   */
  lemma PortsArePartitioned(pf: Platform, run: seq<Event>, p: Port)
    requires ValidRun(run) && Ordinary(pf, p)
    ensures RootAllowed(pf, run, p) <==> Grants(pf.root, p) && !TakenNow(run, p)
    ensures forall id :: id in Live(run) ==> (InitiallyAllowed(Live(run)[id], pf.pm, p) <==> Grants(Live(run)[id], p))
    ensures forall a, b | a in Live(run) && b in Live(run) ::
              InitiallyAllowed(Live(run)[a], pf.pm, p) && InitiallyAllowed(Live(run)[b], pf.pm, p) ==> a == b
    ensures forall a :: a in Live(run) && InitiallyAllowed(Live(run)[a], pf.pm, p) ==> !RootAllowed(pf, run, p)
  {
    RootAccessExact(pf, run, p);
    forall a, b | a in Live(run) && b in Live(run)
      && InitiallyAllowed(Live(run)[a], pf.pm, p) && InitiallyAllowed(Live(run)[b], pf.pm, p)
      ensures a == b
    {
      OneTaker(run, a, b, p);
    }
  }

  /**
   The i8042 command port is to be intercepted always. For the root target that holds exactly until a target
   that had the port leaves: if the root target's whitelist grants the port, the refund opens it.
   */
  lemma CommandPortIntercepted(pf: Platform, run: seq<Event>)
    requires ValidRun(run) && !PmPort(pf.pm, I8042_CMD)
    ensures RootAllowed(pf, run, I8042_CMD)
            <==> Grants(pf.root, I8042_CMD) && EverTaken(run, I8042_CMD) && !TakenNow(run, I8042_CMD)
  {
    RootAccessExact(pf, run, I8042_CMD);
  }

  /**
   The two exceptions, for every live target: the four ports of the PM timer are open whatever its whitelist says,
   and the i8042 command port is closed, unless it is one of those four.
   */
  lemma SpecialPorts(pf: Platform, run: seq<Event>, id: nat, p: Port)
    requires id in Live(run)
    ensures pf.pm != 0 && pf.pm <= p < pf.pm + 4 ==> InitiallyAllowed(Live(run)[id], pf.pm, p)
    ensures p == 0x64 && (pf.pm == 0 || p < pf.pm || pf.pm + 4 <= p) ==> !InitiallyAllowed(Live(run)[id], pf.pm, p)
  {
  }

  // ---- What overlapping whitelists leak ----

  /** Targets start once and leave while they live; their whitelists may overlap. */
  predicate LegalRun(run: seq<Event>) {
    run == [] ||
    (LegalRun(run[..|run| - 1]) &&
     match run[|run| - 1]
     case Start(id, _) => id !in Live(run[..|run| - 1])
     case Leave(id) => id in Live(run[..|run| - 1]))
  }

  /** The root target has a port that a live target has. */
  ghost predicate Leaks(pf: Platform, run: seq<Event>, p: Port) {
    RootAllowed(pf, run, p) && TakenNow(run, p)
  }

  ghost predicate TakenByOther(run: seq<Event>, id: nat, p: Port) {
    exists other :: other in Live(run) && other != id && Grants(Live(run)[other], p)
  }

  lemma LeaveTaken(run: seq<Event>, id: nat, p: Port)
    ensures TakenNow(run + [Leave(id)], p) <==> TakenByOther(run, id, p)
  {
    var after := run + [Leave(id)];
    assert after[..|run|] == run;
    if TakenNow(after, p) {
      var other :| other in Live(after) && Grants(Live(after)[other], p);
      assert other in Live(run) && other != id && Grants(Live(run)[other], p);
    }
    if TakenByOther(run, id, p) {
      var other :| other in Live(run) && other != id && Grants(Live(run)[other], p);
      assert other in Live(after) && Grants(Live(after)[other], p);
    }
  }

  /**
   A leave opens a leak exactly if the root target's whitelist and those of the leaving target and of some other
   live target all grant the port.
   */
  lemma LeaveLeaksIff(pf: Platform, run: seq<Event>, id: nat, p: Port)
    requires id in Live(run) && !Leaks(pf, run, p)
    ensures Leaks(pf, run + [Leave(id)], p)
            <==> Grants(Live(run)[id], p) && Grants(pf.root, p) && TakenByOther(run, id, p)
  {
    assert (run + [Leave(id)])[..|run|] == run;
    LeaveTaken(run, id, p);
    if TakenByOther(run, id, p) {
      var other :| other in Live(run) && other != id && Grants(Live(run)[other], p);
      assert TakenNow(run, p);
    }
  }

  /** A start never opens a leak. */
  lemma StartNeverLeaks(pf: Platform, run: seq<Event>, id: nat, wl: Whitelist, p: Port)
    requires !Leaks(pf, run, p)
    ensures !Leaks(pf, run + [Start(id, wl)], p)
  {
    var after := run + [Start(id, wl)];
    assert after[..|run|] == run;
    if TakenNow(after, p) && !Grants(wl, p) {
      var other :| other in Live(after) && Grants(Live(after)[other], p);
      assert other in Live(run) && Grants(Live(run)[other], p);
    }
  }

  /** Event `j` is a leave of a target that shares a port of the root target's whitelist with another live target. */
  ghost predicate SharedLeave(pf: Platform, run: seq<Event>, j: nat, p: Port)
    requires j < |run|
  {
    run[j].Leave? && run[j].id in Live(run[..j]) && Grants(Live(run[..j])[run[j].id], p) && Grants(pf.root, p)
    && TakenByOther(run[..j], run[j].id, p)
  }

  ghost predicate EverLeaks(pf: Platform, run: seq<Event>, p: Port) {
    exists k :: 0 <= k <= |run| && Leaks(pf, run[..k], p)
  }

  lemma SharedLeaveLeaks(pf: Platform, run: seq<Event>, j: nat, p: Port)
    requires j < |run| && SharedLeave(pf, run, j, p)
    ensures Leaks(pf, run[..j + 1], p)
  {
    assert run[..j + 1] == run[..j] + [run[j]];
    assert run[..j + 1][..j] == run[..j];
    LeaveTaken(run[..j], run[j].id, p);
  }

  lemma {:induction false} LeakHasCause(pf: Platform, run: seq<Event>, k: nat, p: Port)
    requires LegalRun(run) && k <= |run| && Leaks(pf, run[..k], p)
    ensures exists j :: 0 <= j < k && SharedLeave(pf, run, j, p)
    decreases k
  {
    if k > 0 && Leaks(pf, run[..k - 1], p) {
      LeakHasCause(pf, run, k - 1, p);
    } else if k > 0 {
      assert run[..k] == run[..k - 1] + [run[k - 1]];
      LegalPrefix(run, k);
      match run[k - 1] {
        case Start(id, wl) => StartNeverLeaks(pf, run[..k - 1], id, wl, p);
        case Leave(id) => LeaveLeaksIff(pf, run[..k - 1], id, p);
      }
      assert SharedLeave(pf, run, k - 1, p);
    }
  }

  lemma {:induction false} LegalPrefix(run: seq<Event>, k: nat)
    requires LegalRun(run) && 0 < k <= |run|
    ensures match run[k - 1]
      case Start(id, _) => id !in Live(run[..k - 1])
      case Leave(id) => id in Live(run[..k - 1])
    decreases |run|
  {
    if k < |run| {
      LegalPrefix(run[..|run| - 1], k);
      assert run[..|run| - 1][..k - 1] == run[..k - 1];
    }
  }

  /**
   A run leaks a live target's port to the root target at some point if and only if some target leaves while
   another live one shares a port with it that the root target's whitelist grants too.
   */
  lemma RunLeaksIff(pf: Platform, run: seq<Event>, p: Port)
    requires LegalRun(run)
    ensures EverLeaks(pf, run, p) <==> exists j :: 0 <= j < |run| && SharedLeave(pf, run, j, p)
  {
    if EverLeaks(pf, run, p) {
      var k :| 0 <= k <= |run| && Leaks(pf, run[..k], p);
      LeakHasCause(pf, run, k, p);
    }
    if j :| 0 <= j < |run| && SharedLeave(pf, run, j, p) {
      SharedLeaveLeaks(pf, run, j, p);
    }
  }

  /** No target whose whitelist grants the port has started since event `j`. */
  predicate NotTakenSince(run: seq<Event>, j: nat, p: Port) {
    forall i :: j <= i < |run| ==> !(run[i].Start? && Grants(run[i].whitelist, p))
  }

  /** Event `j` gave the port back, and no target has taken it since. */
  predicate GivesBack(run: seq<Event>, j: nat, p: Port) {
    j < |run| && run[j].Leave? && run[j].id in Live(run[..j]) && Grants(Live(run[..j])[run[j].id], p)
    && NotTakenSince(run, j, p)
  }

  ghost predicate GivenBack(run: seq<Event>, p: Port) {
    exists j :: 0 <= j < |run| && GivesBack(run, j, p)
  }

  lemma GivesBackStep(run: seq<Event>, j: nat, p: Port)
    requires j < |run| - 1
    ensures GivesBack(run, j, p)
            <==> GivesBack(run[..|run| - 1], j, p) && !(run[|run| - 1].Start? && Grants(run[|run| - 1].whitelist, p))
  {
    var n := |run| - 1;
    assert run[..n][..j] == run[..j];
    assert NotTakenSince(run, j, p) <==> NotTakenSince(run[..n], j, p) && !(run[n].Start? && Grants(run[n].whitelist, p)) by {
      assert forall i :: j <= i < n ==> run[..n][i] == run[i];
    }
  }

  lemma GivenBackStep(run: seq<Event>, p: Port)
    requires run != []
    ensures var prefix := run[..|run| - 1];
      GivenBack(run, p) <==>
        match run[|run| - 1]
        case Start(_, wl) => GivenBack(prefix, p) && !Grants(wl, p)
        case Leave(id) => GivenBack(prefix, p) || (id in Live(prefix) && Grants(Live(prefix)[id], p))
  {
    var n := |run| - 1;
    forall j | 0 <= j < n
      ensures GivesBack(run, j, p) <==> GivesBack(run[..n], j, p) && !(run[n].Start? && Grants(run[n].whitelist, p))
    {
      GivesBackStep(run, j, p);
    }
    assert GivesBack(run, n, p)
      <==> run[n].Leave? && run[n].id in Live(run[..n]) && Grants(Live(run[..n])[run[n].id], p);
  }

  /** The root target's access after any run, whether or not whitelists overlap. */
  lemma {:induction false} RootAccessAnyRun(pf: Platform, run: seq<Event>, p: Port)
    ensures RootAllowed(pf, run, p)
            <==> (!EverTaken(run, p) && InitiallyAllowed(pf.root, pf.pm, p)) || (GivenBack(run, p) && Grants(pf.root, p))
  {
    if run != [] {
      RootAccessAnyRun(pf, run[..|run| - 1], p);
      EverTakenStep(run, p);
      GivenBackStep(run, p);
    }
  }

  /**
   At the end of a run, with any whitelists, the root target has a live target's port if and only if its own
   whitelist grants the port and some target has given it back with none taking it since.
   */
  lemma LeaksIff(pf: Platform, run: seq<Event>, p: Port)
    requires TakenNow(run, p)
    ensures Leaks(pf, run, p) <==> GivenBack(run, p) && Grants(pf.root, p)
  {
    RootAccessAnyRun(pf, run, p);
    LiveWasStarted(run, p);
  }

  /** The smallest run that leaks: when one of two targets with a common port leaves, the root target gets the port back. */
  lemma SharedPortLeaks(pf: Platform, a: Whitelist, b: Whitelist, p: Port)
    requires Grants(pf.root, p) && Grants(a, p) && Grants(b, p)
    ensures var run := [Start(1, a), Start(2, b), Leave(2)];
      RootAllowed(pf, run, p) && TakenNow(run, p)
  {
    var run := [Start(1, a), Start(2, b), Leave(2)];
    assert run[..2] == [Start(1, a), Start(2, b)] && run[..2][..1] == [Start(1, a)];
    assert Live(run[..2][..1]) == map[1 := a];
    assert Live(run[..2]) == map[1 := a, 2 := b];
    assert Live(run) == map[1 := a];
    assert 1 in Live(run) && Grants(Live(run)[1], p);
  }
}
