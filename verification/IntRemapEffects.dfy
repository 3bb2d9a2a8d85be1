/**
 What the operations on the interrupt remapping table achieve when they run to their end, in any interleaving
 with mappings of other interrupts and with hardware that reads entries at any time.
 */
module IntRemapEffects {
  import opened Common
  import opened IntRemapTable
  import opened IntRemapSafety

  lemma ExecSnoc(cfg: Config, s0: State, run: seq<Event>, e: Event)
    ensures Exec(cfg, s0, run + [e])
            == match Exec(cfg, s0, run)
               case None => None
               case Some(s) => if Enabled(cfg, s, e) then Some(After(cfg, s, e)) else None
  {
    assert (run + [e])[..|run|] == run;
  }

  // ---- Mappings ----

  /** None of the accesses writes or flushes the entry. */
  predicate Avoids(todo: seq<Access>, i: nat) {
    forall a :: a in todo ==> !((a.Lo? || a.Hi? || a.Mark? || a.Sid? || a.Flush?) && a.index == i)
  }

  /** No CPU but `c` is about to access the entry. */
  ghost predicate OthersAvoid(s: State, c: nat, i: nat) {
    forall d :: 0 <= d < |s.maps| && d != c ==> Avoids(s.maps[d], i)
  }

  /** Not another mapping on CPU `c`, nor of interrupt `v` of device `d` anywhere, nor a reservation or release. */
  predicate LeavesAlone(e: Event, c: nat, d: Device, v: nat) {
    match e
    case Reserve(_, _) => false
    case Free(_) => false
    case Map(cpu, device, vector, _, _) => cpu != c && (device, vector) != (d, v)
    case _ => true
  }

  lemma {:induction false} FlushesIndex(k: nat, units: nat, index: nat, a: Access)
    requires a in Flushes(k, units, index)
    ensures a.Flush? && a.index == index
    decreases units - k
  {
    if k < units && a != Flush(k, index) {
      FlushesIndex(k + 1, units, index, a);
    }
  }

  lemma UpdateIndex(units: nat, index: nat, content: Irte, i: nat)
    requires i != index
    ensures Avoids(UpdateAccesses(units, index, content), i)
  {
    forall a | a in UpdateAccesses(units, index, content)
      ensures !((a.Lo? || a.Hi? || a.Mark? || a.Sid? || a.Flush?) && a.index == i)
    {
      if a in Flushes(0, units, index) {
        FlushesIndex(0, units, index, a);
      }
    }
  }

  /** Mappings of different interrupts stay out of each other's way. */
  lemma OtherInterruptAvoids(cfg: Config, t: Table, regions: Regions, d: Device, v: nat, i: nat, e: Event)
    requires TableInv(t, cfg.limit, regions) && MapIndex(t, cfg.limit, d, v) == Ok(i)
    requires e.Map? && (e.device, e.vector) != (d, v)
    ensures Avoids(MapAccesses(t, cfg.limit, cfg.units, cfg.x2apic, e.device, e.vector, e.msg, e.filtered), i)
  {
    var plan := MapPlan(t, cfg.limit, cfg.x2apic, e.device, e.vector, e.msg, e.filtered);
    if plan.Ok? {
      DistinctHandles(t, cfg.limit, regions, d, v, e.device, e.vector);
      UpdateIndex(cfg.units, plan.value.0, plan.value.1, i);
    }
  }

  lemma {:induction false} PlaySameEntry(t: Table, u: Table, todo: seq<Access>, i: nat)
    requires |t| == |u| && i < |t| && t[i] == u[i]
    ensures Play(t, todo)[i] == Play(u, todo)[i]
    decreases |todo|
  {
    if todo != [] {
      PlaySameEntry(Apply(t, todo[0]), Apply(u, todo[0]), todo[1..], i);
    }
  }

  lemma AvoidedEntry(t: Table, todo: seq<Access>, i: nat)
    requires todo != [] && Avoids(todo, i) && i < |t|
    ensures Apply(t, todo[0])[i] == t[i] && Avoids(todo[1..], i)
  {
  }

  /** Where the mapping of CPU `c` stands: what entry `i` will be when it is done, and who can still disturb it. */
  ghost predicate Underway(s: State, c: nat, i: nat, final: Irte) {
    && s.config == [] && c < |s.maps| && i < |s.t| && OthersAvoid(s, c, i)
    && Play(s.t, s.maps[c])[i] == final
  }

  lemma UnderwayStep(cfg: Config, s: State, e: Event, c: nat, d: Device, v: nat, i: nat, final: Irte)
    requires TableInv(s.t, cfg.limit, s.regions) && MapIndex(s.t, cfg.limit, d, v) == Ok(i)
    requires Enabled(cfg, s, e) && LeavesAlone(e, c, d, v) && Underway(s, c, i, final)
    ensures Underway(After(cfg, s, e), c, i, final)
  {
    var s' := After(cfg, s, e);
    match e
    case Map(b, _, _, _, _) =>
      OtherInterruptAvoids(cfg, s.t, s.regions, d, v, i, e);
    case MapStep(b) =>
      if b != c {
        AvoidedEntry(s.t, s.maps[b], i);
        PlaySameEntry(s.t, s'.t, s.maps[c], i);
      }
    case _ =>
  }

  lemma KeepsMapIndex(cfg: Config, t: Table, t': Table, regions: Regions, d: Device, v: nat)
    requires TableInv(t, cfg.limit, regions) && TableInv(t', cfg.limit, regions)
    ensures MapIndex(t', cfg.limit, d, v) == MapIndex(t, cfg.limit, d, v)
  {
    MapIndexExact(t, cfg.limit, regions, d, v);
    MapIndexExact(t', cfg.limit, regions, d, v);
  }

  lemma {:induction false} StaysUnderway(cfg: Config, s0: State, run: seq<Event>, more: seq<Event>, c: nat, d: Device, v: nat,
                                         i: nat, final: Irte)
    requires Initial(cfg, s0) && Exec(cfg, s0, run).Some? && Exec(cfg, s0, run + more).Some?
    requires forall k :: 0 <= k < |more| ==> LeavesAlone(more[k], c, d, v)
    requires var s := Exec(cfg, s0, run).value;
      cfg.limit <= |s.t| && MapIndex(s.t, cfg.limit, d, v) == Ok(i) && Underway(s, c, i, final)
    ensures var s, s' := Exec(cfg, s0, run).value, Exec(cfg, s0, run + more).value;
      && s'.regions == s.regions && cfg.limit <= |s'.t|
      && MapIndex(s'.t, cfg.limit, d, v) == Ok(i) && Underway(s', c, i, final)
    decreases |more|
  {
    if more == [] {
      assert run + more == run;
    } else {
      var prefix, e := more[..|more| - 1], more[|more| - 1];
      assert run + more == (run + prefix) + [e];
      ExecSnoc(cfg, s0, run + prefix, e);
      StaysUnderway(cfg, s0, run, prefix, c, d, v, i, final);
      var u := Exec(cfg, s0, run + prefix).value;
      ReachableInv(cfg, s0, run + prefix);
      ReachableInv(cfg, s0, run + more);
      UnderwayStep(cfg, u, e, c, d, v, i, final);
      KeepsMapIndex(cfg, u.t, After(cfg, u, e).t, u.regions, d, v);
    }
  }

  /** A present entry for the message: its fields, the same owner, and full verification. */
  predicate HoldsMessage(e: Irte, was: Irte, x2apic: bool, m: Message) {
    && e.lo.p && e.lo.vector == m.vector && e.lo.mode == m.mode && e.lo.destLogical == m.destLogical
    && e.lo.level == m.level && e.lo.redirHint == m.redirHint
    && e.lo.destination == (if x2apic then m.destination else m.destination << 8)
    && e.lo.fpd == was.lo.fpd && e.lo.isAssigned && e.hi == IrteHi(was.hi.sid, 0, 1)
  }

  /** What a mapping is to leave of its entry: the filtered message, the entry disabled, or nothing changed. */
  predicate IsMapped(e: Irte, was: Irte, x2apic: bool, msg: Message, filtered: Option<Message>) {
    if !msg.valid then e == was.(lo := was.lo.(p := false))
    else if msg.mode in {0, 1} && filtered.Some? then HoldsMessage(e, was, x2apic, filtered.value)
    else e == was
  }

  lemma PlannedEntry(cfg: Config, t: Table, d: Device, v: nat, msg: Message, filtered: Option<Message>, i: nat)
    requires cfg.limit <= |t| && MapIndex(t, cfg.limit, d, v) == Ok(i)
    ensures IsMapped(Play(t, MapAccesses(t, cfg.limit, cfg.units, cfg.x2apic, d, v, msg, filtered))[i], t[i], cfg.x2apic,
                     msg, filtered)
  {
    var content := MapContent(t[i], cfg.x2apic, msg, filtered);
    if content.Ok? {
      PlayUpdate(t, cfg.units, i, content.value);
    }
  }

  /** CPU `c` is not in the middle of a mapping. */
  predicate AtRest(s: State, c: nat) {
    c < |s.maps| && s.maps[c] == []
  }

  /** An entry that nobody is about to access is cached as it is, as far as it is present. */
  lemma SettledCaches(cfg: Config, s0: State, run: seq<Event>, s: State, c: nat, i: nat)
    requires Initial(cfg, s0) && Exec(cfg, s0, run) == Some(s) && s.config == [] && AtRest(s, c) && OthersAvoid(s, c, i) && i < |s.t|
    ensures forall u :: 0 <= u < |s.caches| && i in s.caches[u] ==> Agree(s.caches[u][i], s.t[i])
  {
    ReachableInv(cfg, s0, run);
    forall u | 0 <= u < |s.caches| && i in s.caches[u] ensures Agree(s.caches[u][i], s.t[i]) {
      assert CachedOk(s, u, i);
    }
  }

  /** A mapping has just begun: what its entry is going to be. */
  lemma BeginsMapping(cfg: Config, s0: State, run: seq<Event>, s: State, c: nat, d: Device, v: nat, msg: Message,
                      filtered: Option<Message>, i: nat)
    returns (final: Irte)
    requires Initial(cfg, s0) && Exec(cfg, s0, run) == Some(s) && s.config == [] && AtRest(s, c)
    requires d in s.regions && v < s.regions[d].length && i == s.regions[d].start + v && OthersAvoid(s, c, i)
    ensures Enabled(cfg, s, Map(c, d, v, msg, filtered)) && MapIndex(s.t, cfg.limit, d, v) == Ok(i) && i < |s.t|
    ensures var s1 := After(cfg, s, Map(c, d, v, msg, filtered));
      Underway(s1, c, i, final) && s1.t == s.t && s1.regions == s.regions
    ensures IsMapped(final, s.t[i], cfg.x2apic, msg, filtered)
  {
    ReachableTableInv(cfg, s0, run);
    MapIndexExact(s.t, cfg.limit, s.regions, d, v);
    assert MapIndex(s.t, cfg.limit, d, v) == Ok(i);
    PlannedEntry(cfg, s.t, d, v, msg, filtered, i);
    final := Play(s.t, MapAccesses(s.t, cfg.limit, cfg.units, cfg.x2apic, d, v, msg, filtered))[i];
  }

  /**
   A mapping takes effect: once CPU `c` has made its accesses, in any interleaving with mappings of other
   interrupts on other CPUs and with reads by the hardware, the entry of the interrupt is as the message wants it,
   and no unit caches it otherwise while either is present.
   */
  lemma MapTakesEffect(cfg: Config, s0: State, run: seq<Event>, c: nat, d: Device, v: nat, msg: Message,
                       filtered: Option<Message>, more: seq<Event>, s: State, s': State)
    requires Initial(cfg, s0) && Exec(cfg, s0, run) == Some(s)
    requires s.config == [] && AtRest(s, c)
    requires d in s.regions && v < s.regions[d].length && OthersAvoid(s, c, s.regions[d].start + v)
    requires forall k :: 0 <= k < |more| ==> LeavesAlone(more[k], c, d, v)
    requires Exec(cfg, s0, run + [Map(c, d, v, msg, filtered)] + more) == Some(s') && AtRest(s', c)
    ensures s'.regions == s.regions && s'.config == []
    ensures var i := s.regions[d].start + v;
      && i < |s.t| && i < |s'.t| && IsMapped(s'.t[i], s.t[i], cfg.x2apic, msg, filtered)
      && forall u :: 0 <= u < |s'.caches| && i in s'.caches[u] ==> Agree(s'.caches[u][i], s'.t[i])
  {
    var i, e := s.regions[d].start + v, Map(c, d, v, msg, filtered);
    var final := BeginsMapping(cfg, s0, run, s, c, d, v, msg, filtered, i);
    ExecSnoc(cfg, s0, run, e);
    StaysUnderway(cfg, s0, run + [e], more, c, d, v, i, final);
    SettledCaches(cfg, s0, run + [e] + more, s', c, i);
  }

  /** A run that is possible has possible beginnings. */
  lemma {:induction false} PrefixExec(cfg: Config, s0: State, run: seq<Event>, more: seq<Event>)
    requires Exec(cfg, s0, run + more).Some?
    ensures Exec(cfg, s0, run).Some?
    decreases |more|
  {
    if more == [] {
      assert run + more == run;
    } else {
      assert (run + more)[..|run + more| - 1] == run + more[..|more| - 1];
      PrefixExec(cfg, s0, run, more[..|more| - 1]);
    }
  }

  function MapSteps(c: nat, n: nat): (steps: seq<Event>)
    ensures forall k, d, v :: 0 <= k < |steps| ==> LeavesAlone(steps[k], c, d, v)
  {
    seq(n, _ => MapStep(c))
  }

  /** A CPU that is left to itself brings its mapping to the end. */
  lemma {:induction false} MapFinishes(cfg: Config, s0: State, run: seq<Event>, c: nat, s: State)
    requires Exec(cfg, s0, run) == Some(s) && cfg.limit <= |s.t| && c < |s.maps|
    ensures var r := Exec(cfg, s0, run + MapSteps(c, |s.maps[c]|)); r.Some? && AtRest(r.value, c)
    decreases |s.maps[c]|
  {
    var n := |s.maps[c]|;
    if n == 0 {
      assert run + MapSteps(c, n) == run;
    } else {
      ExecSnoc(cfg, s0, run, MapStep(c));
      assert run + [MapStep(c)] + MapSteps(c, n - 1) == run + MapSteps(c, n);
      MapFinishes(cfg, s0, run + [MapStep(c)], c, After(cfg, s, MapStep(c)));
    }
  }

  lemma {:induction false} FlushCount(k: nat, units: nat, index: nat)
    requires k <= units
    ensures |Flushes(k, units, index)| == units - k
    decreases units - k
  {
    if k < units {
      FlushCount(k + 1, units, index);
    }
  }

  /**
   A mapping can begin on any CPU at rest outside of reservations and releases, whatever the other CPUs are
   doing, and is over after at most two accesses and one flush for each unit.
   */
  lemma MapCompletes(cfg: Config, s0: State, run: seq<Event>, c: nat, d: Device, v: nat, msg: Message,
                     filtered: Option<Message>, s: State)
    requires Initial(cfg, s0) && Exec(cfg, s0, run) == Some(s) && s.config == [] && AtRest(s, c)
    ensures exists n: nat ::
      && n <= 2 + cfg.units
      && Exec(cfg, s0, run + [Map(c, d, v, msg, filtered)] + MapSteps(c, n)).Some?
      && AtRest(Exec(cfg, s0, run + [Map(c, d, v, msg, filtered)] + MapSteps(c, n)).value, c)
  {
    var e := Map(c, d, v, msg, filtered);
    ReachableInv(cfg, s0, run);
    ExecSnoc(cfg, s0, run, e);
    var s1 := After(cfg, s, e);
    MapFinishes(cfg, s0, run + [e], c, s1);
    var plan := MapPlan(s.t, cfg.limit, cfg.x2apic, d, v, msg, filtered);
    if plan.Ok? {
      FlushCount(0, cfg.units, plan.value.0);
    }
    assert |s1.maps[c]| <= 2 + cfg.units;
  }

  // ---- Reservations and releases ----

  /** The accesses of the reservation or release, and reads by the hardware: nothing else can happen meanwhile. */
  predicate OnlyConfig(more: seq<Event>) {
    forall k :: 0 <= k < |more| ==> more[k].ConfigStep? || more[k].Load?
  }

  function Remaining(regions: Regions, todo: seq<Access>): Regions {
    if todo == [] then regions else Remaining(ForgetRegion(regions, todo[0]), todo[1..])
  }

  lemma {:induction false} ConfigPlays(cfg: Config, s0: State, run: seq<Event>, more: seq<Event>, s: State, s': State)
    requires Exec(cfg, s0, run) == Some(s) && OnlyConfig(more) && Exec(cfg, s0, run + more) == Some(s')
    ensures Play(s'.t, s'.config) == Play(s.t, s.config) && Remaining(s'.regions, s'.config) == Remaining(s.regions, s.config)
    decreases |more|
  {
    if more == [] {
      assert run + more == run;
    } else {
      var prefix, e := more[..|more| - 1], more[|more| - 1];
      assert run + more == (run + prefix) + [e];
      ExecSnoc(cfg, s0, run + prefix, e);
      ConfigPlays(cfg, s0, run, prefix, s, Exec(cfg, s0, run + prefix).value);
    }
  }

  lemma {:induction false} RemainingOfReserve(regions: Regions, n: nat, length: nat, d: Device)
    ensures Remaining(regions, ReserveAccesses(n, length, d)) == regions
    decreases length
  {
    if length > 0 {
      var rest := ReserveAccesses(n + 1, length - 1, d);
      var todo := ReserveAccesses(n, length, d);
      assert todo == [Mark(n), Sid(n, d)] + rest;
      assert todo[1..] == [Sid(n, d)] + rest && todo[1..][1..] == rest;
      RemainingOfReserve(regions, n + 1, length - 1, d);
    }
  }

  predicate NoForget(todo: seq<Access>) {
    forall a :: a in todo ==> !a.Forget?
  }

  lemma {:induction false} RemainingOfFree(regions: Regions, todo: seq<Access>, d: Device)
    requires NoForget(todo)
    ensures Remaining(regions, todo + [Forget(d)]) == regions - {d}
    decreases |todo|
  {
    if todo == [] {
      assert (todo + [Forget(d)])[1..] == [];
    } else {
      assert (todo + [Forget(d)])[1..] == todo[1..] + [Forget(d)];
      RemainingOfFree(regions, todo[1..], d);
    }
  }

  lemma {:induction false} FreeForgetsNothing(units: nat, n: nat, length: nat)
    ensures NoForget(FreeAccesses(units, n, length))
    decreases length
  {
    if length > 0 {
      FreeForgetsNothing(units, n + 1, length - 1);
      forall a | a in Flushes(0, units, n) ensures !a.Forget? {
        FlushesIndex(0, units, n, a);
      }
    }
  }

  /**
   A reservation takes effect: a device that has no region gets the first free window of the length, if there is
   one, and every other entry stays as it is; otherwise nothing changes.
   */
  lemma ReserveTakesEffect(cfg: Config, s0: State, run: seq<Event>, d: Device, length: nat, more: seq<Event>, s: State, s': State)
    requires Initial(cfg, s0) && Exec(cfg, s0, run) == Some(s) && s.config == [] && NoMaps(s)
    requires OnlyConfig(more) && Exec(cfg, s0, run + [Reserve(d, length)] + more) == Some(s') && s'.config == []
    ensures cfg.limit <= |s.t| == |s'.t|
    ensures d in s.regions || length == 0 || FirstFit(s.t, cfg.limit, length).None? ==> s'.t == s.t && s'.regions == s.regions
    ensures d !in s.regions && length > 0 && FirstFit(s.t, cfg.limit, length).Some? ==>
      var start := FirstFit(s.t, cfg.limit, length).value;
      && s'.regions == s.regions[d := Region(start, length)]
      && forall n :: 0 <= n < |s.t| ==>
           s'.t[n] == if Covers(Region(start, length), n) then Irte(s.t[n].lo.(isAssigned := true), s.t[n].hi.(sid := d))
                      else s.t[n]
  {
    var e := Reserve(d, length);
    ReachableInv(cfg, s0, run);
    FindIsRegionStart(s.t, cfg.limit, s.regions, d);
    PrefixExec(cfg, s0, run + [e], more);
    ExecSnoc(cfg, s0, run, e);
    var s1 := After(cfg, s, e);
    ConfigPlays(cfg, s0, run + [e], more, s1, s');
    if d !in s.regions && length > 0 && FirstFit(s.t, cfg.limit, length).Some? {
      var start := FirstFit(s.t, cfg.limit, length).value;
      PlayReserve(s.t, start, length, d);
      RemainingOfReserve(s1.regions, start, length, d);
    }
  }

  /**
   A release takes effect: the device's region is gone, its entries are cleared and nobody's, every other entry
   stays as it is, and no unit caches a present entry of the region.
   */
  lemma FreeTakesEffect(cfg: Config, s0: State, run: seq<Event>, d: Device, more: seq<Event>, s: State, s': State)
    requires Initial(cfg, s0) && Exec(cfg, s0, run) == Some(s) && s.config == [] && NoMaps(s) && d in s.regions
    requires OnlyConfig(more) && Exec(cfg, s0, run + [Free(d)] + more) == Some(s') && s'.config == []
    ensures s'.regions == s.regions - {d} && |s'.t| == |s.t|
    ensures forall n :: 0 <= n < |s.t| ==>
      s'.t[n] == if Covers(s.regions[d], n) then s.t[n].(lo := IrteLo(false, false, false, false, false, 0, false, 0, 0)) else s.t[n]
    ensures forall u, n :: 0 <= u < |s'.caches| && Covers(s.regions[d], n) && n in s'.caches[u] ==> !s'.caches[u][n].lo.p
  {
    var e, r := Free(d), s.regions[d];
    ReachableInv(cfg, s0, run);
    FindIsRegionStart(s.t, cfg.limit, s.regions, d);
    assert RegionOk(s.t, cfg.limit, s.regions, d);
    PrefixExec(cfg, s0, run + [e], more);
    ExecSnoc(cfg, s0, run, e);
    var s1 := After(cfg, s, e);
    ConfigPlays(cfg, s0, run + [e], more, s1, s');
    var free := FreeAccesses(cfg.units, r.start, r.length);
    PlayConcat(s.t, free, [Forget(d)]);
    PlayFree(s.t, cfg.units, r.start, r.length);
    FreeForgetsNothing(cfg.units, r.start, r.length);
    RemainingOfFree(s.regions, free, d);
    assert s'.t == Play(s.t, free);
    ReachableInv(cfg, s0, run + [e] + more);
    ConfigKeepsNoMaps(cfg, s0, run + [e], more, s1, s');
    forall u, n | 0 <= u < |s'.caches| && Covers(r, n) && n in s'.caches[u] ensures !s'.caches[u][n].lo.p {
      AbsentCaches(cfg, s', u, n);
    }
  }

  lemma AbsentCaches(cfg: Config, s: State, u: nat, n: nat)
    requires Inv(cfg, s) && s.config == [] && NoMaps(s) && n < |s.t| && !s.t[n].lo.p
    requires u < |s.caches| && n in s.caches[u]
    ensures !s.caches[u][n].lo.p
  {
    assert CachedOk(s, u, n);
  }

  lemma {:induction false} ConfigKeepsNoMaps(cfg: Config, s0: State, run: seq<Event>, more: seq<Event>, s: State, s': State)
    requires Exec(cfg, s0, run) == Some(s) && OnlyConfig(more) && Exec(cfg, s0, run + more) == Some(s') && NoMaps(s)
    ensures NoMaps(s')
    decreases |more|
  {
    if more == [] {
      assert run + more == run;
    } else {
      var prefix, e := more[..|more| - 1], more[|more| - 1];
      assert run + more == (run + prefix) + [e];
      ExecSnoc(cfg, s0, run + prefix, e);
      ConfigKeepsNoMaps(cfg, s0, run, prefix, s, Exec(cfg, s0, run + prefix).value);
    }
  }

  function ConfigSteps(n: nat): seq<Event> {
    seq(n, _ => ConfigStep)
  }

  lemma {:induction false} ConfigFinishes(cfg: Config, s0: State, run: seq<Event>, s: State)
    requires Exec(cfg, s0, run) == Some(s) && cfg.limit <= |s.t|
    ensures var r := Exec(cfg, s0, run + ConfigSteps(|s.config|)); r.Some? && r.value.config == []
    decreases |s.config|
  {
    var n := |s.config|;
    if n == 0 {
      assert run + ConfigSteps(n) == run;
    } else {
      ExecSnoc(cfg, s0, run, ConfigStep);
      assert run + [ConfigStep] + ConfigSteps(n - 1) == run + ConfigSteps(n);
      ConfigFinishes(cfg, s0, run + [ConfigStep], After(cfg, s, ConfigStep));
    }
  }

  /** A reservation or release can begin while no other operation is under way, and comes to its end. */
  lemma ConfigCompletes(cfg: Config, s0: State, run: seq<Event>, e: Event, s: State)
    requires Initial(cfg, s0) && Exec(cfg, s0, run) == Some(s) && s.config == [] && NoMaps(s) && (e.Reserve? || e.Free?)
    ensures exists n: nat :: OnlyConfig(ConfigSteps(n)) && Exec(cfg, s0, run + [e] + ConfigSteps(n)).Some?
                             && Exec(cfg, s0, run + [e] + ConfigSteps(n)).value.config == []
  {
    ReachableInv(cfg, s0, run);
    ExecSnoc(cfg, s0, run, e);
    var s1 := After(cfg, s, e);
    ConfigFinishes(cfg, s0, run + [e], s1);
    assert OnlyConfig(ConfigSteps(|s1.config|));
  }

  // ---- The hardware's caches ----

  /** The access that an event makes, if it makes one. */
  function Made(s: State, e: Event): Option<Access> {
    if e.ConfigStep? && s.config != [] then Some(s.config[0])
    else if e.MapStep? && e.cpu < |s.maps| && s.maps[e.cpu] != [] then Some(s.maps[e.cpu][0])
    else None
  }

  /** A unit may read any entry at any time; it keeps what it read until it is told to drop it, or reads again. */
  lemma CacheKeepsUntilFlushed(cfg: Config, s: State, e: Event, u: nat, n: nat)
    requires Enabled(cfg, s, e) && u < |s.caches| && n < |s.t|
    ensures Enabled(cfg, s, Load(u, n))
    ensures var before, now := s.caches[u], After(cfg, s, e).caches[u];
      && (n in now <==> e == Load(u, n) || (n in before && Made(s, e) != Some(Flush(u, n))))
      && (n in now ==> now[n] == if e == Load(u, n) then s.t[n] else before[n])
  {
  }
}
