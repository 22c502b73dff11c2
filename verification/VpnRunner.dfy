/**
 The route rebuild runner of src/services/mobileVpn.ts (`connectWithVpn`): a
 single-flight loop guarded by `rebuildBusy` and `rebuildQueued`, interleaved with
 mesh route events at every await.  The code between two awaits is one step; an
 event that is not enabled changes nothing.
 */
module VpnRunner {
  import opened Base

  type Routes = set<string>

  /** One activation of `rebuildVpn` suspended at an await. */
  datatype Task = Stopping(desired: Routes) | Starting(desired: Routes)

  /** How far `connectWithVpn` itself has got. */
  datatype Phase =
    | Connecting      // listener registered, api.connectSpace running
    | FirstStart      // the initial startVpn is in flight
    | Polling         // VPN up, waiting before the replay
    | Live            // the replay step has run
    | Closed          // connecting failed, the listener is removed

  datatype Flags = Flags(vpnStarted: bool, busy: bool, queued: bool, applied: Option<Routes>)

  /** `tasks` holds every suspended activation of rebuildVpn; `cycles` counts stop/start cycles begun. */
  datatype Runner = Runner(mesh: Routes, flags: Flags, tasks: seq<Task>, phase: Phase, cycles: nat)

  /** The node's own subnet and the physical LAN subnets, fixed when the connection starts. */
  datatype Network = Network(subnet: string, local: seq<string>)

  datatype Event =
    | Mesh(routes: seq<string>)                 // mesh_routes_updated for this space
    | Connected(ok: bool)                       // api.connectSpace settles
    | FirstStarted(ok: bool)                    // the initial startVpn settles
    | Replay(current: Option<seq<string>>)      // getMeshRoutes settles (None: it failed)
    | StopDone(task: nat)                       // stopVpn of that task settles
    | StartDone(task: nat, ok: bool)            // startVpn of that task settles

  function ToSet(s: seq<string>): Routes {
    set x | x in s
  }

  // ---- desiredRoutes and the set comparisons ----

  /** What the VPN should route: own subnet and mesh routes, never a local subnet. */
  function Desired(net: Network, mesh: Routes): Routes {
    {net.subnet} + mesh - ToSet(net.local)
  }

  method DesiredRoutes(net: Network, mesh: Routes) returns (desired: Routes)
    ensures desired == Desired(net, mesh)
  {
    desired := {net.subnet};
    var todo := mesh;
    while todo != {}
      invariant todo <= mesh && desired == {net.subnet} + (mesh - todo)
      decreases |todo|
    {
      var r :| r in todo;
      desired := desired + {r};
      todo := todo - {r};
    }
    for i := 0 to |net.local|
      invariant desired == {net.subnet} + mesh - ToSet(net.local[..i])
    {
      desired := desired - {net.local[i]};
      assert net.local[..i + 1] == net.local[..i] + [net.local[i]];
    }
    assert net.local[..|net.local|] == net.local;
  }

  predicate SetsEqual(a: Routes, b: Routes) {
    |a| == |b| && forall x :: x in a ==> x in b
  }

  predicate Changed(next: Routes, current: Routes) {
    |next| != |current| || exists x :: x in next && x !in current
  }

  /** Comparing sizes and one inclusion decides equality, both ways round. */
  lemma ComparisonsDecideEquality(a: Routes, b: Routes)
    ensures SetsEqual(a, b) <==> a == b
    ensures Changed(a, b) <==> a != b
  {
    if |a| == |b| && a <= b {
      assert |b - a| == |b| - |a| by {
        assert b == a + (b - a);
      }
      assert b - a == {};
    }
  }

  // ---- Steps ----

  /** One turn of the `while (true)` loop up to its first await, or the end of the activation. */
  function Turn(net: Network, v: Runner): Runner {
    var f := v.flags.(queued := false);
    var desired := Desired(net, v.mesh);
    if f.applied.Some? && SetsEqual(f.applied.value, desired) then v.(flags := f.(busy := false))
    else v.(flags := f, tasks := v.tasks + [Stopping(desired)], cycles := v.cycles + 1)
  }

  /** A call of rebuildVpn up to its first await. */
  function Rebuild(net: Network, v: Runner): Runner {
    if !v.flags.vpnStarted then v
    else if v.flags.busy then v.(flags := v.flags.(queued := true))
    else Turn(net, v.(flags := v.flags.(busy := true)))
  }

  function Without(tasks: seq<Task>, i: nat): seq<Task>
    requires i < |tasks|
  {
    tasks[..i] + tasks[i + 1..]
  }

  function OnStarted(net: Network, v: Runner, i: nat, ok: bool): Runner
    requires i < |v.tasks| && v.tasks[i].Starting?
  {
    var rest := v.(tasks := Without(v.tasks, i));
    if !ok then rest.(flags := v.flags.(applied := None, busy := false))
    else
      var f := v.flags.(applied := Some(v.tasks[i].desired));
      if f.queued then Turn(net, rest.(flags := f)) else rest.(flags := f.(busy := false))
  }

  function Step(net: Network, v: Runner, e: Event): Runner {
    match e
    case Mesh(routes) =>
      if !v.phase.Closed? && Changed(ToSet(routes), v.mesh) then Rebuild(net, v.(mesh := ToSet(routes))) else v
    case Connected(ok) =>
      if v.phase.Connecting? then v.(phase := if ok then FirstStart else Closed) else v
    case FirstStarted(ok) =>
      if !v.phase.FirstStart? then v
      else if ok then
        v.(phase := Polling, flags := v.flags.(vpnStarted := true, applied := Some({net.subnet})))
      else v.(phase := Closed)
    case Replay(current) =>
      if !v.phase.Polling? then v
      else
        var mesh := if current.Some? && Changed(ToSet(current.value), v.mesh) then ToSet(current.value) else v.mesh;
        Rebuild(net, v.(mesh := mesh, phase := Live))
    case StopDone(i) =>
      if i < |v.tasks| && v.tasks[i].Stopping? then v.(tasks := v.tasks[i := Starting(v.tasks[i].desired)]) else v
    case StartDone(i, ok) =>
      if i < |v.tasks| && v.tasks[i].Starting? then OnStarted(net, v, i, ok) else v
  }

  const INITIAL := Runner({}, Flags(false, false, false, None), [], Connecting, 0)

  function Run(net: Network, v: Runner, events: seq<Event>): Runner {
    if events == [] then v
    else Step(net, Run(net, v, events[..|events| - 1]), events[|events| - 1])
  }

  // ---- Invariant ----

  /** startVpn calls in flight, counting the initial one. */
  function StartsInFlight(v: Runner): nat {
    Count(v.tasks) + if v.phase.FirstStart? then 1 else 0
  }

  function Count(tasks: seq<Task>): nat {
    if tasks == [] then 0 else Count(tasks[1..]) + if tasks[0].Starting? then 1 else 0
  }

  /** `applied` is unset or exactly what is desired now. */
  predicate Converged(net: Network, v: Runner) {
    v.flags.applied.None? || v.flags.applied.value == Desired(net, v.mesh)
  }

  predicate Good(net: Network, v: Runner) {
    && (v.flags.busy <==> v.tasks != []) && |v.tasks| <= 1
    && (v.flags.vpnStarted <==> v.phase.Polling? || v.phase.Live?)
    && (v.tasks != [] ==> v.flags.vpnStarted) && (!v.flags.vpnStarted ==> v.flags.applied.None?)
    && (v.tasks != [] ==> v.flags.queued || v.tasks[0].desired == Desired(net, v.mesh))
    && (v.phase.Live? && v.tasks == [] ==> Converged(net, v))
  }

  /** The loop keeps the invariant; in particular an early return means the routes are right. */
  lemma TurnGood(net: Network, v: Runner)
    requires v.tasks == [] && v.flags.busy && v.flags.vpnStarted && (v.phase.Polling? || v.phase.Live?)
    ensures Good(net, Turn(net, v))
    ensures Turn(net, v).tasks == [] ==> Converged(net, Turn(net, v))
    ensures !Turn(net, v).flags.queued && Turn(net, v).cycles <= v.cycles + 1
  {
    if v.flags.applied.Some? {
      ComparisonsDecideEquality(v.flags.applied.value, Desired(net, v.mesh));
    }
  }

  /** A call of rebuildVpn repairs whatever the new mesh routes broke. */
  lemma RebuildGood(net: Network, v: Runner, mesh: Routes, phase: Phase)
    requires Good(net, v) && (phase == v.phase || (v.phase.Polling? && phase.Live?))
    ensures Good(net, Rebuild(net, v.(mesh := mesh, phase := phase)))
  {
    var w := v.(mesh := mesh, phase := phase);
    if w.flags.vpnStarted && !w.flags.busy {
      TurnGood(net, w.(flags := w.flags.(busy := true)));
    }
  }

  lemma StartDoneGood(net: Network, v: Runner, i: nat, ok: bool)
    requires Good(net, v)
    ensures Good(net, Step(net, v, StartDone(i, ok)))
  {
    if i < |v.tasks| && v.tasks[i].Starting? && ok && v.flags.queued {
      TurnGood(net, v.(tasks := Without(v.tasks, i), flags := v.flags.(applied := Some(v.tasks[i].desired))));
    }
  }

  lemma GoodStep(net: Network, v: Runner, e: Event)
    requires Good(net, v)
    ensures Good(net, Step(net, v, e))
  {
    match e
    case Mesh(routes) => RebuildGood(net, v, ToSet(routes), v.phase);
    case Replay(current) =>
      if v.phase.Polling? {
        var mesh := if current.Some? && Changed(ToSet(current.value), v.mesh) then ToSet(current.value) else v.mesh;
        RebuildGood(net, v, mesh, Live);
      }
    case StartDone(i, ok) => StartDoneGood(net, v, i, ok);
    case Connected(_) =>
    case FirstStarted(_) =>
    case StopDone(_) =>
  }

  lemma {:induction false} GoodRun(net: Network, events: seq<Event>)
    ensures Good(net, Run(net, INITIAL, events))
  {
    if events != [] {
      GoodRun(net, events[..|events| - 1]);
      GoodStep(net, Run(net, INITIAL, events[..|events| - 1]), events[|events| - 1]);
    }
  }

  lemma GoodMeans(net: Network, v: Runner)
    requires Good(net, v)
    ensures StartsInFlight(v) <= 1
    ensures v.phase.Live? && !v.flags.busy ==> Converged(net, v)
  {
    if v.tasks != [] {
      assert v.tasks[1..] == [];
      assert Count(v.tasks[1..]) == 0;
    }
  }

  /** The event completes a startVpn call. */
  predicate Completes(v: Runner, e: Event) {
    || (e.FirstStarted? && v.phase.FirstStart?)
    || (e.StartDone? && e.task < |v.tasks| && v.tasks[e.task].Starting?)
  }

  /** The last startVpn that completed in the run succeeded; false when none has. */
  predicate LastStartOk(net: Network, events: seq<Event>) {
    events != [] &&
    var init, e := events[..|events| - 1], events[|events| - 1];
    if Completes(Run(net, INITIAL, init), e) then e.ok else LastStartOk(net, init)
  }

  lemma AppliedStep(net: Network, v: Runner, e: Event)
    requires Good(net, v)
    ensures Step(net, v, e).flags.applied.Some? <==>
            if Completes(v, e) then e.ok else v.flags.applied.Some?
  {
  }

  /** Routes are applied exactly when the last start succeeded. */
  lemma {:induction false} AppliedIffLastStartOk(net: Network, events: seq<Event>)
    ensures Run(net, INITIAL, events).flags.applied.Some? <==> LastStartOk(net, events)
  {
    if events != [] {
      var init := events[..|events| - 1];
      AppliedIffLastStartOk(net, init);
      GoodRun(net, init);
      AppliedStep(net, Run(net, INITIAL, init), events[|events| - 1]);
    }
  }

  // ---- What the events announced ----

  /** How far the connection has got, by the outcomes of its own calls alone. */
  function PhaseAfter(events: seq<Event>): Phase {
    if events == [] then Connecting
    else
      var phase := PhaseAfter(events[..|events| - 1]);
      match events[|events| - 1]
      case Connected(ok) => if phase != Connecting then phase else if ok then FirstStart else Closed
      case FirstStarted(ok) => if phase != FirstStart then phase else if ok then Polling else Closed
      case Replay(_) => if phase == Polling then Live else phase
      case _ => phase
  }

  /** The routes announced last: by an event while the listener is registered, or by the replay. */
  function Announced(events: seq<Event>): seq<string> {
    if events == [] then []
    else
      var init := events[..|events| - 1];
      match events[|events| - 1]
      case Mesh(routes) => if PhaseAfter(init) == Closed then Announced(init) else routes
      case Replay(Some(routes)) => if PhaseAfter(init) == Polling then routes else Announced(init)
      case _ => Announced(init)
  }

  lemma StepAnnounces(net: Network, v: Runner, e: Event)
    ensures
      var t := Step(net, v, e);
      match e
      case Mesh(routes) => t.phase == v.phase && t.mesh == if v.phase.Closed? then v.mesh else ToSet(routes)
      case Replay(current) =>
        && t.phase == (if v.phase.Polling? then Live else v.phase)
        && t.mesh == if v.phase.Polling? && current.Some? then ToSet(current.value) else v.mesh
      case Connected(ok) =>
        t.mesh == v.mesh && t.phase == if !v.phase.Connecting? then v.phase else if ok then FirstStart else Closed
      case FirstStarted(ok) =>
        t.mesh == v.mesh && t.phase == if !v.phase.FirstStart? then v.phase else if ok then Polling else Closed
      case _ => t.mesh == v.mesh && t.phase == v.phase
  {
    match e
    case Mesh(routes) => ComparisonsDecideEquality(ToSet(routes), v.mesh);
    case Replay(current) =>
      if current.Some? {
        ComparisonsDecideEquality(ToSet(current.value), v.mesh);
      }
    case _ =>
  }

  /** In every run the routes recorded are those announced last, no more and no fewer. */
  lemma {:induction false} MeshIsAnnounced(net: Network, events: seq<Event>)
    ensures Run(net, INITIAL, events).phase == PhaseAfter(events)
    ensures forall r :: r in Run(net, INITIAL, events).mesh <==> r in Announced(events)
  {
    if events != [] {
      var init := events[..|events| - 1];
      MeshIsAnnounced(net, init);
      StepAnnounces(net, Run(net, INITIAL, init), events[|events| - 1]);
    }
  }

  /**
   A call of rebuildVpn when nothing is running starts a cycle towards exactly the
   routes announced that are not local, or these are already applied.
   */
  lemma CallStartsCycle(net: Network, v: Runner)
    requires Good(net, v) && v.phase.Live? && v.tasks == []
    ensures
      var t := Rebuild(net, v);
      if t.tasks == [] then v.flags.applied.Some? && Targets(net, v.mesh, v.flags.applied.value)
      else |t.tasks| == 1 && t.tasks[0].Stopping? && Targets(net, v.mesh, t.tasks[0].desired) && t.cycles == v.cycles + 1
  {
    if v.flags.applied.Some? {
      ComparisonsDecideEquality(v.flags.applied.value, Desired(net, v.mesh));
    }
  }

  /** The own subnet and the announced routes, without the local ones. */
  predicate Targets(net: Network, announced: Routes, routes: Routes) {
    && (forall r :: r in routes ==> (r == net.subnet || r in announced) && r !in net.local)
    && (forall r :: r in announced && r !in net.local ==> r in routes)
    && (net.subnet !in net.local ==> net.subnet in routes)
  }

  /** A changed announcement while the runner works is taken up by one more turn of the loop. */
  lemma BusyCallQueues(net: Network, v: Runner, routes: seq<string>)
    requires Good(net, v) && v.tasks != [] && ToSet(routes) != v.mesh
    ensures
      var t := Step(net, v, Mesh(routes));
      t.flags.queued && t.tasks == v.tasks
  {
    ComparisonsDecideEquality(ToSet(routes), v.mesh);
  }

  /** What a start that completes leaves as applied: the routes it was given, or nothing. */
  lemma StartAppliesItsRoutes(net: Network, v: Runner, e: Event)
    requires Good(net, v) && Completes(v, e)
    ensures Step(net, v, e).flags.applied ==
            if !e.ok then None
            else if e.FirstStarted? then Some({net.subnet})
            else Some(v.tasks[e.task].desired)
  {
  }

  /**
   In every interleaving VPN starts never overlap, and once the replay step has
   run, whenever the runner is idle the applied routes are exactly the own subnet and
   the routes announced last, without any local subnet, if the last start succeeded,
   and null if it failed.
   */
  lemma ConvergesInEveryRun(net: Network, events: seq<Event>)
    ensures
      var v := Run(net, INITIAL, events);
      && StartsInFlight(v) <= 1
      && (v.flags.applied.Some? <==> LastStartOk(net, events))
      && (v.phase.Live? && !v.flags.busy ==>
            if LastStartOk(net, events) then
              && v.flags.applied == Some(Desired(net, v.mesh))
              && forall r :: r in v.flags.applied.value <==>
                   (r == net.subnet || r in Announced(events)) && r !in net.local
            else v.flags.applied == None)
  {
    GoodRun(net, events);
    AppliedIffLastStartOk(net, events);
    MeshIsAnnounced(net, events);
    GoodMeans(net, Run(net, INITIAL, events));
  }

  // ---- After the last call of rebuildVpn ----

  predicate Completion(e: Event) {
    e.StopDone? || e.StartDone?
  }

  /** A pending request for one more turn. */
  function Owed(v: Runner): nat {
    if v.flags.queued && v.tasks != [] then 1 else 0
  }

  lemma CompletionPays(net: Network, v: Runner, e: Event)
    requires Good(net, v) && Completion(e)
    ensures Step(net, v, e).cycles + Owed(Step(net, v, e)) <= v.cycles + Owed(v)
  {
    if e.StartDone? && e.task < |v.tasks| && v.tasks[e.task].Starting? && e.ok && v.flags.queued {
      TurnGood(net, v.(tasks := Without(v.tasks, e.task), flags := v.flags.(applied := Some(v.tasks[e.task].desired))));
    }
  }

  /** From any reachable point on, without new calls of rebuildVpn, at most one more cycle begins. */
  lemma {:induction false} AtMostOneMoreCycle(net: Network, before: seq<Event>, after: seq<Event>)
    requires forall i :: 0 <= i < |after| ==> Completion(after[i])
    ensures
      var v := Run(net, INITIAL, before);
      var w := Run(net, v, after);
      && Good(net, w)
      && w.cycles + Owed(w) <= v.cycles + Owed(v) <= v.cycles + 1
  {
    var v := Run(net, INITIAL, before);
    GoodRun(net, before);
    if after != [] {
      var init := after[..|after| - 1];
      AtMostOneMoreCycle(net, before, init);
      GoodStep(net, Run(net, v, init), after[|after| - 1]);
      CompletionPays(net, Run(net, v, init), after[|after| - 1]);
    }
  }

  lemma RunSnoc(net: Network, v: Runner, events: seq<Event>, e: Event)
    ensures Run(net, v, events + [e]) == Step(net, Run(net, v, events), e)
  {
    assert (events + [e])[..|events|] == events;
  }

  lemma RunFour(net: Network, v: Runner, e0: Event, e1: Event, e2: Event, e3: Event)
    ensures Run(net, v, [e0, e1, e2, e3]) == Step(net, Step(net, Step(net, Step(net, v, e0), e1), e2), e3)
  {
    RunSnoc(net, v, [], e0);
    RunSnoc(net, v, [] + [e0], e1);
    RunSnoc(net, v, [] + [e0] + [e1], e2);
    RunSnoc(net, v, [] + [e0] + [e1] + [e2], e3);
    assert [e0, e1, e2, e3] == [] + [e0] + [e1] + [e2] + [e3];
  }

  /** Stop then start, whatever the start's outcome: the runner is idle or owes nothing more. */
  lemma CycleEnds(net: Network, v: Runner, ok: bool)
    requires Good(net, v)
    ensures
      var w := Step(net, Step(net, v, StopDone(0)), StartDone(0, ok));
      Good(net, w) && w.phase == v.phase && (w.tasks == [] || !w.flags.queued)
      && (!v.flags.queued || v.tasks == [] ==> w.tasks == [])
  {
    GoodStep(net, v, StopDone(0));
    var u := Step(net, v, StopDone(0));
    GoodStep(net, u, StartDone(0, ok));
    if u.tasks != [] && ok && u.flags.queued {
      TurnGood(net, u.(tasks := Without(u.tasks, 0), flags := u.flags.(applied := Some(u.tasks[0].desired))));
    }
  }

  /** Once the calls stop, two cycles' worth of completions leave the runner idle and converged. */
  lemma SettlesAfterTwoCycles(net: Network, before: seq<Event>, ok0: bool, ok1: bool)
    requires Run(net, INITIAL, before).phase.Live?
    ensures
      var w := Run(net, Run(net, INITIAL, before), [StopDone(0), StartDone(0, ok0), StopDone(0), StartDone(0, ok1)]);
      !w.flags.busy && w.tasks == [] && Converged(net, w)
  {
    GoodRun(net, before);
    var v := Run(net, INITIAL, before);
    RunFour(net, v, StopDone(0), StartDone(0, ok0), StopDone(0), StartDone(0, ok1));
    CycleEnds(net, v, ok0);
    CycleEnds(net, Step(net, Step(net, v, StopDone(0)), StartDone(0, ok0)), ok1);
  }
}
