/**
 The variables of `connectWithVpn` and the code that runs on them between two
 awaits, each piece proved to be the corresponding step of the runner.
 */
module MobileVpn {
  import opened Base
  import opened VpnRunner

  class RouteRunner {
    const net: Network
    var currentMeshRoutes: Routes
    var vpnStarted: bool
    var rebuildBusy: bool
    var rebuildQueued: bool
    var appliedRoutes: Option<Routes>
    var tasks: seq<Task>
    var phase: Phase
    var cycles: nat

    ghost function View(): Runner
      reads this
    {
      Runner(currentMeshRoutes, Flags(vpnStarted, rebuildBusy, rebuildQueued, appliedRoutes), tasks, phase, cycles)
    }

    ghost predicate Valid()
      reads this
    {
      Good(net, View())
    }

    constructor (net: Network)
      ensures Valid() && View() == INITIAL && this.net == net
    {
      this.net := net;
      currentMeshRoutes, appliedRoutes, tasks := {}, None, [];
      vpnStarted, rebuildBusy, rebuildQueued := false, false, false;
      phase, cycles := Connecting, 0;
    }

    /** The loop body up to `await stopVpn()`, or the `return` taken when nothing changed. */
    method RunTurn()
      modifies this
      ensures View() == Turn(net, old(View()))
    {
      rebuildQueued := false;
      var desired := DesiredRoutes(net, currentMeshRoutes);
      if appliedRoutes.Some? && SetsEqual(appliedRoutes.value, desired) {
        rebuildBusy := false;
        return;
      }
      tasks := tasks + [Stopping(desired)];
      cycles := cycles + 1;
    }

    method RebuildVpn()
      modifies this
      ensures View() == Rebuild(net, old(View()))
    {
      if !vpnStarted {
        return;
      }
      if rebuildBusy {
        rebuildQueued := true;
        return;
      }
      rebuildBusy := true;
      RunTurn();
    }

    method OnMeshRoutes(routes: seq<string>)
      requires Valid()
      modifies this
      ensures Valid() && View() == Step(net, old(View()), Mesh(routes))
    {
      GoodStep(net, View(), Mesh(routes));
      var next := ToSet(routes);
      if !phase.Closed? && Changed(next, currentMeshRoutes) {
        currentMeshRoutes := next;
        RebuildVpn();
      }
    }

    method OnFirstStarted(ok: bool)
      requires Valid() && phase.FirstStart?
      modifies this
      ensures Valid() && View() == Step(net, old(View()), FirstStarted(ok))
    {
      GoodStep(net, View(), FirstStarted(ok));
      if ok {
        vpnStarted := true;
        appliedRoutes := Some({net.subnet});
        phase := Polling;
      } else {
        phase := Closed;
      }
    }

    /** Step 8: align with the current mesh routes, then converge. */
    method ReplayRoutes(current: Option<seq<string>>)
      requires Valid() && phase.Polling?
      modifies this
      ensures Valid() && View() == Step(net, old(View()), Replay(current))
    {
      GoodStep(net, View(), Replay(current));
      if current.Some? && Changed(ToSet(current.value), currentMeshRoutes) {
        currentMeshRoutes := ToSet(current.value);
      }
      phase := Live;
      RebuildVpn();
    }

    method OnStopDone(i: nat)
      requires Valid() && i < |tasks| && tasks[i].Stopping?
      modifies this
      ensures Valid() && View() == Step(net, old(View()), StopDone(i))
    {
      GoodStep(net, View(), StopDone(i));
      tasks := tasks[i := Starting(tasks[i].desired)];
    }

    /** From `await startVpn(...)` to the next await or the end of the activation. */
    method OnStartDone(i: nat, ok: bool)
      requires Valid() && i < |tasks| && tasks[i].Starting?
      modifies this
      ensures Valid() && View() == Step(net, old(View()), StartDone(i, ok))
      ensures phase.Live? && !rebuildBusy ==> Converged(net, View())
    {
      GoodStep(net, View(), StartDone(i, ok));
      var desired := tasks[i].desired;
      tasks := tasks[..i] + tasks[i + 1..];
      if !ok {
        appliedRoutes := None;
        rebuildBusy := false;
      } else {
        appliedRoutes := Some(desired);
        if rebuildQueued {
          RunTurn();
        } else {
          rebuildBusy := false;
        }
      }
    }
  }
}
