/** The restart loop of both device plugins: serve, restart when the kubelet's socket is created
    anew or on a hang-up, stop on a termination signal. */
module Lifecycle {
  import opened Options

  datatype Signal = Hup | Int | Term | Quit

  datatype Event =
    | Socket(name: string, created: bool)
    | WatcherError
    | Signalled(signal: Signal)

  /** How a call to Serve ends: well, with an error before it made a server, or with one after. */
  datatype Served = Well | NoServer | Unregistered

  /** How the loop ends: still waiting when the events are used up, on a signal, or with an error. */
  datatype Exit = Waiting | Terminated | Failed

  /** The machine the plugins run on: how many servers are live, and how many ever were at once. */
  class Machine {
    var live: nat
    ghost var peak: nat

    ghost predicate Valid()
      reads this
    {
      live <= peak
    }

    constructor ()
      ensures Valid() && live == 0 && peak == 0
    {
      live, peak := 0, 0;
    }
  }

  class DevicePlugin {
    const machine: Machine
    var server: bool
    var stopClosed: bool
    ghost var serves: nat
    ghost var closes: nat

    /** A plugin with a server has its stop channel open, so stopping it never closes the channel twice. */
    ghost predicate Valid()
      reads this, machine
    {
      && machine.Valid()
      && (server ==> !stopClosed && machine.live > 0)
      && closes == (if stopClosed then 1 else 0)
    }

    constructor (machine: Machine)
      requires machine.Valid()
      ensures Valid() && this.machine == machine
      ensures !server && !stopClosed && serves == 0
    {
      this.machine := machine;
      server, stopClosed, serves, closes := false, false, 0, 0;
    }

    method Serve(outcome: Served) returns (ok: bool)
      requires Valid() && !server && !stopClosed
      modifies this, machine
      ensures Valid() && serves == old(serves) + 1 && stopClosed == old(stopClosed)
      ensures ok <==> outcome.Well?
      ensures server <==> !outcome.NoServer?
      ensures machine.live == old(machine.live) + if server then 1 else 0
      ensures machine.peak == if machine.live > old(machine.peak) then machine.live else old(machine.peak)
    {
      serves := serves + 1;
      if outcome.NoServer? { return false; }
      server := true;
      machine.live := machine.live + 1;
      if machine.live > machine.peak { machine.peak := machine.live; }
      ok := outcome.Well?;
    }

    method Stop()
      requires Valid()
      modifies this, machine
      ensures Valid() && !server && serves == old(serves)
      ensures stopClosed == (old(stopClosed) || old(server))
      ensures closes == old(closes) + if old(server) then 1 else 0
      ensures machine.live == old(machine.live) - if old(server) then 1 else 0
      ensures machine.peak == old(machine.peak)
    {
      if !server { return; }
      machine.live := machine.live - 1;
      server := false;
      assert !stopClosed;
      stopClosed := true;
      closes := closes + 1;
    }
  }

  /** Stopping twice is the same as stopping once. */
  method StopTwice(dp: DevicePlugin)
    requires dp.Valid()
    modifies dp, dp.machine
    ensures dp.Valid() && !dp.server && dp.closes <= 1
    ensures dp.machine.live == old(dp.machine.live) - if old(dp.server) then 1 else 0
  {
    dp.Stop();
    dp.Stop();
  }

  predicate Restarts(kubeletSock: string, e: Event) {
    e == Socket(kubeletSock, true) || e == Signalled(Hup)
  }

  predicate Terminates(e: Event) {
    e.Signalled? && e.signal != Hup
  }

  function RestartCount(kubeletSock: string, events: seq<Event>): (n: nat)
    ensures n <= |events|
  {
    if events == [] then 0
    else RestartCount(kubeletSock, events[..|events| - 1]) + if Restarts(kubeletSock, events[|events| - 1]) then 1 else 0
  }

  /** The loop took `handled` events, none of which ends it, and `serves` calls to Serve went well; a
      restart is due or not. */
  ghost predicate OnCourse(kubeletSock: string, events: seq<Event>, outcome: nat -> Served,
                           handled: nat, serves: nat, restart: bool) {
    && handled <= |events|
    && serves + (if restart then 1 else 0) == 1 + RestartCount(kubeletSock, events[..handled])
    && (forall i :: 0 <= i < serves ==> outcome(i).Well?)
    && (forall i :: 0 <= i < handled ==> !Terminates(events[i]))
  }

  lemma TakeEvent(kubeletSock: string, events: seq<Event>, outcome: nat -> Served, handled: nat, serves: nat)
    requires OnCourse(kubeletSock, events, outcome, handled, serves, false) && handled < |events|
    ensures serves == 1 + RestartCount(kubeletSock, events[..handled + 1]) - if Restarts(kubeletSock, events[handled]) then 1 else 0
    ensures !Terminates(events[handled]) ==>
              OnCourse(kubeletSock, events, outcome, handled + 1, serves, Restarts(kubeletSock, events[handled]))
  {
    assert events[..handled + 1][..handled] == events[..handled];
  }

  /** How the loop may end with n plugins made and some servers live: every plugin but the last was served
      well; no event but the last one taken ends the loop; it fails exactly when the last plugin was not
      served well, with a server left exactly when that one got as far as making it; it is terminated by
      the last event, with no server left; and it waits with all events taken and one server live. */
  ghost predicate Ends(kubeletSock: string, events: seq<Event>, outcome: nat -> Served,
                       exit: Exit, handled: nat, n: nat, live: nat) {
    && handled <= |events| && n == 1 + RestartCount(kubeletSock, events[..handled])
    && (forall i :: 0 <= i < n - 1 ==> outcome(i).Well?)
    && (forall i :: 0 <= i < handled - 1 ==> !Terminates(events[i]))
    && (exit.Failed? <==> !outcome(n - 1).Well?)
    && (exit.Failed? ==> (live == 1 <==> outcome(n - 1).Unregistered?))
    && (exit.Terminated? ==> handled > 0 && Terminates(events[handled - 1]) && live == 0)
    && (exit.Waiting? ==> handled == |events| && live == 1 && forall e :: e in events ==> !Terminates(e))
  }

  lemma EndsFailing(kubeletSock: string, events: seq<Event>, outcome: nat -> Served, handled: nat, serves: nat, live: nat)
    requires OnCourse(kubeletSock, events, outcome, handled, serves, true) && !outcome(serves).Well?
    requires live == 1 <==> outcome(serves).Unregistered?
    ensures Ends(kubeletSock, events, outcome, Failed, handled, serves + 1, live)
  {
  }

  lemma EndsWaiting(kubeletSock: string, events: seq<Event>, outcome: nat -> Served, serves: nat)
    requires OnCourse(kubeletSock, events, outcome, |events|, serves, false)
    ensures Ends(kubeletSock, events, outcome, Waiting, |events|, serves, 1)
  {
  }

  lemma EndsTerminated(kubeletSock: string, events: seq<Event>, outcome: nat -> Served, handled: nat, serves: nat)
    requires OnCourse(kubeletSock, events, outcome, handled, serves, false)
    requires handled < |events| && Terminates(events[handled])
    ensures Ends(kubeletSock, events, outcome, Terminated, handled + 1, serves, 0)
  {
    TakeEvent(kubeletSock, events, outcome, handled, serves);
  }

  /** Only the plugin made last can have a server, and none was served more or closed more than once. */
  ghost predicate Tidy(machine: Machine, made: seq<DevicePlugin>)
    reads machine, made
  {
    && machine.Valid()
    && (forall i :: 0 <= i < |made| ==>
          made[i].machine == machine && made[i].Valid() && made[i].serves == 1 && made[i].closes <= 1)
    && (forall i :: 0 <= i < |made| - 1 ==> !made[i].server)
    && (forall i, j :: 0 <= i < j < |made| ==> made[i] != made[j])
    && machine.live == (if made != [] && made[|made| - 1].server then 1 else 0)
    && machine.peak <= 1
  }

  /** One restart: stop the plugin there is, if any, and make and serve another. */
  method Restart(machine: Machine, dp: DevicePlugin?, outcome: Served, ghost made: seq<DevicePlugin>) returns (next: DevicePlugin, ok: bool)
    requires Tidy(machine, made) && (dp == null <==> made == []) && (dp != null ==> dp == made[|made| - 1])
    modifies machine, if dp == null then {} else {dp}
    ensures fresh(next) && Tidy(machine, made + [next])
    ensures (ok <==> outcome.Well?) && (next.server <==> !outcome.NoServer?)
  {
    if dp != null {
      dp.Stop();
    }
    next := new DevicePlugin(machine);
    ok := next.Serve(outcome);
  }

  /** A termination signal stops the last plugin. */
  method Shutdown(machine: Machine, dp: DevicePlugin, ghost made: seq<DevicePlugin>)
    requires Tidy(machine, made) && made != [] && dp == made[|made| - 1]
    modifies machine, dp
    ensures Tidy(machine, made) && machine.live == 0
  {
    dp.Stop();
  }

  /** What the loop holds between two events: the last plugin, if there is one yet, is being served. */
  ghost predicate Running(machine: Machine, dp: DevicePlugin?, made: seq<DevicePlugin>)
    reads machine, made
  {
    && Tidy(machine, made)
    && (dp == null <==> made == [])
    && (dp != null ==> dp == made[|made| - 1] && dp.server)
  }

  /** The switch over one event: whether it makes a restart due, and whether it ends the loop. */
  method Switch(kubeletSock: string, e: Event) returns (restart: bool, stop: bool)
    ensures restart <==> (e.Socket? && e.created && e.name == kubeletSock) || (e.Signalled? && e.signal.Hup?)
    ensures stop <==> e.Signalled? && (e.signal.Int? || e.signal.Term? || e.signal.Quit?)
    ensures (restart <==> Restarts(kubeletSock, e)) && (stop <==> Terminates(e))
  {
    restart, stop := false, false;
    match e
    case Socket(name, created) =>
      if name == kubeletSock && created { restart := true; }
    case WatcherError =>
    case Signalled(signal) =>
      if signal.Hup? { restart := true; } else { stop := true; }
  }

  /** The second half of a round: take an event, if there is one. */
  method TakeOne(kubeletSock: string, events: seq<Event>, ghost outcome: nat -> Served, machine: Machine, dp: DevicePlugin,
                 handled: nat, ghost made: seq<DevicePlugin>)
    returns (exit: Option<Exit>, restart: bool, taken: nat)
    requires Running(machine, dp, made) && OnCourse(kubeletSock, events, outcome, handled, |made|, false)
    modifies machine, dp
    ensures Tidy(machine, made) && handled <= taken
    ensures exit.Some? ==> Ends(kubeletSock, events, outcome, exit.value, taken, |made|, machine.live)
    ensures exit.None? ==> Running(machine, dp, made) && handled < taken
                           && OnCourse(kubeletSock, events, outcome, taken, |made|, restart)
  {
    if handled == |events| {
      EndsWaiting(kubeletSock, events, outcome, |made|);
      return Some(Waiting), false, handled;
    }
    TakeEvent(kubeletSock, events, outcome, handled, |made|);
    var stop;
    restart, stop := Switch(kubeletSock, events[handled]);
    if stop {
      EndsTerminated(kubeletSock, events, outcome, handled, |made|);
      Shutdown(machine, dp, made);
      return Some(Terminated), false, handled + 1;
    }
    return None, restart, handled + 1;
  }

  /** The loop over one sequence of events; `outcome` says how the n-th call to Serve ends. `made`
      lists the plugins it makes and `handled` counts the events it takes. */
  method DpLoop(kubeletSock: string, events: seq<Event>, outcome: nat -> Served)
    returns (exit: Exit, handled: nat, machine: Machine, ghost made: seq<DevicePlugin>)
    ensures fresh(machine) && forall p :: p in made ==> fresh(p)
    ensures Tidy(machine, made)
    ensures Ends(kubeletSock, events, outcome, exit, handled, |made|, machine.live)
  {
    machine := new Machine();
    made, handled := [], 0;
    var restart, dp: DevicePlugin?, serves := true, null, 0;
    while true
      invariant fresh(machine) && forall p :: p in made ==> fresh(p)
      invariant Running(machine, dp, made)
      invariant serves == |made| && (dp == null ==> restart)
      invariant OnCourse(kubeletSock, events, outcome, handled, serves, restart)
      decreases |events| - handled
    {
      if restart {
        var ok;
        dp, ok := Restart(machine, dp, outcome(serves), made);
        made := made + [dp];
        if !ok {
          EndsFailing(kubeletSock, events, outcome, handled, serves, machine.live);
          return Failed, handled, machine, made;
        }
        serves := serves + 1;
      }
      var done;
      done, restart, handled := TakeOne(kubeletSock, events, outcome, machine, dp, handled, made);
      if done.Some? {
        return done.value, handled, machine, made;
      }
    }
  }
}
