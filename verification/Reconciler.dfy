/** The two controllers as they are written: objects whose methods call the API server, change
    their local copy of the resource, and keep a map of backoffs. The server accepts a call only
    when the protocol of module Protocol makes that call next, so each method is held to the
    protocol call by call, and whatever is proved of its runs holds while these methods work. */
module Reconciler {
  import opened Options
  import opened Api
  import opened Planning
  import opened Protocol
  import opened Inventory
  import opened Custody
  import opened Deletion
  import opened Healing
  import opened Status
  import opened Backoff

  /** What others do before a call, and what goes wrong with it. */
  datatype Moment = Moment(others: seq<Action>, fault: Fault)

  /** An action that does not move the controller of kind k. */
  predicate Foreign(k: Kind, a: Action) {
    (a.Start? || a.Api? || a.Pick? || a.Crash?) ==> a.k != k
  }

  lemma StepForeign(s: System, a: Action, k: Kind)
    requires Foreign(k, a)
    ensures Side(Step(s, a), k).pc == Side(s, k).pc && Step(s, a).ns == s.ns
  {
  }

  lemma StepApi(s: System, k: Kind, fault: Fault)
    requires HasCall(Side(s, k).pc)
    ensures var c := Side(s, k);
            var reply := Exec(c.store, s.children, s.nodes, NextCall(c.pc), fault).reply;
            Side(Step(s, Api(k, fault)), k).pc == Resume(s.ns, k, c.pc, reply) && Step(s, Api(k, fault)).ns == s.ns
  {
  }

  /** A successful reply has the form that belongs to the call; that of a write is the resource in its
      new form. */
  predicate Fits(call: Call, reply: Reply) {
    reply.Failed? ||
    match call
    case ListCrs => reply.Crs?
    case UpdateStatus(cr, condition) =>
      reply.Written? && reply.cr.name == cr.name && reply.cr.condition == condition && reply.cr.finalizer == cr.finalizer
    case UpdateFinalizer(cr, finalizer) =>
      reply.Written? && reply.cr.name == cr.name && reply.cr.condition == cr.condition && reply.cr.finalizer == finalizer
    case ListNodes => reply.Nodes?
    case _ => reply.Done?
  }

  lemma ExecFits(st: Store, children: Children, nodes: seq<Node>, call: Call, fault: Fault)
    ensures Fits(call, Exec(st, children, nodes, call, fault).reply)
    ensures var reply := Exec(st, children, nodes, call, fault).reply; reply.Crs? ==> reply.items == st.crs
  {
  }

  /** The API server with everyone who uses it. */
  class Cluster {
    var sys: System
    var clock: nat
    const script: nat -> Moment
    ghost var who: Kind             // the kind whose request was taken on last,
    ghost var from: System          // the state behind that,
    ghost var run: seq<Action>      // and the run since then
    ghost var listed: seq<Cr>       // what the last listing of that request returned,
    ghost var at: nat               // and how much of the run went before it

    /** The current state is the result of the run, in which that request is the only one; a listing
        that returned anything returned the resources of that moment. */
    ghost predicate Valid()
      reads this
    {
      && sys == Run(from, run)
      && (forall i :: 0 <= i < |run| ==> Foreign(who, run[i]) || run[i].Api? || run[i].Pick?)
      && at <= |run| && (listed == [] || listed == Side(Run(from, run[..at]), who).store.crs)
    }

    constructor (start: System, script: nat -> Moment)
      ensures Valid() && sys == start && this.script == script
    {
      this.script := script;
      sys := start;
      clock := 0;
      who, from, run, listed, at := Efa, start, [], [], 0;
    }

    function Pc(k: Kind): Pc
      reads this
    {
      Side(sys, k).pc
    }

    /** If no call about the resources went wrong, a live resource is requeued exactly when it is stored as
        waiting for node discovery. */
    ghost predicate WaitsIff(name: string, requeue: bool)
      reads this
    {
      UndisturbedRun(from, run, who) && Live(Side(from, who).store, name) ==>
        (requeue <==> StoredAs(Side(sys, who).store, name, Discovery))
    }

    /** If nothing went wrong at all and nobody interfered, a live resource is Ready, and just the objects
        it needs have been restored. */
    ghost predicate Heals(name: string)
      reads this
    {
      SoloRun(who, run) ==>
        forall want: Cr :: want.name == name && Healable(from, who, want) ==>
          && Mended(Side(sys, who).store, want)
          && Restored(from.ns, who, want, from.nodes, from.children, sys.children)
    }

    /** And a resource that is being deleted and passes the gate is gone, with just the objects that are
        named and labelled for it. */
    ghost predicate Removes(name: string)
      reads this
    {
      SoloRun(who, run) && CustodyInv(from) && Condemned(Side(from, who).store, name) ==>
        var st := Side(from, who).store;
        && Find(Side(sys, who).store.crs, name) == |Side(sys, who).store.crs|
        && Cleared(from.ns, who, st.crs[Find(st.crs, name)], from.children, sys.children)
    }

    lemma RequestEnds(name: string)
      requires Valid() && Side(from, who).pc == Listing(name) && Pc(who).Idle?
      ensures Pc(who) == Idle(Errored) <==> SomeWriteFails(from, run, who)
      ensures WaitsIff(name, Pc(who).outcome == Requeued) && Heals(name) && Removes(name)
    {
      ErroredIff(from, run, who);
      if SoloRun(who, run) && CustodyInv(from) && Condemned(Side(from, who).store, name) {
        DeletionCompletes(from, run, who, name);
        DeletionIsPrecise(from, run, who, name);
      }
      if UndisturbedRun(from, run, who) && Live(Side(from, who).store, name) { StatusFaithful(from, run, who, name); }
      forall want: Cr | SoloRun(who, run) && want.name == name && Healable(from, who, want)
        ensures Mended(Side(sys, who).store, want)
        ensures Restored(from.ns, who, want, from.nodes, from.children, sys.children)
      {
        ReconcileHeals(from, run, who, want);
      }
    }

    /** A request reaches the idle controller. */
    method Begin(k: Kind, name: string)
      requires Valid() && Pc(k).Idle?
      modifies this
      ensures Valid() && who == k && from == Step(old(sys), Start(k, name)) && run == [] && listed == []
      ensures sys == from && Pc(k) == Listing(name) && sys.ns == old(sys.ns)
    {
      sys := Step(sys, Start(k, name));
      who, from, run, listed, at := k, sys, [], [], 0;
    }

    method Act(a: Action)
      requires Valid() && (Foreign(who, a) || a.Api? || a.Pick?)
      modifies this
      ensures Valid() && sys == Step(old(sys), a)
      ensures who == old(who) && from == old(from) && clock == old(clock) && run == old(run) + [a]
      ensures listed == old(listed) && at == old(at)
    {
      RunAppend(from, run, a);
      assert (run + [a])[..at] == run[..at];
      sys := Step(sys, a);
      run := run + [a];
    }

    /** The next call of the controller at work, which must be `call`; others act first. A write that is
        accepted has just the effect asked for, and a listing returns the resources of its moment. */
    method Invoke(k: Kind, call: Call) returns (reply: Reply)
      requires Valid() && who == k && HasCall(Pc(k)) && call == NextCall(Pc(k))
      modifies this
      ensures Valid() && who == old(who) && from == old(from) && sys.ns == old(sys.ns)
      ensures Pc(k) == Resume(sys.ns, k, old(Pc(k)), reply)
      ensures Fits(call, reply)
      ensures listed == if call.ListCrs? then (if reply.Crs? then reply.items else []) else old(listed)
    {
      var moment := script(clock);
      clock := clock + 1;
      for i := 0 to |moment.others|
        invariant Valid() && who == old(who) && from == old(from) && sys.ns == old(sys.ns) && Pc(k) == old(Pc(k))
        invariant listed == old(listed)
      {
        if Foreign(k, moment.others[i]) {
          StepForeign(sys, moment.others[i], k);
          Act(moment.others[i]);
        }
      }
      var c := Side(sys, k);
      reply := Exec(c.store, sys.children, sys.nodes, call, moment.fault).reply;
      ExecFits(c.store, sys.children, sys.nodes, call, moment.fault);
      StepApi(sys, k, moment.fault);
      if call.ListCrs? {
        listed, at := if reply.Crs? then reply.items else [], |run|;
        assert run[..at] == run;
      }
      Act(Api(k, moment.fault));
    }

    /** The iteration over the driver versions goes on with `version`. */
    method Choose(k: Kind, version: string)
      requires Valid() && who == k && Pc(k).Ranging? && version in Pc(k).versions
      modifies this
      ensures Valid() && who == old(who) && from == old(from) && sys.ns == old(sys.ns)
      ensures Pc(k) == Protocol.Choose(sys.ns, k, old(Pc(k)), version) && listed == old(listed)
    {
      Act(Pick(k, version));
    }
  }

  /** What Reconcile returns: ctrl.Result and whether there is an error. */
  datatype Result = Result(requeue: bool, requeueAfter: int, failed: bool)

  /** The requested resource is listed and not Ignored, and so is none ahead of it but Ignored ones. */
  predicate Passes(items: seq<Cr>, name: string) {
    var e := Elect(items, name, "");
    e.found.Some? && e.found.value.condition != Ignored && e.deployed == ""
  }

  class DriverReconciler {
    const kind: Kind
    const cluster: Cluster
    var backOffDuration: map<string, int>

    constructor (kind: Kind, cluster: Cluster)
      ensures this.kind == kind && this.cluster == cluster && backOffDuration == map[]
    {
      this.kind := kind;
      this.cluster := cluster;
      backOffDuration := map[];
    }

    /** The controller is at work on a request. */
    ghost predicate Working()
      reads this, cluster
    {
      cluster.Valid() && cluster.who == kind
    }

    /** And it is the same request, with the resources listed as before. */
    twostate predicate StillWorking()
      reads this, cluster
    {
      && Working() && cluster.from == old(cluster.from) && cluster.sys.ns == old(cluster.sys.ns)
      && cluster.listed == old(cluster.listed)
    }

    function At(): Pc
      reads this, cluster
    {
      cluster.Pc(kind)
    }

    // ----- backoff -----

    method GetRequeueAfter(req: string) returns (duration: int)
      modifies this`backOffDuration
      ensures backOffDuration == After(old(backOffDuration), req, Requeued)
      ensures duration == Current(backOffDuration, req)
    {
      duration := Wrap64((if req in backOffDuration then backOffDuration[req] else 0) + SECOND);
      backOffDuration := backOffDuration[req := duration];
    }

    // ----- Reconcile -----

    /** What a request does on the server, and how it went there. */
    method Attend(name: string) returns (failed: bool, requeue: bool, passed: bool)
      requires cluster.Valid() && At().Idle?
      modifies cluster
      ensures Working() && cluster.from == Step(old(cluster.sys), Start(kind, name))
      ensures passed <==> Passes(cluster.listed, name)
      ensures At() == Idle(if failed then Errored else if !passed then Skipped else if requeue then Requeued else Finished)
      ensures requeue ==> passed && !failed
      ensures failed <==> SomeWriteFails(cluster.from, cluster.run, kind)
      ensures cluster.WaitsIff(name, requeue) && cluster.Heals(name) && cluster.Removes(name)
    {
      cluster.Begin(kind, name);
      var elected;
      failed, elected := Gate(name);
      requeue, passed := false, elected != None;
      if passed {
        failed, requeue := Proceed(elected.value);
      }
      cluster.RequestEnds(name);
    }

    /** One request. It starts from idle and ends in idle, and the calls in between, interleaved with
        whatever others do, are a run of the protocol. An error is returned exactly when a write of the
        custom resource in that run was not accepted. A requeue is returned exactly when the run ended
        with one, to come after the stored backoff; the backoff of a resource that passes is otherwise
        reset, and that of one that does not pass, or failed, is left alone. */
    method Reconcile(name: string) returns (result: Result)
      requires cluster.Valid() && At().Idle?
      modifies cluster, this`backOffDuration
      ensures Working() && cluster.from == Step(old(cluster.sys), Start(kind, name))
      ensures At().Idle? && At().outcome != Nothing
      ensures result.failed <==> SomeWriteFails(cluster.from, cluster.run, kind)
      ensures result.requeue <==> At().outcome == Requeued
      ensures result.requeue ==> !result.failed && "/" + name in backOffDuration && result.requeueAfter == backOffDuration["/" + name]
      ensures !result.requeue ==> result.requeueAfter == 0
      ensures backOffDuration == After(old(backOffDuration), "/" + name, At().outcome)
      ensures !Passes(cluster.listed, name) || result.failed ==> !result.requeue && backOffDuration == old(backOffDuration)
      ensures Passes(cluster.listed, name) && !result.failed && !result.requeue ==>
                backOffDuration == old(backOffDuration) - {"/" + name}
      ensures cluster.WaitsIff(name, result.requeue) && cluster.Heals(name) && cluster.Removes(name)
    {
      var failed, requeue, passed := Attend(name);
      if failed || !passed {
        return Result(false, 0, failed);
      }
      if requeue {
        var duration := GetRequeueAfter("/" + name);
        return Result(true, duration, false);
      }
      backOffDuration := backOffDuration - {"/" + name};
      return Result(false, 0, false);
    }

    /** The elected resource gets its finalizer and is torn down or built. */
    method Proceed(cr: Cr) returns (failed: bool, requeue: bool)
      requires Working() && At() == if !cr.finalizer then Claiming(cr) else Branch(cluster.sys.ns, kind, cr)
      modifies cluster
      ensures StillWorking()
      ensures At() == Idle(if failed then Errored else if requeue then Requeued else Finished)
      ensures requeue ==> !failed
    {
      var efa := cr;
      if !efa.finalizer {
        failed, efa := AddFinalizer(efa);
        if failed {
          return true, false;
        }
      }
      if efa.deleting {
        failed := Retire(efa);
        return failed, false;
      }
      failed, requeue := Maintain(efa);
    }

    /** List the resources and let at most one pass: the requested one, if it is listed and not Ignored
        and none ahead of it is anything but Ignored. The one error is a failed write of Ignored. */
    method Gate(name: string) returns (failed: bool, elected: Option<Cr>)
      requires Working() && At() == Listing(name)
      modifies cluster
      ensures Working() && cluster.from == old(cluster.from) && cluster.sys.ns == old(cluster.sys.ns)
      ensures At() == if elected == None then Idle(if failed then Errored else Skipped)
                      else if !elected.value.finalizer then Claiming(elected.value)
                      else Branch(cluster.sys.ns, kind, elected.value)
      ensures var e := Elect(cluster.listed, name, "");
              && elected == (if Passes(cluster.listed, name) then e.found else None)
              && (failed ==> e.found.Some? && e.found.value.condition != Ignored && e.deployed != "")
    {
      var reply := cluster.Invoke(kind, ListCrs);
      var items := if reply.Crs? then reply.items else [];
      // A failed listing leaves the list empty, so its error never gets past this test.
      if reply == Failed(NotFound) || |items| == 0 {
        return false, None;
      }

      var found, deployed := FindRequested(items, name);
      if found == None {
        return false, None;
      }
      var efa := found.value;
      if efa.condition == Ignored {
        return false, None;
      }
      if deployed != "" {
        reply := cluster.Invoke(kind, UpdateStatus(efa, Ignored));
        return reply.Failed?, None;
      }
      return false, Some(efa);
    }

    /** The loop over the listed resources, which stops at the requested one. */
    method FindRequested(items: seq<Cr>, name: string) returns (found: Option<Cr>, deployed: string)
      ensures Elect(items, name, "") == Election(found, deployed)
    {
      found, deployed := None, "";
      var i := 0;
      while i < |items|
        invariant 0 <= i <= |items| && found == None
        invariant Elect(items, name, "") == Elect(items[i..], name, deployed)
      {
        var ext := items[i];
        if ext.name == name {
          found := Some(ext);
          return;
        } else if ext.condition != Ignored {
          deployed := ext.name;
        }
        i := i + 1;
      }
    }

    /** Persist the finalizer before anything is created; a fresh resource becomes Creating. */
    method AddFinalizer(cr: Cr) returns (failed: bool, efa: Cr)
      requires Working() && At() == Claiming(cr)
      modifies cluster
      ensures StillWorking()
      ensures At() == if failed then Idle(Errored) else Branch(cluster.sys.ns, kind, efa)
      ensures !failed ==> efa.name == cr.name && efa.finalizer
      ensures !failed ==> efa.condition == cr.condition || (cr.condition == Unset && efa.condition == Creating)
      ensures !failed && !efa.deleting ==> efa.condition != Unset
    {
      efa := cr;
      var reply := cluster.Invoke(kind, UpdateFinalizer(efa, true));
      if reply.Failed? {
        return true, efa;
      }
      efa := reply.cr;
      if !efa.deleting && efa.condition == Unset {
        reply := cluster.Invoke(kind, UpdateStatus(efa, Creating));
        if reply.Failed? {
          return true, efa;
        }
        efa := reply.cr;
      }
      return false, efa;
    }

    /** A resource with a deletion timestamp: tear down, then take the finalizer off. */
    method Retire(cr: Cr) returns (failed: bool)
      requires Working() && cr.deleting && At() == Branch(cluster.sys.ns, kind, cr)
      modifies cluster
      ensures StillWorking()
      ensures At() == Idle(if failed then Errored else Finished)
    {
      var efa := cr;
      if !efa.finalizer {
        return false;
      }
      if efa.condition != Deleting {
        var reply := cluster.Invoke(kind, UpdateStatus(efa, Deleting));
        if reply.Failed? {
          return true;
        }
        efa := reply.cr;
      }
      var err := DeleteCluster(efa);
      var reply := cluster.Invoke(kind, if err then UpdateStatus(efa, Error) else UpdateFinalizer(efa, false));
      return reply.Failed?;
    }

    /** A live resource: create what is missing, then write the status if it changes. The error of
        CreateCluster itself goes into the status only. */
    method Maintain(cr: Cr) returns (failed: bool, requeue: bool)
      requires Working() && !cr.deleting && At() == Branch(cluster.sys.ns, kind, cr)
      modifies cluster
      ensures StillWorking()
      ensures At() == Idle(if failed then Errored else if requeue then Requeued else Finished)
      ensures requeue ==> !failed
    {
      var efa := cr;
      if efa.condition == Error {
        var reply := cluster.Invoke(kind, UpdateStatus(efa, Creating));
        if reply.Failed? {
          return true, false;
        }
        efa := reply.cr;
      }
      var err;
      requeue, err := CreateCluster(efa);
      failed := Report(efa, requeue, err);
      if failed {
        return true, false;
      }
    }

    /** The end of a reconcile of a live resource: the status is written when it changes. */
    method Report(efa: Cr, requeue: bool, err: bool) returns (failed: bool)
      requires Working() && !(requeue && err) && At() == Conclude(efa, if err then Error else if requeue then Discovery else Ready)
      modifies cluster
      ensures StillWorking()
      ensures At() == Idle(if failed then Errored else if requeue then Requeued else Finished)
    {
      var condition, updateStatus := efa.condition, false;
      if err {
        condition, updateStatus := Error, true;
      } else if requeue && efa.condition != Discovery {
        condition, updateStatus := Discovery, true;
      } else if !requeue && efa.condition != Ready {
        condition, updateStatus := Ready, true;
      }
      if updateStatus {
        var reply := cluster.Invoke(kind, UpdateStatus(efa, condition));
        return reply.Failed?;
      }
      return false;
    }

    // ----- CreateCluster -----

    /** A requeue is asked for, or an error reported, exactly as the protocol concludes. */
    method CreateCluster(efa: Cr) returns (requeue: bool, err: bool)
      requires Working() && At() == Build(cluster.sys.ns, kind, efa)
      modifies cluster
      ensures StillWorking()
      ensures !(requeue && err) && At() == Conclude(efa, if err then Error else if requeue then Discovery else Ready)
    {
      match kind {
        case Efa => requeue, err := CreateEfaCluster(efa);
        case Gdrdrv => requeue, err := CreateGdrdrvCluster(efa);
      }
    }

    method CreateEfaCluster(efa: Cr) returns (requeue: bool, err: bool)
      requires Working() && kind == Efa && At() == Build(cluster.sys.ns, kind, efa)
      modifies cluster
      ensures StillWorking()
      ensures !(requeue && err) && At() == Conclude(efa, if err then Error else if requeue then Discovery else Ready)
    {
      var ns := cluster.sys.ns;
      err := CreateNFR(efa, [DockerfileChild(kind, efa, "")], ThenScan);
      if err { return false, true; }
      err := CreateKmmDockerfile(efa, "", [], ThenScan);
      if err { return false, true; }

      var reply := cluster.Invoke(kind, ListNodes);
      if reply.Failed? { return false, true; }
      var kernels;
      requeue, kernels := EfaNodeStatus(reply.nodes);
      if requeue { return true, false; }

      err := CreateKmm(efa, "", kernels, Tail(ns, kind, efa), ThenEnd);
      if err { return false, true; }
      err := CreateTail(efa);
      return false, err;
    }

    /** The device plugin and what it needs, the last step for either kind. */
    method CreateTail(efa: Cr) returns (err: bool)
      requires Working() && At() == Filling(efa, Tail(cluster.sys.ns, kind, efa), false, ThenEnd)
      modifies cluster
      ensures StillWorking()
      ensures At() == Conclude(efa, if err then Error else Ready)
    {
      err := CreateDevicePluginScc(efa, [PluginChild(cluster.sys.ns, kind, efa)], ThenEnd);
      if !err {
        var ds := PluginChild(cluster.sys.ns, kind, efa);
        assert [ds] + [] == [ds];
        err := CreateDevicePlugin(efa, [], ThenEnd);
      }
    }

    method CreateGdrdrvCluster(efa: Cr) returns (requeue: bool, err: bool)
      requires Working() && kind == Gdrdrv && At() == Build(cluster.sys.ns, kind, efa)
      modifies cluster
      ensures StillWorking()
      ensures !(requeue && err) && At() == Conclude(efa, if err then Error else if requeue then Discovery else Ready)
    {
      var ns := cluster.sys.ns;
      var reply := cluster.Invoke(kind, ListNodes);
      if reply.Failed? { return false, true; }
      var versions;
      requeue, versions := CudaNodeStatus(reply.nodes);
      if requeue { return true, false; }

      while versions != map[]
        invariant StillWorking() && cluster.sys.ns == ns
        invariant At() == Continue(ns, kind, efa, [], ThenRange(versions))
        decreases versions.Keys
      {
        var version :| version in versions;
        err := CreateForVersion(efa, versions, version);
        if err { return false, true; }
        versions := versions - {version};
      }
      err := CreateTail(efa);
      return false, err;
    }

    /** One round of the iteration over the driver versions. */
    method CreateForVersion(efa: Cr, versions: map<string, set<string>>, version: string) returns (err: bool)
      requires Working() && kind == Gdrdrv && version in versions && At() == Ranging(efa, versions)
      modifies cluster
      ensures StillWorking()
      ensures At() == if err then Conclude(efa, Error)
                      else Continue(cluster.sys.ns, kind, efa, [], ThenRange(versions - {version}))
    {
      var kernels := versions[version];
      ghost var rest := ThenRange(versions - {version});
      cluster.Choose(kind, version);
      err := CreateKmmDockerfile(efa, version, [KmmChild(kind, efa, version, kernels)], rest);
      if !err {
        assert [KmmChild(kind, efa, version, kernels)] + [] == [KmmChild(kind, efa, version, kernels)];
        err := CreateKmm(efa, version, kernels, [], rest);
      }
    }

    // ----- the creation steps: each looks for its object and creates it when it is missing -----

    method CreateNFR(efa: Cr, ghost todo: seq<Child>, ghost rest: Rest) returns (err: bool)
      requires Working() && At() == Filling(efa, [NfrChild(cluster.sys.ns, kind, efa)] + todo, false, rest)
      modifies cluster
      ensures StillWorking()
      ensures At() == if err then Conclude(efa, Error) else Continue(cluster.sys.ns, kind, efa, todo, rest)
    {
      var nfr := NfrChild(cluster.sys.ns, kind, efa);
      assert ([nfr] + todo)[1..] == todo;
      var reply := cluster.Invoke(kind, GetChild(nfr.key));
      if !reply.Failed? { return false; }
      if reply.err != NotFound { return true; }
      reply := cluster.Invoke(kind, CreateChild(nfr));
      return reply.Failed? && reply.err != AlreadyExists;
    }

    method CreateKmmDockerfile(efa: Cr, version: string, ghost todo: seq<Child>, ghost rest: Rest) returns (err: bool)
      requires Working() && At() == Filling(efa, [DockerfileChild(kind, efa, version)] + todo, false, rest)
      modifies cluster
      ensures StillWorking()
      ensures At() == if err then Conclude(efa, Error) else Continue(cluster.sys.ns, kind, efa, todo, rest)
    {
      var cm := DockerfileChild(kind, efa, version);
      assert ([cm] + todo)[1..] == todo;
      var reply := cluster.Invoke(kind, GetChild(cm.key));
      if !reply.Failed? { return false; }
      if reply.err != NotFound { return true; }
      reply := cluster.Invoke(kind, CreateChild(cm));
      return reply.Failed? && reply.err != AlreadyExists;
    }

    method CreateKmm(efa: Cr, version: string, kernels: set<string>, ghost todo: seq<Child>, ghost rest: Rest)
      returns (err: bool)
      requires Working() && (kind == Efa ==> version == "")
      requires At() == Continue(cluster.sys.ns, kind, efa,
                                (if kind == Efa && kernels == {} then [] else [KmmChild(kind, efa, version, kernels)]) + todo, rest)
      modifies cluster
      ensures StillWorking()
      ensures At() == if err then Conclude(efa, Error) else Continue(cluster.sys.ns, kind, efa, todo, rest)
    {
      if kind == Efa && |kernels| == 0 {
        assert [] + todo == todo;
        return false;
      }
      var key := KmmKey(kind, efa, version);
      assert ([KmmChild(kind, efa, version, kernels)] + todo)[1..] == todo;
      var reply := cluster.Invoke(kind, GetChild(key));
      if !reply.Failed? { return false; }
      if reply.err != NotFound { return true; }
      var nodeSelector := BuildSelector(kind, efa.spec, version);
      var kernelMappings := BuildMappings(kind, efa.name, version, kernels);
      var kmm := Child(key, ModLabels(kind, efa), OwnerOf(kind, efa),
                       Kmm(nodeSelector, (set m | m in kernelMappings), DockerfileName(kind, efa.name, version)));
      reply := cluster.Invoke(kind, CreateChild(kmm));
      return reply.Failed? && reply.err != AlreadyExists;
    }

    method CreateDevicePluginScc(efa: Cr, ghost todo: seq<Child>, ghost rest: Rest) returns (err: bool)
      requires Working()
      requires At() == Continue(cluster.sys.ns, kind, efa,
                                (if OnOpenShift(efa.spec) then [SccChild(kind, efa)] else []) + todo, rest)
      modifies cluster
      ensures StillWorking()
      ensures At() == if err then Conclude(efa, Error) else Continue(cluster.sys.ns, kind, efa, todo, rest)
    {
      if efa.spec.openShift == None || !efa.spec.openShift.value {
        assert [] + todo == todo;
        return false;
      }
      var scc := SccChild(kind, efa);
      assert ([scc] + todo)[1..] == todo;
      var reply := cluster.Invoke(kind, GetChild(scc.key));
      if !reply.Failed? { return false; }
      if reply.err != NotFound { return true; }
      reply := cluster.Invoke(kind, CreateChild(scc));
      return reply.Failed? && reply.err != AlreadyExists;
    }

    /** The guard behind the creation is the reverse of the others. */
    method CreateDevicePlugin(efa: Cr, ghost todo: seq<Child>, ghost rest: Rest) returns (err: bool)
      requires Working() && At() == Filling(efa, [PluginChild(cluster.sys.ns, kind, efa)] + todo, false, rest)
      modifies cluster
      ensures StillWorking()
      ensures At() == if err then Conclude(efa, Error) else Continue(cluster.sys.ns, kind, efa, todo, rest)
    {
      var ds := PluginChild(cluster.sys.ns, kind, efa);
      assert ([ds] + todo)[1..] == todo;
      var reply := cluster.Invoke(kind, GetChild(ds.key));
      if !reply.Failed? { return false; }
      if reply.err != NotFound { return true; }
      reply := cluster.Invoke(kind, CreateChild(ds));
      return reply.Failed? && reply.err == AlreadyExists;
    }

    // ----- DeleteCluster -----

    ghost function Torn(efa: Cr, steps: seq<Teardown>): Pc {
      if steps == [] then Releasing(efa) else Tearing(efa, steps, false)
    }

    method DeleteCluster(efa: Cr) returns (err: bool)
      requires Working() && At() == Tearing(efa, TeardownOrder(cluster.sys.ns, kind, efa), false)
      modifies cluster
      ensures StillWorking()
      ensures At() == if err then Reporting(efa, Error, false) else Releasing(efa)
    {
      ghost var ns := cluster.sys.ns;
      ghost var built := BuiltSteps(ns, efa);
      ghost var sccs := (if OnOpenShift(efa.spec) then [ByName(SccKey(efa))] else []) + built;
      assert TeardownOrder(ns, kind, efa) == [ByName(PluginKey(ns, kind, efa))] + sccs;
      err := DeleteByName(efa, PluginKey(cluster.sys.ns, kind, efa), sccs);
      if err { return true; }
      err := DeleteDevicePluginScc(efa, built);
      if err { return true; }
      err := DeleteBuilt(efa);
    }

    /** What goes after the device plugin and its constraints. */
    ghost function BuiltSteps(ns: string, efa: Cr): (steps: seq<Teardown>)
      ensures steps != []
    {
      [ByLabel(Module, efa.spec.kmmNamespace, ModLabels(kind, efa))]
      + ([ByLabel(ConfigMap, efa.spec.kmmNamespace, ModLabels(kind, efa))]
         + if kind == Efa then [ByName(NfrKey(ns, efa))] else [])
    }

    /** The Modules, the ConfigMaps they name, and the rule of an EfaDriver. */
    method DeleteBuilt(efa: Cr) returns (err: bool)
      requires Working() && At() == Tearing(efa, BuiltSteps(cluster.sys.ns, efa), false)
      modifies cluster
      ensures StillWorking()
      ensures At() == if err then Reporting(efa, Error, false) else Releasing(efa)
    {
      var ns := cluster.sys.ns;
      ghost var nfr := if kind == Efa then [ByName(NfrKey(ns, efa))] else [];
      err := DeleteByLabel(efa, Module, [ByLabel(ConfigMap, efa.spec.kmmNamespace, ModLabels(kind, efa))] + nfr);
      if err { return true; }
      err := DeleteByLabel(efa, ConfigMap, nfr);
      if err { return true; }
      if kind == Efa {
        err := DeleteByName(efa, NfrKey(ns, efa), []);
      }
    }

    /** DeleteDevicePlugin, DeleteNFR: look the object up and delete it. */
    method DeleteByName(efa: Cr, key: Key, ghost steps: seq<Teardown>) returns (err: bool)
      requires Working() && At() == Tearing(efa, [ByName(key)] + steps, false)
      modifies cluster
      ensures StillWorking()
      ensures At() == if err then Reporting(efa, Error, false) else Torn(efa, steps)
    {
      assert ([ByName(key)] + steps)[1..] == steps;
      var reply := cluster.Invoke(kind, GetChild(key));
      if reply == Failed(NotFound) { return false; }
      if reply.Failed? { return true; }
      reply := cluster.Invoke(kind, DeleteChild(key));
      return reply.Failed? && reply.err != NotFound;
    }

    method DeleteDevicePluginScc(efa: Cr, ghost steps: seq<Teardown>) returns (err: bool)
      requires Working() && steps != []
      requires At() == Tearing(efa, (if OnOpenShift(efa.spec) then [ByName(SccKey(efa))] else []) + steps, false)
      modifies cluster
      ensures StillWorking()
      ensures At() == if err then Reporting(efa, Error, false) else Torn(efa, steps)
    {
      if efa.spec.openShift == None || !efa.spec.openShift.value {
        assert [] + steps == steps;
        return false;
      }
      err := DeleteByName(efa, SccKey(efa), steps);
    }

    /** DeleteKmm, DeleteConfigMap: delete by label, whatever the names. */
    method DeleteByLabel(efa: Cr, res: Res, ghost steps: seq<Teardown>) returns (err: bool)
      requires Working()
      requires At() == Tearing(efa, [ByLabel(res, efa.spec.kmmNamespace, ModLabels(kind, efa))] + steps, false)
      modifies cluster
      ensures StillWorking()
      ensures At() == if err then Reporting(efa, Error, false) else Torn(efa, steps)
    {
      assert ([ByLabel(res, efa.spec.kmmNamespace, ModLabels(kind, efa))] + steps)[1..] == steps;
      var reply := cluster.Invoke(kind, DeleteAllOf(res, efa.spec.kmmNamespace, ModLabels(kind, efa)));
      return reply.Failed? && reply.err != NotFound;
    }
  }
}
