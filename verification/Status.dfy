/** The persisted condition tells the truth: under any faults of the calls about children and
    nodes, and any interference that leaves the custom resources of the kind alone, a reconcile
    of a live, gated resource ends in Error exactly when a step reported a failure, in
    DeviceDiscovery exactly when it stopped at an undiscovered node, and in Ready otherwise. */
module Status {
  import opened Api
  import opened Planning
  import opened Protocol
  import opened Holding
  import opened Exactness
  import opened Deletion
  import opened Healing

  // ----- what the run saw -----

  /** What happened so far: some step reported a failure; some listed node was undiscovered. */
  datatype Seen = Seen(failed: bool, waiting: bool)

  /** The reply of the call that kind k makes next. */
  function ReplyTo(s: System, k: Kind, fault: Fault): Reply
    requires HasCall(Side(s, k).pc)
  {
    Exec(Side(s, k).store, s.children, s.nodes, NextCall(Side(s, k).pc), fault).reply
  }

  /** A call about a child or about the nodes fails, as the operator's guards count failures: a
      read fails unless it finds the child or its absence, a creation fails unless the child
      already exists, and the creation of a DaemonSet fails only if it already exists. */
  predicate Fails(call: Call, reply: Reply) {
    reply.Failed? &&
    match call
    case GetChild(_) => reply.err != NotFound
    case CreateChild(child) => CreateFails(child.key.res, reply.err)
    case _ => call.ListNodes?
  }

  function Observe(s: System, k: Kind, a: Action, seen: Seen): Seen {
    if !(a.Api? && a.k == k && HasCall(Side(s, k).pc)) then seen else
      var reply := ReplyTo(s, k, a.fault);
      Seen(seen.failed || Fails(NextCall(Side(s, k).pc), reply),
           seen.waiting || (reply.Nodes? && SomeUndiscovered(reply.nodes)))
  }

  function SeenBy(s: System, run: seq<Action>, k: Kind): Seen
    decreases |run|
  {
    if run == [] then Seen(false, false)
    else Observe(Run(s, run[..|run| - 1]), k, run[|run| - 1], SeenBy(s, run[..|run| - 1], k))
  }

  /** The condition that tells of it; an undiscovered node is nothing to a GdrdrvDriver. */
  function Told(k: Kind, seen: Seen): Condition {
    if seen.failed then Error else if k.Efa? && seen.waiting then Discovery else Ready
  }

  predicate StoredAs(st: Store, name: string, condition: Condition) {
    var i := Find(st.crs, name);
    i < |st.crs| && st.crs[i].condition == condition
  }

  // ----- the runs in question -----

  /** A call that writes or lists the custom resources themselves. */
  predicate AboutCrs(pc: Pc) {
    HasCall(pc) && (NextCall(pc).ListCrs? || NextCall(pc).UpdateStatus? || NextCall(pc).UpdateFinalizer?)
  }

  /** The calls about custom resources succeed, nobody else touches them, the operator does not
      crash, and no further request is taken on. */
  predicate Undisturbed(s: System, k: Kind, a: Action) {
    match a
    case Start(k', _) => k' != k
    case Api(k', fault) => k' == k && AboutCrs(Side(s, k).pc) ==> fault == Fine
    case Crash(k') => k' != k
    case CreateCr(k', _, _, _) => k' != k
    case RequestDelete(k', _) => k' != k
    case _ => true
  }

  ghost predicate UndisturbedRun(s: System, run: seq<Action>, k: Kind)
    decreases |run|
  {
    run == [] || (UndisturbedRun(s, run[..|run| - 1], k) && Undisturbed(Run(s, run[..|run| - 1]), k, run[|run| - 1]))
  }

  // ----- the invariant -----

  /** Where the reconcile is, given what it saw. */
  ghost predicate Truthful(k: Kind, c: Ctl, name: string, seen: Seen) {
    match c.pc
    case Listing(n) => n == name && Live(c.store, name) && Told(k, seen) == Ready
    case Reporting(cr, condition, requeue) =>
      Exact(c.store, cr) && cr.name == name && condition == Told(k, seen) && (requeue <==> condition == Discovery) && !cr.deleting
    case Idle(outcome) =>
      var i := Find(c.store.crs, name);
      i < |c.store.crs| && c.store.crs[i].condition == Told(k, seen)
      && outcome == (if Told(k, seen) == Discovery then Requeued else Finished)
    case Retiring(_) => false
    case Tearing(_, _, _) => false
    case Releasing(_) => false
    case Ignoring(_) => false
    case _ => Exact(c.store, c.pc.cr) && c.pc.cr.name == name && !c.pc.cr.deleting && Told(k, seen) == Ready
  }

  lemma ConcludeTruthful(k: Kind, st: Store, cr: Cr, name: string, seen: Seen)
    requires Exact(st, cr) && cr.name == name && !cr.deleting
    ensures Truthful(k, Ctl(st, Conclude(cr, Told(k, seen))), name, seen)
  {
  }

  lemma ContinueTruthful(ns: string, k: Kind, st: Store, cr: Cr, name: string, todo: seq<Child>, rest: Rest, seen: Seen)
    requires Exact(st, cr) && cr.name == name && !cr.deleting && Told(k, seen) == Ready
    ensures Truthful(k, Ctl(st, Continue(ns, k, cr, todo, rest)), name, seen)
  {
    ConcludeTruthful(k, st, cr, name, seen);
  }

  lemma BranchTruthful(ns: string, k: Kind, st: Store, cr: Cr, name: string, seen: Seen)
    requires Exact(st, cr) && cr.name == name && !cr.deleting && Told(k, seen) == Ready
    ensures Truthful(k, Ctl(st, Branch(ns, k, cr)), name, seen)
    ensures Truthful(k, Ctl(st, Build(ns, k, cr)), name, seen)
  {
  }

  lemma ListingTruthful(ns: string, k: Kind, st: Store, name: string, seen: Seen)
    requires Live(st, name) && Told(k, seen) == Ready
    ensures Truthful(k, Ctl(st, AfterList(ns, k, st.crs, name)), name, seen)
  {
    ElectFinds(st.crs, name, "");
    BranchTruthful(ns, k, st, st.crs[Find(st.crs, name)], name, seen);
  }

  lemma ExactUpdate(st: Store, children: Children, nodes: seq<Node>, call: Call, cr: Cr, condition: Condition, finalizer: bool)
    requires Exact(st, cr) && !cr.deleting
    requires call == if finalizer == cr.finalizer then UpdateStatus(cr, condition) else UpdateFinalizer(cr, finalizer)
    requires finalizer == cr.finalizer || condition == cr.condition
    ensures var e := Exec(st, children, nodes, call, Fine);
            && e.reply == Written(cr.(condition := condition, finalizer := finalizer, version := st.tick))
            && Exact(e.store, e.reply.cr)
  {
    WriteExact(st, cr, condition, finalizer);
  }

  /** A write with an up-to-date copy succeeds and leaves an up-to-date copy. */
  lemma ExactWrite(c: Ctl, children: Children, nodes: seq<Node>)
    requires AboutCrs(c.pc) && !c.pc.Listing? && Exact(c.store, c.pc.cr) && !c.pc.cr.deleting
    ensures var e := Exec(c.store, children, nodes, NextCall(c.pc), Fine);
            && e.reply.Written? && Exact(e.store, e.reply.cr) && e.reply.cr.name == c.pc.cr.name && !e.reply.cr.deleting
            && e.reply.cr.uid == c.pc.cr.uid && e.reply.cr.spec == c.pc.cr.spec
            && (c.pc.Reporting? ==> e.reply.cr.condition == c.pc.condition)
  {
    match NextCall(c.pc) {
      case UpdateStatus(cr, condition) => ExactUpdate(c.store, children, nodes, NextCall(c.pc), cr, condition, cr.finalizer);
      case UpdateFinalizer(cr, finalizer) =>
        if finalizer == cr.finalizer {
          WriteExact(c.store, cr, cr.condition, finalizer);
        } else {
          ExactUpdate(c.store, children, nodes, NextCall(c.pc), cr, cr.condition, finalizer);
        }
    }
  }

  lemma ResumeTruthful(ns: string, k: Kind, pc: Pc, st: Store, reply: Reply, name: string, seen: Seen)
    requires pc.Claiming? || pc.Starting? || pc.Retrying? || pc.Reporting?
    requires reply.Written? && Exact(st, reply.cr) && reply.cr.name == name && !reply.cr.deleting
    requires if pc.Reporting? then reply.cr.condition == pc.condition == Told(k, seen) && (pc.requeue <==> pc.condition == Discovery)
             else Told(k, seen) == Ready
    ensures Truthful(k, Ctl(st, Resume(ns, k, pc, reply)), name, seen)
  {
    if !pc.Reporting? { BranchTruthful(ns, k, st, reply.cr, name, seen); }
  }

  lemma WriteTruthful(ns: string, k: Kind, c: Ctl, children: Children, nodes: seq<Node>, name: string, seen: Seen)
    requires Truthful(k, c, name, seen) && AboutCrs(c.pc)
    ensures Truthful(k, TakeTurn(ns, k, c, children, nodes, Fine).ctl, name, seen)
  {
    if c.pc.Listing? {
      ListingTruthful(ns, k, c.store, name, seen);
    } else {
      var e := Exec(c.store, children, nodes, NextCall(c.pc), Fine);
      ExactWrite(c, children, nodes);
      ResumeTruthful(ns, k, c.pc, e.store, e.reply, name, seen);
    }
  }

  lemma {:induction false} FillTruthful(ns: string, k: Kind, c: Ctl, reply: Reply, name: string, seen: Seen)
    requires Truthful(k, c, name, seen) && HasCall(c.pc) && c.pc.Filling?
    ensures var seen' := seen.(failed := seen.failed || Fails(NextCall(c.pc), reply));
            Truthful(k, Ctl(c.store, AfterFill(ns, k, c.pc, reply)), name, seen')
  {
    ConcludeTruthful(k, c.store, c.pc.cr, name, seen.(failed := true));
    ContinueTruthful(ns, k, c.store, c.pc.cr, name, c.pc.todo[1..], c.pc.rest, seen);
  }

  lemma {:induction false} ScanTruthful(ns: string, k: Kind, c: Ctl, reply: Reply, name: string, seen: Seen)
    requires Truthful(k, c, name, seen) && c.pc.Scanning? && (reply.Nodes? || reply.Failed?)
    ensures var seen' := Seen(seen.failed || reply.Failed?, seen.waiting || (reply.Nodes? && SomeUndiscovered(reply.nodes)));
            Truthful(k, Ctl(c.store, Resume(ns, k, c.pc, reply)), name, seen')
  {
    var cr := c.pc.cr;
    if reply.Failed? {
      ConcludeTruthful(k, c.store, cr, name, seen.(failed := true));
    } else if k.Gdrdrv? {
      ContinueTruthful(ns, k, c.store, cr, name, [], ThenRange(CudaVersions(reply.nodes)),
                       seen.(waiting := seen.waiting || SomeUndiscovered(reply.nodes)));
    } else if SomeUndiscovered(reply.nodes) {
      ConcludeTruthful(k, c.store, cr, name, seen.(waiting := true));
    }
  }

  lemma ReadReplies(st: Store, children: Children, nodes: seq<Node>, call: Call, fault: Fault)
    requires call.GetChild? || call.CreateChild? || call.ListNodes?
    ensures var e := Exec(st, children, nodes, call, fault);
            && e.store == st && (e.reply.Nodes? ==> call.ListNodes?)
            && (call.ListNodes? ==> e.reply.Nodes? || e.reply.Failed?)
  {
  }

  lemma {:induction false} OwnTruthful(s: System, k: Kind, fault: Fault, name: string, seen: Seen)
    requires Truthful(k, Side(s, k), name, seen) && Undisturbed(s, k, Api(k, fault))
    ensures Truthful(k, Side(Step(s, Api(k, fault)), k), name, Observe(s, k, Api(k, fault), seen))
  {
    var c := Side(s, k);
    StepSide(s, Api(k, fault), k);
    if HasCall(c.pc) {
      var e := Exec(c.store, s.children, s.nodes, NextCall(c.pc), fault);
      if AboutCrs(c.pc) {
        WriteTruthful(s.ns, k, c, s.children, s.nodes, name, seen);
      } else {
        ReadReplies(c.store, s.children, s.nodes, NextCall(c.pc), fault);
        if c.pc.Filling? {
          FillTruthful(s.ns, k, c, e.reply, name, seen);
        } else {
          ScanTruthful(s.ns, k, c, e.reply, name, seen);
        }
      }
    }
  }

  lemma StepTruthful(s: System, a: Action, k: Kind, name: string, seen: Seen)
    requires Truthful(k, Side(s, k), name, seen) && Undisturbed(s, k, a)
    ensures Truthful(k, Side(Step(s, a), k), name, Observe(s, k, a, seen))
  {
    var c := Side(s, k);
    StepSide(s, a, k);
    if a.Api? && a.k == k {
      OwnTruthful(s, k, a.fault, name, seen);
    } else if a.Pick? && a.k == k && c.pc.Ranging? && a.version in c.pc.versions {
      ContinueTruthful(s.ns, k, c.store, c.pc.cr, name, CudaPair(k, c.pc.cr, a.version, c.pc.versions[a.version]),
                       ThenRange(c.pc.versions - {a.version}), seen);
    }
  }

  /** For every cluster, node list and schedule of faults: when the reconcile has ended, the
      stored condition of the resource is Error if and only if a step reported a failure,
      DeviceDiscovery if and only if none did, the resource is an EfaDriver and some listed
      node with a kernel version lacked its device count, Ready otherwise; and a requeue is
      asked for exactly with DeviceDiscovery. */
  lemma {:induction false} StatusFaithful(s: System, run: seq<Action>, k: Kind, name: string)
    requires UndisturbedRun(s, run, k) && Side(s, k).pc == Listing(name) && Live(Side(s, k).store, name)
    ensures Truthful(k, Side(Run(s, run), k), name, SeenBy(s, run, k))
    ensures var c := Side(Run(s, run), k);
            var i := Find(c.store.crs, name);
            c.pc.Idle? ==>
              && i < |c.store.crs| && c.store.crs[i].condition == Told(k, SeenBy(s, run, k))
              && c.pc.outcome == (if c.store.crs[i].condition == Discovery then Requeued else Finished)
    decreases |run|
  {
    if run != [] {
      var r := run[..|run| - 1];
      StatusFaithful(s, r, k, name);
      StepTruthful(Run(s, r), run[|run| - 1], k, name, SeenBy(s, r, k));
    }
  }

  // ----- a GdrdrvDriver never waits -----

  predicate NoneWaits(crs: seq<Cr>) {
    forall i :: 0 <= i < |crs| ==> crs[i].condition != Discovery
  }

  /** No stored resource, no local copy and no outcome speaks of node discovery. */
  predicate Unwaiting(c: Ctl) {
    && NoneWaits(c.store.crs)
    && (match c.pc
        case Idle(outcome) => outcome != Requeued
        case Listing(_) => true
        case Reporting(cr, condition, requeue) => cr.condition != Discovery && condition != Discovery && !requeue
        case _ => c.pc.cr.condition != Discovery)
  }

  lemma WriteUnwaiting(st: Store, cr: Cr, condition: Condition, finalizer: bool)
    requires NoneWaits(st.crs) && condition != Discovery
    ensures var (st', reply) := Write(st, cr, condition, finalizer);
            NoneWaits(st'.crs) && (reply.Written? ==> reply.cr.condition != Discovery)
  {
  }

  lemma {:induction false} ExecUnwaiting(c: Ctl, children: Children, nodes: seq<Node>, fault: Fault)
    requires Unwaiting(c) && HasCall(c.pc)
    ensures var e := Exec(c.store, children, nodes, NextCall(c.pc), fault);
            && NoneWaits(e.store.crs) && (e.reply.Written? ==> e.reply.cr.condition != Discovery)
            && (e.reply.Crs? ==> e.reply.items == c.store.crs)
  {
    match NextCall(c.pc) {
      case UpdateStatus(cr, condition) => WriteUnwaiting(c.store, cr, condition, cr.finalizer);
      case UpdateFinalizer(cr, finalizer) => WriteUnwaiting(c.store, cr, cr.condition, finalizer);
      case _ =>
    }
  }

  lemma {:induction false} ElectedUnwaiting(items: seq<Cr>, name: string, deployed: string)
    requires NoneWaits(items)
    ensures var e := Elect(items, name, deployed); e.found.Some? ==> e.found.value.condition != Discovery
  {
    if items != [] && items[0].name != name {
      ElectedUnwaiting(items[1..], name, if items[0].condition != Ignored then items[0].name else deployed);
    }
  }

  lemma ResumeUnwaiting(ns: string, c: Ctl, st: Store, reply: Reply)
    requires Unwaiting(c) && HasCall(c.pc) && NoneWaits(st.crs)
    requires reply.Written? ==> reply.cr.condition != Discovery
    requires reply.Crs? ==> NoneWaits(reply.items)
    ensures Unwaiting(Ctl(st, Resume(ns, Gdrdrv, c.pc, reply)))
  {
    if c.pc.Listing? && reply.Crs? { ElectedUnwaiting(reply.items, c.pc.name, ""); }
  }

  lemma StepUnwaiting(s: System, a: Action)
    requires Unwaiting(s.gdrdrv)
    ensures Unwaiting(Step(s, a).gdrdrv)
  {
    var c := s.gdrdrv;
    StepSide(s, a, Gdrdrv);
    if a.Api? && a.k.Gdrdrv? && HasCall(c.pc) {
      ExecUnwaiting(c, s.children, s.nodes, a.fault);
      var e := Exec(c.store, s.children, s.nodes, NextCall(c.pc), a.fault);
      ResumeUnwaiting(s.ns, c, e.store, e.reply);
    }
  }

  /** In every state of every run, whatever the nodes and the faults: no stored GdrdrvDriver is in
      DeviceDiscovery, its controller is not about to write that condition, and no reconcile of
      one has ended with a requeue. */
  lemma {:induction false} GdrdrvNeverWaits(ns: string, nodes: seq<Node>, run: seq<Action>)
    ensures var c := Run(Initial(ns, nodes), run).gdrdrv;
            && (forall i :: 0 <= i < |c.store.crs| ==> c.store.crs[i].condition != Discovery)
            && (c.pc.Reporting? ==> c.pc.condition != Discovery && !c.pc.requeue)
            && c.pc != Idle(Requeued) && Unwaiting(c)
    decreases |run|
  {
    if run != [] {
      GdrdrvNeverWaits(ns, nodes, run[..|run| - 1]);
      StepUnwaiting(Run(Initial(ns, nodes), run[..|run| - 1]), run[|run| - 1]);
    }
  }

  // ----- when an error is returned -----

  predicate IsWrite(call: Call) {
    call.UpdateStatus? || call.UpdateFinalizer?
  }

  /** In this step a write of a custom resource by the controller of kind k is not accepted. */
  predicate WriteFails(s: System, a: Action, k: Kind) {
    && a.Api? && a.k == k && HasCall(Side(s, k).pc)
    && IsWrite(NextCall(Side(s, k).pc)) && !ReplyTo(s, k, a.fault).Written?
  }

  ghost predicate SomeWriteFails(s: System, run: seq<Action>, k: Kind) {
    exists i :: 0 <= i < |run| && WriteFails(Run(s, run[..i]), run[i], k)
  }

  /** The run takes on no further request for the kind, and the operator does not crash. */
  predicate OneRequest(run: seq<Action>, k: Kind) {
    forall i :: 0 <= i < |run| ==> ((run[i].Start? || run[i].Crash?) ==> run[i].k != k)
  }

  /** One call ends a reconcile with an error exactly when it is such a write. */
  lemma ErroredStep(ns: string, k: Kind, pc: Pc, reply: Reply)
    requires HasCall(pc)
    ensures Resume(ns, k, pc, reply) == Idle(Errored) <==> IsWrite(NextCall(pc)) && !reply.Written?
  {
  }

  lemma StepErrors(s: System, a: Action, k: Kind, failed: bool)
    requires (a.Start? || a.Crash?) ==> a.k != k
    requires failed <==> Side(s, k).pc == Idle(Errored)
    ensures (failed || WriteFails(s, a, k)) <==> Side(Step(s, a), k).pc == Idle(Errored)
  {
    var c := Side(s, k);
    StepSide(s, a, k);
    if a.Api? && a.k == k && HasCall(c.pc) { ErroredStep(s.ns, k, c.pc, ReplyTo(s, k, a.fault)); }
  }

  lemma SomeWriteFailsGrows(s: System, run: seq<Action>, a: Action, k: Kind)
    ensures SomeWriteFails(s, run + [a], k) <==> SomeWriteFails(s, run, k) || WriteFails(Run(s, run), a, k)
  {
    var longer := run + [a];
    assert longer[..|run|] == run && longer[|run|] == a;
    forall i | 0 <= i < |run| ensures WriteFails(Run(s, longer[..i]), longer[i], k) <==> WriteFails(Run(s, run[..i]), run[i], k) {
      assert longer[..i] == run[..i];
    }
  }

  /** Reconcile returns an error exactly when a write of the custom resource was not accepted in it,
      for every state it starts from, every fault and whatever others do meanwhile. A failed
      listing and failed calls about children or nodes play no part. */
  lemma {:induction false} ErroredIff(s: System, run: seq<Action>, k: Kind)
    requires OneRequest(run, k) && !Side(s, k).pc.Idle?
    ensures Side(Run(s, run), k).pc == Idle(Errored) <==> SomeWriteFails(s, run, k)
    decreases |run|
  {
    if run != [] {
      var r, a := run[..|run| - 1], run[|run| - 1];
      ErroredIff(s, r, k);
      StepErrors(Run(s, r), a, k, SomeWriteFails(s, r, k));
      SomeWriteFailsGrows(s, r, a, k);
      assert run == r + [a];
    }
  }

  lemma {:induction false} StaysIdle(s: System, run: seq<Action>, k: Kind)
    requires OneRequest(run, k) && Side(s, k).pc.Idle?
    ensures Side(Run(s, run), k).pc == Side(s, k).pc
    decreases |run|
  {
    if run != [] {
      StaysIdle(s, run[..|run| - 1], k);
      StepSide(Run(s, run[..|run| - 1]), run[|run| - 1], k);
    }
  }

  /** A failed listing ends the reconcile without an error, as an empty list does. */
  lemma {:induction false} FailedListingEnds(s: System, k: Kind, fault: Fault, later: seq<Action>)
    requires Side(s, k).pc.Listing? && fault != Fine && OneRequest(later, k)
    ensures Side(Run(Step(s, Api(k, fault)), later), k).pc == Idle(Skipped)
  {
    StepSide(s, Api(k, fault), k);
    StaysIdle(Step(s, Api(k, fault)), later, k);
  }

  /** The call about a child or the nodes counts as failed. A teardown tolerates a missing object. */
  predicate CallFails(pc: Pc, reply: Reply)
    requires HasCall(pc)
  {
    if pc.Tearing? then reply.Failed? && reply.err != NotFound else Fails(NextCall(pc), reply)
  }

  lemma ScanConcludes(ns: string, k: Kind, cr: Cr, nodes: seq<Node>)
    ensures AfterScan(ns, k, cr, nodes) != Reporting(cr, Error, false)
  {
  }

  /** A call about a child or the nodes, in CreateCluster or DeleteCluster, sends the controller to the
      status write of Error exactly when it counts as failed; the outcome is then that of this write. */
  lemma {:induction false} FailedCallIsReported(s: System, k: Kind, fault: Fault)
    requires HasCall(Side(s, k).pc)
    requires Side(s, k).pc.Filling? || Side(s, k).pc.Scanning? || Side(s, k).pc.Tearing?
    ensures var pc := Side(s, k).pc;
            Side(Step(s, Api(k, fault)), k).pc == Reporting(pc.cr, Error, false) <==> CallFails(pc, ReplyTo(s, k, fault))
  {
    var c := Side(s, k);
    StepSide(s, Api(k, fault), k);
    if c.pc.Scanning? {
      ReadReplies(c.store, s.children, s.nodes, ListNodes, fault);
      ScanConcludes(s.ns, k, c.pc.cr, s.nodes);
    }
  }

  /** A failed step of CreateCluster shows up as the stored condition and in nothing else: the
      reconcile ends like a successful one. */
  lemma {:induction false} FailureOnlyInStatus(s: System, run: seq<Action>, k: Kind, name: string)
    requires UndisturbedRun(s, run, k) && Side(s, k).pc == Listing(name) && Live(Side(s, k).store, name)
    requires Side(Run(s, run), k).pc.Idle? && SeenBy(s, run, k).failed
    ensures var c := Side(Run(s, run), k);
            var i := Find(c.store.crs, name);
            c.pc == Idle(Finished) && i < |c.store.crs| && c.store.crs[i].condition == Error
  {
    StatusFaithful(s, run, k, name);
  }

  // ----- what a failed teardown leaves -----

  /** In this step a call of the teardown counts as failed. */
  predicate TearFails(s: System, a: Action, k: Kind) {
    && a.Api? && a.k == k && Side(s, k).pc.Tearing? && HasCall(Side(s, k).pc)
    && CallFails(Side(s, k).pc, ReplyTo(s, k, a.fault))
  }

  predicate SomeTearFails(s: System, run: seq<Action>, k: Kind)
    decreases |run|
  {
    run != [] && (SomeTearFails(s, run[..|run| - 1], k) || TearFails(Run(s, run[..|run| - 1]), run[|run| - 1], k))
  }

  /** The local copy is the stored form of the resource that is being deleted. */
  ghost predicate Deletes(st: Store, cr: Cr, name: string) {
    && cr.name == name && Exact(st, cr) && cr.deleting && cr.finalizer
    && forall i, j :: 0 <= i < j < |st.crs| ==> st.crs[i].name != st.crs[j].name
  }

  /** Still listed, with the finalizer and as an Error; or gone. */
  predicate Left(st: Store, name: string, failed: bool) {
    var i := Find(st.crs, name);
    if failed then i < |st.crs| && st.crs[i].condition == Error && st.crs[i].finalizer && st.crs[i].deleting
    else i == |st.crs|
  }

  /** Where the reconcile of a resource that is being deleted is, given whether a deletion failed. */
  ghost predicate Dying(c: Ctl, name: string, failed: bool) {
    match c.pc
    case Listing(n) => n == name && Condemned(c.store, name) && !failed
    case Retiring(cr) => Deletes(c.store, cr, name) && !failed
    case Tearing(cr, steps, _) => Deletes(c.store, cr, name) && steps != [] && !failed
    case Releasing(cr) => Deletes(c.store, cr, name) && !failed
    case Reporting(cr, condition, requeue) => Deletes(c.store, cr, name) && condition == Error && !requeue && failed
    case Idle(outcome) => outcome == Finished && Left(c.store, name, failed)
    case _ => false
  }

  lemma ListingDies(ns: string, k: Kind, st: Store, name: string)
    requires Condemned(st, name)
    ensures Dying(Ctl(st, AfterList(ns, k, st.crs, name)), name, false)
  {
    ElectFinds(st.crs, name, "");
  }

  lemma GoneByName(crs: seq<Cr>, i: nat, name: string)
    requires i < |crs| && crs[i].name == name && forall m, j :: 0 <= m < j < |crs| ==> crs[m].name != crs[j].name
    ensures Find(RemoveAt(crs, i), name) == |RemoveAt(crs, i)|
  {
    var fewer := RemoveAt(crs, i);
    assert forall m :: 0 <= m < |fewer| ==> fewer[m] == crs[if m < i then m else m + 1];
  }

  lemma WriteDies(ns: string, k: Kind, c: Ctl, children: Children, nodes: seq<Node>, name: string, failed: bool)
    requires Dying(c, name, failed) && (c.pc.Retiring? || c.pc.Releasing? || c.pc.Reporting?)
    ensures Dying(TakeTurn(ns, k, c, children, nodes, Fine).ctl, name, failed)
  {
    match c.pc {
      case Retiring(cr) => WriteExact(c.store, cr, Deleting, cr.finalizer);
      case Releasing(cr) =>
        WriteExact(c.store, cr, cr.condition, false);
        GoneByName(c.store.crs, Find(c.store.crs, name), name);
      case Reporting(cr, condition, _) => WriteExact(c.store, cr, condition, cr.finalizer);
    }
  }

  lemma TearDies(c: Ctl, e: Effect, name: string)
    requires Dying(c, name, false) && c.pc.Tearing? && e.store == c.store
    ensures Dying(Ctl(e.store, AfterTear(c.pc, e.reply)), name, CallFails(c.pc, e.reply))
  {
  }

  lemma {:induction false} StepDies(s: System, a: Action, k: Kind, name: string, failed: bool)
    requires Dying(Side(s, k), name, failed) && Undisturbed(s, k, a)
    ensures Dying(Side(Step(s, a), k), name, failed || TearFails(s, a, k))
  {
    var c := Side(s, k);
    StepSide(s, a, k);
    if a.Api? && a.k == k && HasCall(c.pc) {
      if c.pc.Listing? {
        ListingDies(s.ns, k, c.store, name);
      } else if c.pc.Tearing? {
        ExecReads(c.store, s.children, s.nodes, NextCall(c.pc), a.fault);
        TearDies(c, Exec(c.store, s.children, s.nodes, NextCall(c.pc), a.fault), name);
      } else {
        WriteDies(s.ns, k, c, s.children, s.nodes, name, failed);
      }
    }
  }

  /** The deletion's counterpart: a reconcile of a resource that is being deleted, with the calls about
      custom resources succeeding and any faults of the others, ends without an error; and it leaves the
      resource listed, as an Error and with its finalizer, exactly when a deletion failed. Otherwise the
      resource is gone. */
  lemma {:induction false} TeardownFaithful(s: System, run: seq<Action>, k: Kind, name: string)
    requires UndisturbedRun(s, run, k) && Side(s, k).pc == Listing(name) && Condemned(Side(s, k).store, name)
    ensures Dying(Side(Run(s, run), k), name, SomeTearFails(s, run, k))
    ensures var c := Side(Run(s, run), k);
            c.pc.Idle? ==> c.pc.outcome == Finished && Left(c.store, name, SomeTearFails(s, run, k))
    decreases |run|
  {
    if run != [] {
      var r := run[..|run| - 1];
      TeardownFaithful(s, r, k, name);
      StepDies(Run(s, r), run[|run| - 1], k, name, SomeTearFails(s, r, k));
    }
  }
}
