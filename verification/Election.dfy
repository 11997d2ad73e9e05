/** Election converges: with a fixed list of resources, every resource that is reconciled ends up
    Ignored, except the first that was not Ignored to begin with; and only that one is built. */
module Election {
  import opened Api
  import opened Planning
  import opened Protocol
  import opened Holding
  import opened Exactness
  import opened Status

  /** `crs` is `crs0` with at most versions, conditions and finalizers changed; exactly the
      resource at `first` is the first that is not Ignored. */
  ghost predicate SameList(crs0: seq<Cr>, crs: seq<Cr>, first: nat) {
    && |crs| == |crs0| && first < |crs|
    && (forall i :: 0 <= i < |crs| ==> crs[i].name == crs0[i].name && crs[i].name != "")
    && (forall i, j :: 0 <= i < j < |crs| ==> crs[i].name != crs[j].name)
    && (forall i :: 0 <= i < first ==> crs[i].condition == Ignored)
    && (forall i :: 0 <= i < |crs| ==> !crs[i].deleting)
    && crs[first].condition != Ignored
  }

  /** Calls about custom resources succeed; none is created or deleted; the operator runs on. */
  predicate Calm(s: System, k: Kind, a: Action) {
    match a
    case Api(k', fault) => k' == k && AboutCrs(Side(s, k).pc) ==> fault == Fine
    case Crash(k') => k' != k
    case CreateCr(k', _, _, _) => k' != k
    case RequestDelete(k', _) => k' != k
    case _ => true
  }

  ghost predicate CalmRun(s: System, run: seq<Action>, k: Kind)
    decreases |run|
  {
    run == [] || (CalmRun(s, run[..|run| - 1], k) && Calm(Run(s, run[..|run| - 1]), k, run[|run| - 1]))
  }

  /** The controller idles, lists, sets a later resource to Ignored, or works for the first. */
  ghost predicate Electing(c: Ctl, crs0: seq<Cr>, first: nat) {
    && SameList(crs0, c.store.crs, first)
    && (match c.pc
        case Idle(_) => true
        case Listing(_) => true
        case Ignoring(cr) => Exact(c.store, cr) && Find(c.store.crs, cr.name) > first && !cr.deleting
        case Retiring(_) => false
        case Tearing(_, _, _) => false
        case Releasing(_) => false
        case _ => Exact(c.store, c.pc.cr) && c.pc.cr.name == crs0[first].name && !c.pc.cr.deleting
                  && (c.pc.Reporting? ==> c.pc.condition != Ignored))
  }

  lemma FirstIsFound(crs0: seq<Cr>, crs: seq<Cr>, first: nat)
    requires SameList(crs0, crs, first)
    ensures Find(crs, crs0[first].name) == first
  {
  }

  lemma ListingElects(ns: string, k: Kind, st: Store, crs0: seq<Cr>, first: nat, name: string)
    requires SameList(crs0, st.crs, first)
    ensures Electing(Ctl(st, AfterList(ns, k, st.crs, name)), crs0, first)
    ensures var pc := AfterList(ns, k, st.crs, name);
            var i := Find(st.crs, name);
            i < |st.crs| && i != first ==>
              if st.crs[i].condition == Ignored then pc == Idle(Skipped) else pc == Ignoring(st.crs[i])
  {
    ElectFinds(st.crs, name, "");
    FirstIsFound(crs0, st.crs, first);
  }

  lemma WriteElects(c: Ctl, crs0: seq<Cr>, first: nat, condition: Condition, finalizer: bool)
    requires Electing(c, crs0, first) && AboutCrs(c.pc) && !c.pc.Listing?
    requires !c.pc.Ignoring? ==> condition != Ignored
    ensures var (st', reply) := Write(c.store, c.pc.cr, condition, finalizer);
            && SameList(crs0, st'.crs, first) && reply.Written? && Exact(st', reply.cr)
            && reply.cr == c.pc.cr.(condition := condition, finalizer := finalizer, version := c.store.tick)
            && (forall i :: 0 <= i < |st'.crs| ==>
                  st'.crs[i] == if st'.crs[i].name == c.pc.cr.name then reply.cr else c.store.crs[i])
  {
    WriteExact(c.store, c.pc.cr, condition, finalizer);
    FirstIsFound(crs0, c.store.crs, first);
  }

  /** The controller works for the first resource. */
  ghost predicate Serving(st: Store, crs0: seq<Cr>, first: nat, cr: Cr) {
    SameList(crs0, st.crs, first) && Exact(st, cr) && cr.name == crs0[first].name && !cr.deleting
  }

  lemma BranchElects(ns: string, k: Kind, st: Store, crs0: seq<Cr>, first: nat, cr: Cr)
    requires Serving(st, crs0, first, cr)
    ensures Electing(Ctl(st, Branch(ns, k, cr)), crs0, first) && Electing(Ctl(st, Build(ns, k, cr)), crs0, first)
  {
  }

  lemma ContinueElects(ns: string, k: Kind, st: Store, crs0: seq<Cr>, first: nat, cr: Cr, todo: seq<Child>, rest: Rest)
    requires Serving(st, crs0, first, cr)
    ensures Electing(Ctl(st, Conclude(cr, Error)), crs0, first) && Electing(Ctl(st, Conclude(cr, Discovery)), crs0, first)
    ensures Electing(Ctl(st, Continue(ns, k, cr, todo, rest)), crs0, first)
  {
  }

  lemma ResumeElects(ns: string, k: Kind, pc: Pc, reply: Reply, st: Store, crs0: seq<Cr>, first: nat)
    requires HasCall(pc) && (pc.Claiming? || pc.Starting? || pc.Retrying? || pc.Reporting?)
    requires reply.Written? && Serving(st, crs0, first, reply.cr)
    ensures Electing(Ctl(st, Resume(ns, k, pc, reply)), crs0, first)
  {
    BranchElects(ns, k, st, crs0, first, reply.cr);
  }

  lemma IgnoringElects(c: Ctl, crs0: seq<Cr>, first: nat)
    requires Electing(c, crs0, first) && c.pc.Ignoring?
    ensures var (st', reply) := Write(c.store, c.pc.cr, Ignored, c.pc.cr.finalizer);
            var i := Find(st'.crs, c.pc.cr.name);
            SameList(crs0, st'.crs, first) && reply.Written? && i < |st'.crs| && st'.crs[i].condition == Ignored
  {
    WriteElects(c, crs0, first, Ignored, c.pc.cr.finalizer);
  }

  lemma {:induction false} ServingWrites(c: Ctl, children: Children, nodes: seq<Node>, crs0: seq<Cr>, first: nat)
    requires Electing(c, crs0, first) && AboutCrs(c.pc) && !c.pc.Listing? && !c.pc.Ignoring?
    ensures var e := Exec(c.store, children, nodes, NextCall(c.pc), Fine);
            && e.reply.Written? && Serving(e.store, crs0, first, e.reply.cr)
            && (forall i :: 0 <= i < |e.store.crs| && e.store.crs[i].name != c.pc.cr.name ==> e.store.crs[i] == c.store.crs[i])
  {
    FirstIsFound(crs0, c.store.crs, first);
    match NextCall(c.pc) {
      case UpdateStatus(cr, condition) => WriteElects(c, crs0, first, condition, cr.finalizer);
      case UpdateFinalizer(cr, finalizer) => WriteElects(c, crs0, first, cr.condition, finalizer);
    }
  }

  /** A write of the controller, and how its reconcile goes on. */
  lemma {:induction false} WriteTurnElects(ns: string, k: Kind, c: Ctl, children: Children, nodes: seq<Node>, crs0: seq<Cr>, first: nat)
    requires Electing(c, crs0, first) && AboutCrs(c.pc) && !c.pc.Listing?
    ensures var c' := TakeTurn(ns, k, c, children, nodes, Fine).ctl;
            && Electing(c', crs0, first)
            && (forall i :: 0 <= i < |c'.store.crs| && c'.store.crs[i].name != c.pc.cr.name ==> c'.store.crs[i] == c.store.crs[i])
            && (c.pc.Ignoring? ==> var i := Find(c'.store.crs, c.pc.cr.name);
                                   i < |c'.store.crs| && c'.store.crs[i].condition == Ignored)
  {
    var e := Exec(c.store, children, nodes, NextCall(c.pc), Fine);
    if c.pc.Ignoring? {
      IgnoringElects(c, crs0, first);
      WriteElects(c, crs0, first, Ignored, c.pc.cr.finalizer);
    } else {
      ServingWrites(c, children, nodes, crs0, first);
      ResumeElects(ns, k, c.pc, e.reply, e.store, crs0, first);
    }
  }

  lemma ReadTurnElects(ns: string, k: Kind, c: Ctl, children: Children, nodes: seq<Node>, fault: Fault, crs0: seq<Cr>, first: nat)
    requires Electing(c, crs0, first) && HasCall(c.pc) && !AboutCrs(c.pc)
    ensures var c' := TakeTurn(ns, k, c, children, nodes, fault).ctl; c'.store == c.store && Electing(c', crs0, first)
  {
    var e := Exec(c.store, children, nodes, NextCall(c.pc), fault);
    ReadReplies(c.store, children, nodes, NextCall(c.pc), fault);
    if c.pc.Filling? {
      ContinueElects(ns, k, c.store, crs0, first, c.pc.cr, c.pc.todo[1..], c.pc.rest);
    } else {
      ContinueElects(ns, k, c.store, crs0, first, c.pc.cr, [],
                     if e.reply.Nodes? then ThenRange(CudaVersions(e.reply.nodes)) else ThenEnd);
    }
  }

  lemma StepElects(s: System, a: Action, k: Kind, crs0: seq<Cr>, first: nat)
    requires Electing(Side(s, k), crs0, first) && Calm(s, k, a)
    ensures Electing(Side(Step(s, a), k), crs0, first)
  {
    var c := Side(s, k);
    StepSide(s, a, k);
    if a.Api? && a.k == k && HasCall(c.pc) {
      if c.pc.Listing? {
        ListingElects(s.ns, k, c.store, crs0, first, c.pc.name);
      } else if AboutCrs(c.pc) {
        WriteTurnElects(s.ns, k, c, s.children, s.nodes, crs0, first);
      } else {
        ReadTurnElects(s.ns, k, c, s.children, s.nodes, a.fault, crs0, first);
      }
    }
  }

  // ----- a request that is served -----

  /** The resource at `i` is being reconciled or is Ignored already. */
  ghost predicate Losing(c: Ctl, i: nat) {
    && i < |c.store.crs|
    && (c.store.crs[i].condition == Ignored || c.pc == Listing(c.store.crs[i].name)
        || (c.pc.Ignoring? && c.pc.cr.name == c.store.crs[i].name))
  }

  lemma StepLoses(s: System, a: Action, k: Kind, crs0: seq<Cr>, first: nat, i: nat)
    requires Electing(Side(s, k), crs0, first) && Calm(s, k, a) && Losing(Side(s, k), i) && i != first
    ensures Losing(Side(Step(s, a), k), i)
  {
    var c := Side(s, k);
    StepSide(s, a, k);
    FirstIsFound(crs0, c.store.crs, first);
    if a.Api? && a.k == k && HasCall(c.pc) {
      if c.pc.Listing? {
        ListingElects(s.ns, k, c.store, crs0, first, c.pc.name);
      } else if AboutCrs(c.pc) {
        WriteTurnElects(s.ns, k, c, s.children, s.nodes, crs0, first);
      } else {
        ReadTurnElects(s.ns, k, c, s.children, s.nodes, a.fault, crs0, first);
      }
    }
  }

  lemma {:induction false} RunElects(s: System, run: seq<Action>, k: Kind, crs0: seq<Cr>, first: nat)
    requires Electing(Side(s, k), crs0, first) && CalmRun(s, run, k)
    ensures Electing(Side(Run(s, run), k), crs0, first)
    decreases |run|
  {
    if run != [] {
      RunElects(s, run[..|run| - 1], k, crs0, first);
      StepElects(Run(s, run[..|run| - 1]), run[|run| - 1], k, crs0, first);
    }
  }

  /** Somewhere in the run the idle controller takes on the request for `name`. */
  ghost predicate Requested(s: System, run: seq<Action>, k: Kind, name: string) {
    exists n :: 0 <= n < |run| && run[n] == Start(k, name) && Side(Run(s, run[..n]), k).pc.Idle?
  }

  lemma {:induction false} RunLoses(s: System, run: seq<Action>, k: Kind, crs0: seq<Cr>, first: nat, i: nat)
    requires Electing(Side(s, k), crs0, first) && CalmRun(s, run, k) && i < |crs0| && i != first
    requires Requested(s, run, k, crs0[i].name)
    ensures Losing(Side(Run(s, run), k), i)
    decreases |run|
  {
    var r, a := run[..|run| - 1], run[|run| - 1];
    RunElects(s, r, k, crs0, first);
    var n :| 0 <= n < |run| && run[n] == Start(k, crs0[i].name) && Side(Run(s, run[..n]), k).pc.Idle?;
    if n < |r| {
      assert r[..n] == run[..n];
      RunLoses(s, r, k, crs0, first, i);
      StepLoses(Run(s, r), a, k, crs0, first, i);
    } else {
      StepSide(Run(s, r), a, k);
    }
  }

  /** Take any state with an idle controller in which no resource is being deleted, and any run
      without faults of the calls about custom resources, interleaved with anything but creation
      and deletion of resources of the kind. Then the first resource that was not Ignored is not
      Ignored still, and it is the only one the controller ever builds for; and once the
      controller idles again, every other resource that was requested is Ignored. */
  lemma {:induction false} ElectionConverges(s: System, run: seq<Action>, k: Kind, first: nat)
    requires SameList(Side(s, k).store.crs, Side(s, k).store.crs, first) && Side(s, k).pc.Idle? && CalmRun(s, run, k)
    ensures var crs0, c := Side(s, k).store.crs, Side(Run(s, run), k);
            && SameList(crs0, c.store.crs, first)
            && (c.pc.Filling? || c.pc.Scanning? || c.pc.Ranging? || c.pc.Claiming? ==> c.pc.cr.name == crs0[first].name)
            && (c.pc.Idle? ==> forall i :: 0 <= i < |crs0| && i != first && Requested(s, run, k, crs0[i].name)
                                           ==> c.store.crs[i].condition == Ignored)
  {
    var crs0, c := Side(s, k).store.crs, Side(Run(s, run), k);
    RunElects(s, run, k, crs0, first);
    if c.pc.Idle? {
      forall i | 0 <= i < |crs0| && i != first && Requested(s, run, k, crs0[i].name)
        ensures c.store.crs[i].condition == Ignored
      {
        RunLoses(s, run, k, crs0, first, i);
      }
    }
  }
}
