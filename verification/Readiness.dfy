/** What Ready is worth: under any faults of the calls about children, Ready means that every
    wanted child is there, with one exception that the inverted guard of the DaemonSet creation
    causes: the DaemonSet may be missing when its creation failed. */
module Readiness {
  import opened Api
  import opened Planning
  import opened Protocol
  import opened Inventory
  import opened Holding
  import opened Exactness
  import opened Sides
  import opened Deletion
  import opened Healing
  import opened Status

  /** The creation of a DaemonSet fails in this step. */
  predicate Drops(s: System, a: Action, k: Kind) {
    && a.Api? && a.k == k && Side(s, k).pc.Filling? && Side(s, k).pc.todo != [] && Side(s, k).pc.missing
    && Side(s, k).pc.todo[0].key.res == DaemonSet && ReplyTo(s, k, a.fault).Failed?
  }

  /** Some creation of a DaemonSet in the run failed. */
  predicate Dropped(s: System, run: seq<Action>, k: Kind)
    decreases |run|
  {
    run != [] && (Dropped(s, run[..|run| - 1], k) || Drops(Run(s, run[..|run| - 1]), run[|run| - 1], k))
  }

  /** The child is there, or is a DaemonSet whose creation failed. */
  predicate There(child: Child, children: Children, dropped: bool) {
    child.key in children || (child.key.res == DaemonSet && dropped)
  }

  /** Every wanted child is there, in the list, or coming. */
  ghost predicate Due(ns: string, k: Kind, cr: Cr, nodes: seq<Node>, children: Children, todo: seq<Child>, rest: Rest, dropped: bool) {
    forall child :: Wanted(ns, k, cr, nodes, child)
                    ==> There(child, children, dropped) || child in todo || Coming(ns, k, cr, nodes, rest, child)
  }

  ghost predicate AllThere(ns: string, k: Kind, cr: Cr, nodes: seq<Node>, children: Children, dropped: bool) {
    forall child :: Wanted(ns, k, cr, nodes, child) ==> There(child, children, dropped)
  }

  ghost predicate Honest(ns: string, k: Kind, c: Ctl, nodes: seq<Node>, children: Children, want: Cr, dropped: bool) {
    match c.pc
    case Listing(name) => name == want.name && Live(c.store, name) && SameSpec(c.store.crs[Find(c.store.crs, name)], want)
    case Claiming(cr) => SameSpec(cr, want)
    case Starting(cr) => SameSpec(cr, want)
    case Retrying(cr) => SameSpec(cr, want)
    case Filling(cr, todo, _, rest) =>
      SameSpec(cr, want) && Due(ns, k, want, nodes, children, todo, rest, dropped) && (rest.ThenScan? ==> k.Efa?)
    case Scanning(cr) => SameSpec(cr, want) && (k.Efa? ==> Due(ns, k, want, nodes, children, [], ThenScan, dropped))
    case Ranging(cr, versions) => SameSpec(cr, want) && Due(ns, k, want, nodes, children, [], ThenRange(versions), dropped)
    case Reporting(cr, condition, _) =>
      SameSpec(cr, want) && (condition == Ready ==> AllThere(ns, k, want, nodes, children, dropped))
    case Idle(_) => StoredAs(c.store, want.name, Ready) ==> AllThere(ns, k, want, nodes, children, dropped)
    case _ => false
  }

  /** A plan for one version of a resource is the plan for another. */
  lemma PlansSame(ns: string, k: Kind, a: Cr, b: Cr, version: string, kernels: set<string>)
    requires SameSpec(a, b)
    ensures Tail(ns, k, a) == Tail(ns, k, b) && EfaHead(ns, a) == EfaHead(ns, b)
    ensures EfaKmm(a, kernels) == EfaKmm(b, kernels) && CudaPair(k, a, version, kernels) == CudaPair(k, b, version, kernels)
  {
  }

  lemma BuildHonest(ns: string, k: Kind, st: Store, nodes: seq<Node>, children: Children, cr: Cr, want: Cr, dropped: bool)
    requires Exact(st, cr) && SameSpec(cr, want) && !cr.deleting
    ensures Honest(ns, k, Ctl(st, Branch(ns, k, cr)), nodes, children, want, dropped)
    ensures Honest(ns, k, Ctl(st, Build(ns, k, cr)), nodes, children, want, dropped)
  {
    PlansSame(ns, k, cr, want, "", {});
  }

  lemma ConcludeHonest(ns: string, k: Kind, st: Store, nodes: seq<Node>, children: Children, cr: Cr, want: Cr,
                       condition: Condition, dropped: bool)
    requires Exact(st, cr) && SameSpec(cr, want)
    requires condition == Ready ==> AllThere(ns, k, want, nodes, children, dropped)
    ensures Honest(ns, k, Ctl(st, Conclude(cr, condition)), nodes, children, want, dropped)
  {
  }

  lemma ContinueHonest(ns: string, k: Kind, st: Store, nodes: seq<Node>, children: Children, cr: Cr, want: Cr,
                       todo: seq<Child>, rest: Rest, dropped: bool)
    requires Exact(st, cr) && SameSpec(cr, want)
    requires Due(ns, k, want, nodes, children, todo, rest, dropped) && (rest.ThenScan? ==> k.Efa?)
    ensures Honest(ns, k, Ctl(st, Continue(ns, k, cr, todo, rest)), nodes, children, want, dropped)
  {
    PlansSame(ns, k, cr, want, "", {});
    if todo == [] && rest.ThenEnd? {
      ConcludeHonest(ns, k, st, nodes, children, cr, want, Ready, dropped);
    }
  }

  lemma ScanHonest(ns: string, k: Kind, st: Store, nodes: seq<Node>, children: Children, cr: Cr, want: Cr, dropped: bool)
    requires Exact(st, cr) && SameSpec(cr, want)
    requires k.Efa? ==> Due(ns, k, want, nodes, children, [], ThenScan, dropped)
    ensures Honest(ns, k, Ctl(st, AfterScan(ns, k, cr, nodes)), nodes, children, want, dropped)
  {
    PlansSame(ns, k, cr, want, "", EfaKernels(nodes));
    if k.Gdrdrv? {
      ContinueHonest(ns, k, st, nodes, children, cr, want, [], ThenRange(CudaVersions(nodes)), dropped);
    } else {
      ConcludeHonest(ns, k, st, nodes, children, cr, want, Discovery, dropped);
    }
  }

  /** Nothing disappears in CreateCluster; what is left behind is there, or fails the reconcile. */
  lemma FillCases(ns: string, k: Kind, st: Store, pc: Pc, nodes: seq<Node>, children: Children, fault: Fault)
    requires pc.Filling? && pc.todo != []
    ensures var e := Exec(st, children, nodes, NextCall(pc), fault);
            var next := AfterFill(ns, k, pc, e.reply);
            && (forall key :: key in children ==> key in e.children)
            && (|| next == pc.(missing := true)
                || next == Conclude(pc.cr, Error)
                || (next == Continue(ns, k, pc.cr, pc.todo[1..], pc.rest)
                    && There(pc.todo[0], e.children, pc.missing && pc.todo[0].key.res == DaemonSet && e.reply.Failed?)))
  {
  }

  lemma DueAfter(ns: string, k: Kind, cr: Cr, nodes: seq<Node>, children: Children, children': Children,
                 todo: seq<Child>, rest: Rest, dropped: bool, dropped': bool)
    requires todo != [] && Due(ns, k, cr, nodes, children, todo, rest, dropped) && (dropped ==> dropped')
    requires forall key :: key in children ==> key in children'
    ensures Due(ns, k, cr, nodes, children', todo, rest, dropped')
    ensures There(todo[0], children', dropped') ==> Due(ns, k, cr, nodes, children', todo[1..], rest, dropped')
  {
    assert forall child :: child in todo ==> child == todo[0] || child in todo[1..];
  }

  lemma {:induction false} FillHonest(ns: string, k: Kind, c: Ctl, nodes: seq<Node>, children: Children, want: Cr, fault: Fault, dropped: bool)
    requires Honest(ns, k, c, nodes, children, want, dropped) && c.pc.Filling? && c.pc.todo != [] && Exact(c.store, c.pc.cr)
    ensures var e := Exec(c.store, children, nodes, NextCall(c.pc), fault);
            var dropped' := dropped || (c.pc.missing && c.pc.todo[0].key.res == DaemonSet && e.reply.Failed?);
            Honest(ns, k, Ctl(c.store, AfterFill(ns, k, c.pc, e.reply)), nodes, e.children, want, dropped')
  {
    var e := Exec(c.store, children, nodes, NextCall(c.pc), fault);
    var dropped' := dropped || (c.pc.missing && c.pc.todo[0].key.res == DaemonSet && e.reply.Failed?);
    var next := AfterFill(ns, k, c.pc, e.reply);
    FillCases(ns, k, c.store, c.pc, nodes, children, fault);
    DueAfter(ns, k, want, nodes, children, e.children, c.pc.todo, c.pc.rest, dropped, dropped');
    if next == Conclude(c.pc.cr, Error) {
      ConcludeHonest(ns, k, c.store, nodes, e.children, c.pc.cr, want, Error, dropped');
    } else if next != c.pc.(missing := true) {
      ContinueHonest(ns, k, c.store, nodes, e.children, c.pc.cr, want, c.pc.todo[1..], c.pc.rest, dropped');
    }
  }

  lemma ListingHonest(ns: string, k: Kind, st: Store, nodes: seq<Node>, children: Children, want: Cr, dropped: bool)
    requires Live(st, want.name) && SameSpec(st.crs[Find(st.crs, want.name)], want)
    ensures Honest(ns, k, Ctl(st, AfterList(ns, k, st.crs, want.name)), nodes, children, want, dropped)
  {
    ElectFinds(st.crs, want.name, "");
    BuildHonest(ns, k, st, nodes, children, st.crs[Find(st.crs, want.name)], want, dropped);
  }

  lemma ResumeHonest(ns: string, k: Kind, pc: Pc, st: Store, reply: Reply, nodes: seq<Node>, children: Children, want: Cr, dropped: bool)
    requires pc.Claiming? || pc.Starting? || pc.Retrying?
    requires reply.Written? && Exact(st, reply.cr) && SameSpec(reply.cr, want) && !reply.cr.deleting
    ensures Honest(ns, k, Ctl(st, Resume(ns, k, pc, reply)), nodes, children, want, dropped)
  {
    BuildHonest(ns, k, st, nodes, children, reply.cr, want, dropped);
  }

  lemma WriteHonest(ns: string, k: Kind, c: Ctl, nodes: seq<Node>, children: Children, want: Cr, dropped: bool)
    requires Honest(ns, k, c, nodes, children, want, dropped) && AboutCrs(c.pc)
    requires !c.pc.Listing? ==> Exact(c.store, c.pc.cr) && !c.pc.cr.deleting
    ensures Honest(ns, k, TakeTurn(ns, k, c, children, nodes, Fine).ctl, nodes, children, want, dropped)
  {
    if c.pc.Listing? {
      ListingHonest(ns, k, c.store, nodes, children, want, dropped);
    } else if c.pc.Reporting? {
      WriteExact(c.store, c.pc.cr, c.pc.condition, c.pc.cr.finalizer);
    } else {
      var e := Exec(c.store, children, nodes, NextCall(c.pc), Fine);
      ExactWrite(c, children, nodes);
      ResumeHonest(ns, k, c.pc, e.store, e.reply, nodes, children, want, dropped);
    }
  }

  lemma PickHonest(ns: string, k: Kind, c: Ctl, nodes: seq<Node>, children: Children, want: Cr, version: string, dropped: bool)
    requires Honest(ns, k, c, nodes, children, want, dropped) && (c.pc.Ranging? ==> Exact(c.store, c.pc.cr))
    ensures Honest(ns, k, c.(pc := Choose(ns, k, c.pc, version)), nodes, children, want, dropped)
  {
    if c.pc.Ranging? && version in c.pc.versions {
      var vs := c.pc.versions;
      PlansSame(ns, k, c.pc.cr, want, version, vs[version]);
      var pair := CudaPair(k, c.pc.cr, version, vs[version]);
      forall child | Coming(ns, k, want, nodes, ThenRange(vs), child)
        ensures child in pair || Coming(ns, k, want, nodes, ThenRange(vs - {version}), child)
      {
        PairsSplit(k, want, vs, version, child);
      }
      ContinueHonest(ns, k, c.store, nodes, children, c.pc.cr, want, pair, ThenRange(vs - {version}), dropped);
    }
  }

  // ----- interference -----

  lemma WantedOnSide(efaSccs: set<string>, ns: string, k: Kind, cr: Cr, nodes: seq<Node>, child: Child)
    requires CrApart(efaSccs, k, cr) && NodesTame(nodes) && Wanted(ns, k, cr, nodes, child)
    ensures SideOf(efaSccs, child.key) == k
  {
    KeysApart(efaSccs, ns, k, cr, if k.Efa? then "" else "0");
    if k.Gdrdrv? && child !in Tail(ns, k, cr) {
      var v :| v in CudaVersions(nodes) && child in CudaPair(k, cr, v, CudaVersions(nodes)[v]);
      KeysApart(efaSccs, ns, k, cr, v);
    }
  }

  /** Others may change the children, as long as they leave those of this side in place. */
  lemma OthersHonest(efaSccs: set<string>, ns: string, k: Kind, c: Ctl, nodes: seq<Node>, children: Children, children': Children, want: Cr, dropped: bool)
    requires Honest(ns, k, c, nodes, children, want, dropped)
    requires CrApart(efaSccs, k, want) && NodesTame(nodes)
    requires forall key :: key in children && SideOf(efaSccs, key) == k ==> key in children'
    ensures Honest(ns, k, c, nodes, children', want, dropped)
  {
    forall child | Wanted(ns, k, want, nodes, child) && There(child, children, dropped)
      ensures There(child, children', dropped)
    {
      WantedOnSide(efaSccs, ns, k, want, nodes, child);
    }
  }

  lemma ScanEffect(st: Store, children: Children, nodes: seq<Node>, fault: Fault)
    ensures var e := Exec(st, children, nodes, ListNodes, fault);
            e.store == st && e.children == children && (e.reply == Nodes(nodes) || e.reply.Failed?)
  {
  }

  lemma {:induction false} ScanTurnHonest(ns: string, k: Kind, c: Ctl, nodes: seq<Node>, children: Children, want: Cr, fault: Fault, dropped: bool)
    requires Honest(ns, k, c, nodes, children, want, dropped) && c.pc.Scanning? && Exact(c.store, c.pc.cr)
    ensures var t := TakeTurn(ns, k, c, children, nodes, fault); Honest(ns, k, t.ctl, nodes, t.children, want, dropped)
  {
    ScanEffect(c.store, children, nodes, fault);
    if Exec(c.store, children, nodes, ListNodes, fault).reply.Failed? {
      ConcludeHonest(ns, k, c.store, nodes, children, c.pc.cr, want, Error, dropped);
    } else {
      ScanHonest(ns, k, c.store, nodes, children, c.pc.cr, want, dropped);
    }
  }

  lemma {:induction false} FillTurnHonest(s: System, k: Kind, fault: Fault, want: Cr, dropped: bool)
    requires Honest(s.ns, k, Side(s, k), s.nodes, s.children, want, dropped)
    requires var c := Side(s, k); c.pc.Filling? && c.pc.todo != [] && Exact(c.store, c.pc.cr)
    ensures var t := TakeTurn(s.ns, k, Side(s, k), s.children, s.nodes, fault);
            Honest(s.ns, k, t.ctl, s.nodes, t.children, want, dropped || Drops(s, Api(k, fault), k))
  {
    var c := Side(s, k);
    ReadReplies(c.store, s.children, s.nodes, NextCall(c.pc), fault);
    FillHonest(s.ns, k, c, s.nodes, s.children, want, fault, dropped);
  }

  lemma {:induction false} OwnHonest(s: System, k: Kind, fault: Fault, want: Cr, dropped: bool, seen: Seen)
    requires Undisturbed(s, k, Api(k, fault)) && HasCall(Side(s, k).pc)
    requires Honest(s.ns, k, Side(s, k), s.nodes, s.children, want, dropped) && Truthful(k, Side(s, k), want.name, seen)
    ensures var t := TakeTurn(s.ns, k, Side(s, k), s.children, s.nodes, fault);
            Honest(s.ns, k, t.ctl, s.nodes, t.children, want, dropped || Drops(s, Api(k, fault), k))
  {
    var c := Side(s, k);
    if c.pc.Filling? {
      FillTurnHonest(s, k, fault, want, dropped);
    } else if c.pc.Scanning? {
      ScanTurnHonest(s.ns, k, c, s.nodes, s.children, want, fault, dropped);
    } else {
      OthersLeaveChildren(s.ns, k, c, s.children, s.nodes);
      WriteHonest(s.ns, k, c, s.nodes, s.children, want, dropped);
    }
  }

  lemma OthersKeep(efaSccs: set<string>, s: System, a: Action, k: Kind)
    requires SidesInv(efaSccs, s) && Undisturbed(s, k, a) && !a.UserDelete? && !((a.Api? || a.Pick?) && a.k == k)
    ensures Side(Step(s, a), k) == Side(s, k)
    ensures forall key :: key in s.children && SideOf(efaSccs, key) == k ==> key in Step(s, a).children
  {
    StepSide(s, a, k);
    if a.Api? {
      forall key | key in s.children && SideOf(efaSccs, key) == k ensures key in Step(s, a).children {
        TurnStaysOnSide(efaSccs, s.ns, a.k, Side(s, a.k), s.children, s.nodes, a.fault, key);
      }
    }
  }

  lemma StepHonest(efaSccs: set<string>, s: System, a: Action, k: Kind, want: Cr, dropped: bool, seen: Seen)
    requires SidesInv(efaSccs, s) && CrApart(efaSccs, k, want) && Undisturbed(s, k, a) && !a.UserDelete? && !a.Relabel?
    requires Honest(s.ns, k, Side(s, k), s.nodes, s.children, want, dropped) && Truthful(k, Side(s, k), want.name, seen)
    ensures Honest(s.ns, k, Side(Step(s, a), k), s.nodes, Step(s, a).children, want, dropped || Drops(s, a, k))
  {
    var c := Side(s, k);
    StepSide(s, a, k);
    if a.Api? && a.k == k {
      if HasCall(c.pc) { OwnHonest(s, k, a.fault, want, dropped, seen); }
    } else if a.Pick? && a.k == k {
      PickHonest(s.ns, k, c, s.nodes, s.children, want, a.version, dropped);
    } else {
      OthersKeep(efaSccs, s, a, k);
      OthersHonest(efaSccs, s.ns, k, c, s.nodes, s.children, Step(s, a).children, want, dropped);
    }
  }

  /** When a reconcile of a live, gated resource has ended with the resource Ready, every object it
      needs is there, except for a DaemonSet whose creation failed during the reconcile. */
  lemma {:induction false} ReadyMeansThere(efaSccs: set<string>, s: System, run: seq<Action>, k: Kind, want: Cr)
    requires SidesInv(efaSccs, s) && SeparateRun(efaSccs, run) && UndisturbedRun(s, run, k)
    requires forall i :: 0 <= i < |run| ==> !run[i].UserDelete? && !run[i].Relabel?
    requires Side(s, k).pc == Listing(want.name) && Live(Side(s, k).store, want.name)
    requires want == Side(s, k).store.crs[Find(Side(s, k).store.crs, want.name)]
    ensures var s' := Run(s, run);
            && s'.ns == s.ns && s'.nodes == s.nodes && SidesInv(efaSccs, s')
            && Honest(s.ns, k, Side(s', k), s.nodes, s'.children, want, Dropped(s, run, k))
    ensures var s' := Run(s, run);
            Side(s', k).pc.Idle? && StoredAs(Side(s', k).store, want.name, Ready) ==>
              (forall key :: Needs(s.ns, k, want, s.nodes, key) ==>
                 key in s'.children || (key.res == DaemonSet && Dropped(s, run, k)))
    decreases |run|
  {
    if run == [] {
      assert CrApart(efaSccs, k, want);
    } else {
      var r, a := run[..|run| - 1], run[|run| - 1];
      ReadyMeansThere(efaSccs, s, r, k, want);
      StatusFaithful(s, r, k, want.name);
      assert CrApart(efaSccs, k, want);
      StepHonest(efaSccs, Run(s, r), a, k, want, Dropped(s, r, k), SeenBy(s, r, k));
      StepApart(efaSccs, Run(s, r), a);
    }
    var t := Run(s, run);
    if Side(t, k).pc.Idle? && StoredAs(Side(t, k).store, want.name, Ready) {
      forall key | Needs(s.ns, k, want, s.nodes, key)
        ensures key in t.children || (key.res == DaemonSet && Dropped(s, run, k))
      {
        var child := NeededIsWanted(s.ns, k, want, s.nodes, key);
      }
    }
  }

  // ----- the guards behind the creations -----

  /** From the look for a missing object to its creation: somebody else may create it in between, and the
      creation may fail. */
  function LookAndCreate(k: Kind, key: Key, appears: bool, fault: Fault): seq<Action> {
    [Api(k, Fine)] + (if appears then [UserCreate(key)] else []) + [Api(k, fault)]
  }

  lemma RunLookAndCreate(s: System, k: Kind, key: Key, appears: bool, fault: Fault)
    ensures var looked := Step(s, Api(k, Fine));
            var met := if appears then Step(looked, UserCreate(key)) else looked;
            Run(s, LookAndCreate(k, key, appears, fault)) == Step(met, Api(k, fault))
  {
    var first := [Api(k, Fine)] + (if appears then [UserCreate(key)] else []);
    RunAppend(s, [], Api(k, Fine));
    assert [] + [Api(k, Fine)] == [Api(k, Fine)];
    if appears {
      RunAppend(s, [Api(k, Fine)], UserCreate(key));
    } else {
      assert first == [Api(k, Fine)];
    }
    RunAppend(s, first, Api(k, fault));
  }

  lemma LookStep(s: System, k: Kind, cr: Cr, todo: seq<Child>, rest: Rest)
    requires todo != [] && Side(s, k).pc == Filling(cr, todo, false, rest) && todo[0].key !in s.children
    ensures Step(s, Api(k, Fine)) == WithSide(s, k, Side(s, k).(pc := Filling(cr, todo, true, rest)))
  {
  }

  lemma MeetStep(s: System, k: Kind, key: Key, appears: bool)
    requires key !in s.children
    ensures var met := if appears then Step(s, UserCreate(key)) else s;
            Side(met, k) == Side(s, k) && met.ns == s.ns && (key in met.children <==> appears)
  {
  }

  lemma CreateStep(s: System, k: Kind, cr: Cr, child: Child, todo: seq<Child>, rest: Rest, fault: Fault)
    requires Side(s, k).pc == Filling(cr, [child] + todo, true, rest)
    ensures var met, s' := child.key in s.children, Step(s, Api(k, fault));
            var failed := if child.key.res.DaemonSet? then met && fault == Fine else fault != Fine;
            && Side(s', k) == Side(s, k).(pc := if failed then Conclude(cr, Error) else Continue(s.ns, k, cr, todo, rest))
            && (child.key in s'.children <==> met || fault != Refused)
  {
    assert ([child] + todo)[1..] == todo;
    match fault {
      case Fine =>
      case Refused =>
      case Lost(_) =>
    }
  }

  /** What the creation of a missing object comes to, for each kind of object, each fault, and either
      outcome of a race with somebody else: a rule, ConfigMap, Module or constraints met there are fine,
      and any other failure ends the building with Error; for a DaemonSet it is the other way round. */
  lemma {:induction false} CreationGuardIff(s: System, k: Kind, cr: Cr, child: Child, todo: seq<Child>, rest: Rest,
                                            appears: bool, fault: Fault)
    requires Side(s, k).pc == Filling(cr, [child] + todo, false, rest) && child.key !in s.children
    ensures var s' := Run(s, LookAndCreate(k, child.key, appears, fault));
            var failed := if child.key.res.DaemonSet? then appears && fault == Fine else fault != Fine;
            && Side(s', k) == Side(s, k).(pc := if failed then Conclude(cr, Error) else Continue(s.ns, k, cr, todo, rest))
            && (child.key in s'.children <==> appears || fault != Refused)
  {
    RunLookAndCreate(s, k, child.key, appears, fault);
    LookStep(s, k, cr, [child] + todo, rest);
    var looked := Step(s, Api(k, Fine));
    MeetStep(looked, k, child.key, appears);
    CreateStep(if appears then Step(looked, UserCreate(child.key)) else looked, k, cr, child, todo, rest, fault);
  }

  lemma ReportStep(s: System, k: Kind, cr: Cr, told: Condition)
    requires Side(s, k).pc == Conclude(cr, told) && told != Discovery && Exact(Side(s, k).store, cr) && !cr.deleting
    ensures var s' := Step(s, Api(k, Fine));
            var i := Find(Side(s', k).store.crs, cr.name);
            && Side(s', k).pc == Idle(Finished) && s'.children == s.children
            && i < |Side(s', k).store.crs| && Side(s', k).store.crs[i].condition == told
  {
    if Side(s, k).pc.Reporting? { WriteExact(Side(s, k).store, cr, told, cr.finalizer); }
  }

  /** From the look for the missing DaemonSet to the status. */
  function LastSteps(ns: string, k: Kind, cr: Cr, appears: bool, fault: Fault): seq<Action> {
    LookAndCreate(k, PluginKey(ns, k, cr), appears, fault) + [Api(k, Fine)]
  }

  /** The reversed guard, end to end and whatever the condition before, Ready included: the resource ends
      with Error exactly when the DaemonSet is there because somebody else was faster and the server says
      so, and it ends Ready without any DaemonSet exactly when nobody else was and the server refused the
      creation. */
  lemma {:induction false} DaemonSetGuardIff(s: System, k: Kind, cr: Cr, appears: bool, fault: Fault)
    requires Side(s, k).pc == Filling(cr, [PluginChild(s.ns, k, cr)], false, ThenEnd)
    requires PluginKey(s.ns, k, cr) !in s.children
    requires Exact(Side(s, k).store, cr) && !cr.deleting
    ensures var s' := Run(s, LastSteps(s.ns, k, cr, appears, fault));
            var i := Find(Side(s', k).store.crs, cr.name);
            && Side(s', k).pc == Idle(Finished) && i < |Side(s', k).store.crs|
            && Side(s', k).store.crs[i].condition == (if appears && fault == Fine then Error else Ready)
            && (PluginKey(s.ns, k, cr) in s'.children <==> appears || fault != Refused)
  {
    var plugin := PluginChild(s.ns, k, cr);
    var steps := LookAndCreate(k, plugin.key, appears, fault);
    assert [plugin] + [] == [plugin];
    CreationGuardIff(s, k, cr, plugin, [], ThenEnd, appears, fault);
    RunAppend(s, steps, Api(k, Fine));
    ReportStep(Run(s, steps), k, cr, if appears && fault == Fine then Error else Ready);
  }
}
