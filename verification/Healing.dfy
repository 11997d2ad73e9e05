/** Self-healing: from any subset of the children, one reconcile without faults brings back
    exactly the missing ones, and the next one writes nothing. */
module Healing {
  import opened Api
  import opened Planning
  import opened Protocol
  import opened Inventory
  import opened Holding
  import opened Exactness
  import opened Deletion

  // ----- the full set of children -----

  /** What `rest` will still bring. */
  ghost predicate Coming(ns: string, k: Kind, cr: Cr, nodes: seq<Node>, rest: Rest, child: Child) {
    match rest
    case ThenScan => k.Efa? && (child in EfaKmm(cr, EfaKernels(nodes)) || child in Tail(ns, k, cr))
    case ThenRange(versions) => child in Tail(ns, k, cr) || InPairs(k, cr, versions, child)
    case ThenEnd => false
  }

  /** The same resource in another version and condition wants the same children. */
  predicate SameSpec(a: Cr, b: Cr) {
    a.name == b.name && a.uid == b.uid && a.spec == b.spec
  }

  lemma WantsSame(ns: string, k: Kind, a: Cr, b: Cr, nodes: seq<Node>, child: Child)
    requires SameSpec(a, b)
    ensures Wanted(ns, k, a, nodes, child) <==> Wanted(ns, k, b, nodes, child)
  {
    assert Tail(ns, k, a) == Tail(ns, k, b);
    assert EfaHead(ns, a) == EfaHead(ns, b);
    assert EfaKmm(a, EfaKernels(nodes)) == EfaKmm(b, EfaKernels(nodes));
    assert forall v :: v in CudaVersions(nodes) ==>
      CudaPair(k, a, v, CudaVersions(nodes)[v]) == CudaPair(k, b, v, CudaVersions(nodes)[v]);
  }

  // ----- one reconcile -----

  /** The children so far: the old ones are untouched, the new ones are wanted. */
  ghost predicate Grown(ns: string, k: Kind, cr: Cr, nodes: seq<Node>, before: Children, children: Children) {
    && (forall key :: key in before ==> key in children && children[key] == before[key])
    && (forall key :: key in children && key !in before
                      ==> children[key].key == key && Wanted(ns, k, cr, nodes, children[key]))
  }

  ghost predicate Complete(ns: string, k: Kind, cr: Cr, nodes: seq<Node>, children: Children) {
    forall child :: Wanted(ns, k, cr, nodes, child) ==> child.key in children
  }

  /** Everything wanted is there, in the list, or coming. */
  ghost predicate OnTheWay(ns: string, k: Kind, cr: Cr, nodes: seq<Node>, children: Children, todo: seq<Child>, rest: Rest) {
    && (forall child :: Wanted(ns, k, cr, nodes, child)
                        ==> child.key in children || child in todo || Coming(ns, k, cr, nodes, rest, child))
    && (forall child :: child in todo || Coming(ns, k, cr, nodes, rest, child) ==> Wanted(ns, k, cr, nodes, child))
  }

  /** A live resource that passes the gate. */
  ghost predicate Live(st: Store, name: string) {
    var i := Find(st.crs, name);
    && i < |st.crs| && !st.crs[i].deleting && st.crs[i].condition != Ignored
    && (forall j :: 0 <= j < i ==> st.crs[j].condition == Ignored)
    && (forall j :: 0 <= j < |st.crs| ==> st.crs[j].name != "")
  }

  /** The local copy is the stored form of the resource, live and with the finalizer. */
  ghost predicate Serves(st: Store, cr: Cr, want: Cr) {
    Exact(st, cr) && SameSpec(cr, want) && !cr.deleting && cr.finalizer && Live(st, want.name)
  }

  /** The stored resource is Ready and has the finalizer. */
  ghost predicate Mended(st: Store, want: Cr) {
    var i := Find(st.crs, want.name);
    i < |st.crs| && SameSpec(st.crs[i], want) && st.crs[i].condition == Ready && st.crs[i].finalizer && !st.crs[i].deleting
  }

  /** Where the reconcile of a live resource is while nothing goes wrong. */
  ghost predicate Mending(ns: string, k: Kind, c: Ctl, nodes: seq<Node>, children: Children, want: Cr) {
    match c.pc
    case Listing(name) => name == want.name && Live(c.store, name) && SameSpec(c.store.crs[Find(c.store.crs, name)], want)
    case Claiming(cr) => Exact(c.store, cr) && SameSpec(cr, want) && !cr.deleting && Live(c.store, want.name)
    case Starting(cr) => Serves(c.store, cr, want)
    case Retrying(cr) => Serves(c.store, cr, want)
    case Filling(cr, todo, missing, rest) =>
      Serves(c.store, cr, want) && todo != []
      && OnTheWay(ns, k, cr, nodes, children, todo, rest) && (missing ==> todo[0].key !in children)
      && (rest.ThenScan? ==> k.Efa?)
    case Scanning(cr) => Serves(c.store, cr, want) && (k.Efa? ==> OnTheWay(ns, k, cr, nodes, children, [], ThenScan))
    case Ranging(cr, versions) =>
      Serves(c.store, cr, want) && versions != map[] && OnTheWay(ns, k, cr, nodes, children, [], ThenRange(versions))
    case Reporting(cr, condition, requeue) =>
      Serves(c.store, cr, want) && condition == Ready && !requeue && Complete(ns, k, cr, nodes, children)
    case Idle(outcome) =>
      outcome == Finished && Mended(c.store, want) && Live(c.store, want.name) && Complete(ns, k, want, nodes, children)
    case _ => false
  }

  // ----- plans bring everything -----

  lemma BuildMends(ns: string, k: Kind, st: Store, nodes: seq<Node>, children: Children, cr: Cr, want: Cr)
    requires Serves(st, cr, want)
    ensures Mending(ns, k, Ctl(st, Build(ns, k, cr)), nodes, children, want)
  {
  }

  lemma BranchMends(ns: string, k: Kind, st: Store, nodes: seq<Node>, children: Children, cr: Cr, want: Cr)
    requires Serves(st, cr, want)
    ensures Mending(ns, k, Ctl(st, Branch(ns, k, cr)), nodes, children, want)
  {
    BuildMends(ns, k, st, nodes, children, cr, want);
  }

  lemma ConcludeMends(ns: string, k: Kind, st: Store, nodes: seq<Node>, children: Children, cr: Cr, want: Cr)
    requires Serves(st, cr, want) && Complete(ns, k, cr, nodes, children)
    ensures Mending(ns, k, Ctl(st, Conclude(cr, Ready)), nodes, children, want)
  {
    forall child | Wanted(ns, k, want, nodes, child) ensures child.key in children {
      WantsSame(ns, k, cr, want, nodes, child);
    }
  }

  lemma ContinueMends(ns: string, k: Kind, st: Store, nodes: seq<Node>, children: Children, cr: Cr, want: Cr,
                      todo: seq<Child>, rest: Rest)
    requires Serves(st, cr, want)
    requires OnTheWay(ns, k, cr, nodes, children, todo, rest) && (rest.ThenScan? ==> k.Efa?)
    ensures Mending(ns, k, Ctl(st, Continue(ns, k, cr, todo, rest)), nodes, children, want)
  {
    if todo == [] && rest.ThenEnd? {
      ConcludeMends(ns, k, st, nodes, children, cr, want);
    }
  }

  lemma ScanMends(ns: string, k: Kind, st: Store, nodes: seq<Node>, children: Children, cr: Cr, want: Cr)
    requires Serves(st, cr, want)
    requires k.Efa? ==> OnTheWay(ns, k, cr, nodes, children, [], ThenScan) && !SomeUndiscovered(nodes)
    ensures Mending(ns, k, Ctl(st, AfterScan(ns, k, cr, nodes)), nodes, children, want)
  {
    if k.Gdrdrv? {
      ContinueMends(ns, k, st, nodes, children, cr, want, [], ThenRange(CudaVersions(nodes)));
    }
  }

  lemma PairsSplit(k: Kind, cr: Cr, versions: map<string, set<string>>, version: string, child: Child)
    requires version in versions
    ensures InPairs(k, cr, versions, child) <==>
              child in CudaPair(k, cr, version, versions[version]) || InPairs(k, cr, versions - {version}, child)
  {
    if InPairs(k, cr, versions, child) {
      var v :| v in versions && child in CudaPair(k, cr, v, versions[v]);
      if v != version { assert v in versions - {version}; }
    }
    if InPairs(k, cr, versions - {version}, child) {
      var v :| v in versions - {version} && child in CudaPair(k, cr, v, (versions - {version})[v]);
      assert v in versions;
    }
  }

  /** Picking a version moves its pair from what is coming to the list. */
  lemma {:induction false} PickOnTheWay(ns: string, k: Kind, cr: Cr, nodes: seq<Node>, children: Children, versions: map<string, set<string>>, version: string)
    requires version in versions && OnTheWay(ns, k, cr, nodes, children, [], ThenRange(versions))
    ensures OnTheWay(ns, k, cr, nodes, children, CudaPair(k, cr, version, versions[version]), ThenRange(versions - {version}))
  {
    forall child
      ensures Coming(ns, k, cr, nodes, ThenRange(versions), child) <==>
                child in CudaPair(k, cr, version, versions[version])
                || Coming(ns, k, cr, nodes, ThenRange(versions - {version}), child)
    {
      PairsSplit(k, cr, versions, version, child);
    }
  }

  lemma {:induction false} PickMends(ns: string, k: Kind, c: Ctl, nodes: seq<Node>, children: Children, want: Cr, version: string)
    requires Mending(ns, k, c, nodes, children, want)
    ensures Mending(ns, k, c.(pc := Choose(ns, k, c.pc, version)), nodes, children, want)
  {
    if c.pc.Ranging? && version in c.pc.versions {
      PickOnTheWay(ns, k, c.pc.cr, nodes, children, c.pc.versions, version);
      ContinueMends(ns, k, c.store, nodes, children, c.pc.cr, want,
                    CudaPair(k, c.pc.cr, version, c.pc.versions[version]), ThenRange(c.pc.versions - {version}));
    }
  }

  // ----- calls -----

  lemma {:induction false} FillMends(ns: string, k: Kind, c: Ctl, nodes: seq<Node>, children: Children, want: Cr)
    requires Mending(ns, k, c, nodes, children, want) && c.pc.Filling?
    ensures var e := Exec(c.store, children, nodes, NextCall(c.pc), Fine);
            && e.store == c.store
            && (e.children == children || (c.pc.todo[0].key !in children && e.children == children[c.pc.todo[0].key := c.pc.todo[0]]))
            && Mending(ns, k, Ctl(c.store, AfterFill(ns, k, c.pc, e.reply)), nodes, e.children, want)
  {
    var e := Exec(c.store, children, nodes, NextCall(c.pc), Fine);
    var first, todo := c.pc.todo[0], c.pc.todo[1..];
    if first.key in e.children {
      assert OnTheWay(ns, k, c.pc.cr, nodes, e.children, todo, c.pc.rest) by {
        assert forall child :: child in c.pc.todo ==> child == first || child in todo;
        assert forall child :: child in todo ==> child in c.pc.todo;
      }
      ContinueMends(ns, k, c.store, nodes, e.children, c.pc.cr, want, todo, c.pc.rest);
    }
  }

  lemma ListingMends(ns: string, k: Kind, st: Store, nodes: seq<Node>, children: Children, want: Cr)
    requires Live(st, want.name) && SameSpec(st.crs[Find(st.crs, want.name)], want)
    ensures Mending(ns, k, Ctl(st, AfterList(ns, k, st.crs, want.name)), nodes, children, want)
  {
    ElectFinds(st.crs, want.name, "");
    var cr := st.crs[Find(st.crs, want.name)];
    if cr.finalizer { BranchMends(ns, k, st, nodes, children, cr, want); }
  }

  lemma LiveStays(st: Store, cr: Cr, condition: Condition, finalizer: bool)
    requires Live(st, cr.name) && Exact(st, cr) && condition != Ignored
    ensures Live(Write(st, cr, condition, finalizer).0, cr.name)
  {
    WriteExact(st, cr, condition, finalizer);
  }

  lemma WriteMends(ns: string, k: Kind, c: Ctl, nodes: seq<Node>, children: Children, want: Cr)
    requires Mending(ns, k, c, nodes, children, want)
    requires c.pc.Claiming? || c.pc.Starting? || c.pc.Retrying? || c.pc.Reporting?
    ensures var e := Exec(c.store, children, nodes, NextCall(c.pc), Fine);
            e.children == children && Mending(ns, k, Ctl(e.store, Resume(ns, k, c.pc, e.reply)), nodes, children, want)
  {
    var e := Exec(c.store, children, nodes, NextCall(c.pc), Fine);
    var cr := c.pc.cr;
    match c.pc {
      case Claiming(_) =>
        WriteExact(c.store, cr, cr.condition, true);
        LiveStays(c.store, cr, cr.condition, true);
        if e.reply.cr.condition != Unset { BranchMends(ns, k, e.store, nodes, children, e.reply.cr, want); }
      case Starting(_) =>
        WriteExact(c.store, cr, Creating, cr.finalizer);
        LiveStays(c.store, cr, Creating, cr.finalizer);
        BranchMends(ns, k, e.store, nodes, children, e.reply.cr, want);
      case Retrying(_) =>
        WriteExact(c.store, cr, Creating, cr.finalizer);
        LiveStays(c.store, cr, Creating, cr.finalizer);
        BuildMends(ns, k, e.store, nodes, children, e.reply.cr, want);
      case Reporting(_, condition, _) =>
        WriteExact(c.store, cr, condition, cr.finalizer);
        LiveStays(c.store, cr, condition, cr.finalizer);
        forall child | Wanted(ns, k, want, nodes, child) ensures child.key in children {
          WantsSame(ns, k, cr, want, nodes, child);
        }
    }
  }

  lemma ReadTurn(ns: string, k: Kind, c: Ctl, nodes: seq<Node>, children: Children)
    ensures c.pc.Listing? ==>
              TakeTurn(ns, k, c, children, nodes, Fine) == Turn(Ctl(c.store, AfterList(ns, k, c.store.crs, c.pc.name)), children)
    ensures c.pc.Scanning? ==>
              TakeTurn(ns, k, c, children, nodes, Fine) == Turn(Ctl(c.store, AfterScan(ns, k, c.pc.cr, nodes)), children)
  {
  }

  lemma SoloMends(ns: string, k: Kind, c: Ctl, nodes: seq<Node>, children: Children, want: Cr)
    requires Mending(ns, k, c, nodes, children, want)
    requires k.Efa? ==> !SomeUndiscovered(nodes)
    ensures var t := TakeTurn(ns, k, c, children, nodes, Fine); Mending(ns, k, t.ctl, nodes, t.children, want)
  {
    if c.pc.Listing? || c.pc.Scanning? {
      ReadTurn(ns, k, c, nodes, children);
      if c.pc.Listing? {
        ListingMends(ns, k, c.store, nodes, children, want);
      } else {
        ScanMends(ns, k, c.store, nodes, children, c.pc.cr, want);
      }
    } else if c.pc.Filling? {
      FillMends(ns, k, c, nodes, children, want);
    } else if c.pc.Claiming? || c.pc.Starting? || c.pc.Retrying? || c.pc.Reporting? {
      WriteMends(ns, k, c, nodes, children, want);
    }
  }

  lemma GrownByOne(ns: string, k: Kind, cr: Cr, nodes: seq<Node>, before: Children, children: Children, child: Child)
    requires Grown(ns, k, cr, nodes, before, children) && Wanted(ns, k, cr, nodes, child)
    ensures child.key !in children ==> Grown(ns, k, cr, nodes, before, children[child.key := child])
  {
  }

  lemma {:induction false} SoloGrows(ns: string, k: Kind, c: Ctl, nodes: seq<Node>, before: Children, children: Children, want: Cr)
    requires Mending(ns, k, c, nodes, children, want) && Grown(ns, k, want, nodes, before, children)
    ensures Grown(ns, k, want, nodes, before, TakeTurn(ns, k, c, children, nodes, Fine).children)
  {
    if c.pc.Filling? {
      FillMends(ns, k, c, nodes, children, want);
      assert c.pc.todo[0] in c.pc.todo;
      WantsSame(ns, k, c.pc.cr, want, nodes, c.pc.todo[0]);
      GrownByOne(ns, k, want, nodes, before, children, c.pc.todo[0]);
    } else {
      OthersLeaveChildren(ns, k, c, children, nodes);
    }
  }

  /** When every wanted child is there and only wanted ones have come, just the objects that the resource
      needs have been restored. */
  lemma CompleteIsRestored(ns: string, k: Kind, cr: Cr, nodes: seq<Node>, before: Children, children: Children)
    requires Grown(ns, k, cr, nodes, before, children) && Complete(ns, k, cr, nodes, children)
    ensures Restored(ns, k, cr, nodes, before, children)
  {
    forall key | key in children && key !in before
      ensures Needs(ns, k, cr, nodes, key) && Intended(k, cr, nodes, children[key])
    {
      WantedIsNeeded(ns, k, cr, nodes, children[key]);
    }
    forall key | Needs(ns, k, cr, nodes, key) ensures key in children {
      var child := NeededIsWanted(ns, k, cr, nodes, key);
    }
  }

  /** One reconcile of a live, gated resource, with nothing going wrong and no node waiting, from
      any children whatsoever: the old children are untouched, every child it adds is a wanted
      one, and when it ends exactly the needed objects have been added, each the way it is meant to be,
      the resource is live still and Ready with the finalizer, and the backoff has been reset. */
  lemma {:induction false} ReconcileHeals(s: System, run: seq<Action>, k: Kind, want: Cr)
    requires SoloRun(k, run) && Side(s, k).pc == Listing(want.name)
    requires Live(Side(s, k).store, want.name)
    requires want == Side(s, k).store.crs[Find(Side(s, k).store.crs, want.name)]
    requires k.Efa? ==> !SomeUndiscovered(s.nodes)
    ensures var s' := Run(s, run);
            && s'.nodes == s.nodes && s'.ns == s.ns && Grown(s.ns, k, want, s.nodes, s.children, s'.children)
            && Mending(s.ns, k, Side(s', k), s.nodes, s'.children, want)
    ensures var s' := Run(s, run);
            Side(s', k).pc.Idle? ==>
              && Side(s', k).pc.outcome == Finished
              && Mended(Side(s', k).store, want) && Live(Side(s', k).store, want.name)
              && Restored(s.ns, k, want, s.nodes, s.children, s'.children)
    decreases |run|
  {
    if run != [] {
      var r, a := run[..|run| - 1], run[|run| - 1];
      var s' := Run(s, r);
      ReconcileHeals(s, r, k, want);
      StepSide(s', a, k);
      assert Solo(k, a);
      if a.Api? {
        SoloMends(s.ns, k, Side(s', k), s.nodes, s'.children, want);
        SoloGrows(s.ns, k, Side(s', k), s.nodes, s.children, s'.children, want);
      } else {
        PickMends(s.ns, k, Side(s', k), s.nodes, s'.children, want, a.version);
      }
    }
    var t := Run(s, run);
    if Side(t, k).pc.Idle? { CompleteIsRestored(s.ns, k, want, s.nodes, s.children, t.children); }
  }

  // ----- it ends -----

  /** Steps left, at most: a look and a creation for each child, and a pick for each driver version. */
  function RestSteps(rest: Rest): nat {
    match rest
    case ThenScan => 8
    case ThenRange(versions) => 5 * |versions| + 5
    case ThenEnd => 1
  }

  function BuildSteps(k: Kind, nodes: seq<Node>): nat {
    match k
    case Efa => 12
    case Gdrdrv => 1 + RestSteps(ThenRange(CudaVersions(nodes)))
  }

  function StepsLeft(k: Kind, pc: Pc, nodes: seq<Node>): nat {
    match pc
    case Listing(_) => BuildSteps(k, nodes) + 3
    case Claiming(_) => BuildSteps(k, nodes) + 2
    case Starting(_) => BuildSteps(k, nodes) + 1
    case Retrying(_) => BuildSteps(k, nodes) + 1
    case Filling(_, todo, missing, rest) => 2 * |todo| + RestSteps(rest) - (if missing then 1 else 0)
    case Scanning(_) => if k.Efa? then RestSteps(ThenScan) else BuildSteps(k, nodes)
    case Ranging(_, versions) => RestSteps(ThenRange(versions))
    case Reporting(_, _, _) => 1
    case _ => 0
  }

  /** A step of the controller itself, with nothing going wrong, that does something. */
  predicate Busy(s: System, a: Action, k: Kind) {
    && Solo(k, a)
    && (a.Api? ==> HasCall(Side(s, k).pc))
    && (a.Pick? ==> Side(s, k).pc.Ranging? && a.version in Side(s, k).pc.versions)
  }

  predicate BusyRun(s: System, run: seq<Action>, k: Kind) {
    forall i :: 0 <= i < |run| ==> Busy(Run(s, run[..i]), run[i], k)
  }

  /** The controller has no step left to take. */
  ghost predicate AtRest(s: System, k: Kind) {
    forall a :: !Busy(s, a, k)
  }

  lemma ContinueShrinks(ns: string, k: Kind, cr: Cr, todo: seq<Child>, rest: Rest, nodes: seq<Node>)
    requires rest.ThenScan? ==> k.Efa?
    ensures StepsLeft(k, Continue(ns, k, cr, todo, rest), nodes) <= 2 * |todo| + RestSteps(rest)
  {
  }

  lemma BuildShrinks(ns: string, k: Kind, cr: Cr, nodes: seq<Node>)
    requires !cr.deleting
    ensures StepsLeft(k, Build(ns, k, cr), nodes) <= BuildSteps(k, nodes)
    ensures StepsLeft(k, Branch(ns, k, cr), nodes) <= BuildSteps(k, nodes) + (if cr.condition == Error then 1 else 0)
  {
  }

  lemma ScanShrinks(ns: string, k: Kind, cr: Cr, nodes: seq<Node>)
    requires k.Efa? ==> !SomeUndiscovered(nodes)
    ensures StepsLeft(k, AfterScan(ns, k, cr, nodes), nodes) < StepsLeft(k, Scanning(cr), nodes)
  {
    if k.Gdrdrv? { ContinueShrinks(ns, k, cr, [], ThenRange(CudaVersions(nodes)), nodes); }
  }

  lemma ListingShrinks(ns: string, k: Kind, st: Store, name: string, nodes: seq<Node>)
    requires Live(st, name)
    ensures StepsLeft(k, AfterList(ns, k, st.crs, name), nodes) < StepsLeft(k, Listing(name), nodes)
  {
    ElectFinds(st.crs, name, "");
    BuildShrinks(ns, k, st.crs[Find(st.crs, name)], nodes);
  }

  lemma FillShrinks(ns: string, k: Kind, pc: Pc, reply: Reply, nodes: seq<Node>)
    requires pc.Filling? && pc.todo != [] && (pc.rest.ThenScan? ==> k.Efa?)
    requires pc.missing ==> reply.Done?
    requires !pc.missing ==> reply.Done? || reply == Failed(NotFound)
    ensures StepsLeft(k, AfterFill(ns, k, pc, reply), nodes) < StepsLeft(k, pc, nodes)
  {
    ContinueShrinks(ns, k, pc.cr, pc.todo[1..], pc.rest, nodes);
  }

  lemma WriteShrinks(ns: string, k: Kind, pc: Pc, reply: Reply, nodes: seq<Node>)
    requires pc.Claiming? || pc.Starting? || pc.Retrying? || pc.Reporting?
    requires reply.Written? && !reply.cr.deleting && (pc.Starting? ==> reply.cr.condition == Creating)
    ensures StepsLeft(k, Resume(ns, k, pc, reply), nodes) < StepsLeft(k, pc, nodes)
  {
    BuildShrinks(ns, k, reply.cr, nodes);
  }

  lemma WriteReplies(c: Ctl, nodes: seq<Node>, children: Children)
    requires c.pc.Claiming? || c.pc.Starting? || c.pc.Retrying? || c.pc.Reporting?
    requires Exact(c.store, c.pc.cr) && !c.pc.cr.deleting
    ensures var reply := Exec(c.store, children, nodes, NextCall(c.pc), Fine).reply;
            reply.Written? && !reply.cr.deleting && (c.pc.Starting? ==> reply.cr.condition == Creating)
  {
  }

  lemma TurnShrinks(ns: string, k: Kind, c: Ctl, nodes: seq<Node>, children: Children, want: Cr)
    requires Mending(ns, k, c, nodes, children, want) && HasCall(c.pc)
    requires k.Efa? ==> !SomeUndiscovered(nodes)
    ensures StepsLeft(k, TakeTurn(ns, k, c, children, nodes, Fine).ctl.pc, nodes) < StepsLeft(k, c.pc, nodes)
  {
    var reply := Exec(c.store, children, nodes, NextCall(c.pc), Fine).reply;
    if c.pc.Listing? {
      ListingShrinks(ns, k, c.store, c.pc.name, nodes);
    } else if c.pc.Filling? {
      FillShrinks(ns, k, c.pc, reply, nodes);
    } else if c.pc.Scanning? {
      ScanShrinks(ns, k, c.pc.cr, nodes);
    } else {
      WriteReplies(c, nodes, children);
      WriteShrinks(ns, k, c.pc, reply, nodes);
    }
  }

  lemma PickShrinks(ns: string, k: Kind, pc: Pc, version: string, nodes: seq<Node>)
    requires pc.Ranging? && version in pc.versions
    ensures StepsLeft(k, Choose(ns, k, pc, version), nodes) < StepsLeft(k, pc, nodes)
  {
    var fewer := pc.versions - {version};
    assert fewer.Keys == pc.versions.Keys - {version};
    assert |fewer.Keys| == |fewer| && |pc.versions.Keys| == |pc.versions|;
    ContinueShrinks(ns, k, pc.cr, CudaPair(k, pc.cr, version, pc.versions[version]), ThenRange(fewer), nodes);
  }

  /** The runs in question start with the listing of a live resource, and no node is waiting. */
  ghost predicate Healable(s: System, k: Kind, want: Cr) {
    && Side(s, k).pc == Listing(want.name) && Live(Side(s, k).store, want.name)
    && want == Side(s, k).store.crs[Find(Side(s, k).store.crs, want.name)]
    && (k.Efa? ==> !SomeUndiscovered(s.nodes))
  }

  lemma BusyIsSolo(s: System, run: seq<Action>, k: Kind)
    requires BusyRun(s, run, k)
    ensures SoloRun(k, run)
  {
  }

  lemma BusyPrefix(s: System, run: seq<Action>, n: nat, k: Kind)
    requires BusyRun(s, run, k) && n <= |run|
    ensures BusyRun(s, run[..n], k)
  {
    assert forall i :: 0 <= i < n ==> run[..n][..i] == run[..i];
  }

  lemma StepShrinks(s: System, a: Action, k: Kind, want: Cr)
    requires Mending(s.ns, k, Side(s, k), s.nodes, s.children, want) && Busy(s, a, k)
    requires k.Efa? ==> !SomeUndiscovered(s.nodes)
    ensures StepsLeft(k, Side(Step(s, a), k).pc, s.nodes) < StepsLeft(k, Side(s, k).pc, s.nodes)
  {
    StepSide(s, a, k);
    if a.Api? {
      TurnShrinks(s.ns, k, Side(s, k), s.nodes, s.children, want);
    } else {
      PickShrinks(s.ns, k, Side(s, k).pc, a.version, s.nodes);
    }
  }

  lemma {:induction false} ReconcileShrinks(s: System, run: seq<Action>, k: Kind, want: Cr)
    requires Healable(s, k, want) && BusyRun(s, run, k)
    ensures |run| + StepsLeft(k, Side(Run(s, run), k).pc, s.nodes) <= BuildSteps(k, s.nodes) + 3
    decreases |run|
  {
    if run != [] {
      var r, a := run[..|run| - 1], run[|run| - 1];
      var s' := Run(s, r);
      BusyPrefix(s, run, |run| - 1, k);
      ReconcileShrinks(s, r, k, want);
      BusyIsSolo(s, r, k);
      ReconcileHeals(s, r, k, want);
      assert Busy(s', a, k);
      StepShrinks(s', a, k, want);
    }
  }

  /** While it has not ended, the controller has a step to take. */
  lemma NotIdleIsBusy(s: System, k: Kind, want: Cr) returns (a: Action)
    requires Mending(s.ns, k, Side(s, k), s.nodes, s.children, want) && !Side(s, k).pc.Idle?
    ensures Busy(s, a, k)
  {
    var pc := Side(s, k).pc;
    if pc.Ranging? {
      var version :| version in pc.versions;
      a := Pick(k, version);
    } else {
      a := Api(k, Fine);
    }
  }

  /** Such a reconcile ends: in any order of picks it takes at most 15 steps for an EfaDriver, and nine
      and five for each driver version for a GdrdrvDriver; and when no step is left to take, it has
      ended, with the resource live and Ready and exactly the needed objects restored. */
  lemma {:induction false} ReconcileEnds(s: System, run: seq<Action>, k: Kind, want: Cr)
    requires Healable(s, k, want) && BusyRun(s, run, k)
    ensures |run| <= if k.Efa? then 15 else 9 + 5 * |CudaVersions(s.nodes)|
    ensures var s' := Run(s, run);
            AtRest(s', k) ==>
              && Side(s', k).pc == Idle(Finished)
              && Mended(Side(s', k).store, want) && Live(Side(s', k).store, want.name)
              && Restored(s.ns, k, want, s.nodes, s.children, s'.children)
  {
    ReconcileShrinks(s, run, k, want);
    BusyIsSolo(s, run, k);
    ReconcileHeals(s, run, k, want);
    if AtRest(Run(s, run), k) && !Side(Run(s, run), k).pc.Idle? {
      var a := NotIdleIsBusy(Run(s, run), k, want);
      assert false;
    }
  }

  lemma BusyGrows(s: System, run: seq<Action>, a: Action, k: Kind)
    requires BusyRun(s, run, k) && Busy(Run(s, run), a, k)
    ensures BusyRun(s, run + [a], k)
  {
    var longer := run + [a];
    assert longer[..|run|] == run && forall i :: 0 <= i < |run| ==> longer[..i] == run[..i];
  }

  /** And there is such a run to the end from every such state. */
  lemma {:induction false} HealingRun(s: System, run: seq<Action>, k: Kind, want: Cr) returns (whole: seq<Action>)
    requires Healable(s, k, want) && BusyRun(s, run, k)
    ensures BusyRun(s, whole, k) && Side(Run(s, whole), k).pc == Idle(Finished)
    decreases BuildSteps(k, s.nodes) + 3 - |run|
  {
    ReconcileShrinks(s, run, k, want);
    BusyIsSolo(s, run, k);
    ReconcileHeals(s, run, k, want);
    if Side(Run(s, run), k).pc.Idle? {
      whole := run;
    } else {
      var a := NotIdleIsBusy(Run(s, run), k, want);
      BusyGrows(s, run, a, k);
      ReconcileShrinks(s, run + [a], k, want);
      whole := HealingRun(s, run + [a], k, want);
    }
  }

  // ----- the next one -----

  /** Where a reconcile is that finds everything in place: it has only read. */
  ghost predicate Resting(ns: string, k: Kind, c: Ctl, nodes: seq<Node>, children: Children, want: Cr) {
    && Mended(c.store, want) && Complete(ns, k, want, nodes, children)
    && (match c.pc
        case Listing(name) => name == want.name && Live(c.store, name)
        case Filling(cr, todo, missing, rest) =>
          SameSpec(cr, want) && cr.condition == Ready && todo != [] && !missing
          && (forall child :: child in todo || Coming(ns, k, cr, nodes, rest, child) ==> Wanted(ns, k, want, nodes, child))
          && (rest.ThenScan? ==> k.Efa?)
        case Scanning(cr) => SameSpec(cr, want) && cr.condition == Ready
        case Ranging(cr, versions) =>
          SameSpec(cr, want) && cr.condition == Ready
          && (forall child :: Coming(ns, k, cr, nodes, ThenRange(versions), child) ==> Wanted(ns, k, want, nodes, child))
        case Idle(outcome) => outcome == Finished
        case _ => false)
  }

  predicate IsRead(call: Call) {
    call.ListCrs? || call.GetChild? || call.ListNodes?
  }

  lemma ContinueRests(ns: string, k: Kind, st: Store, nodes: seq<Node>, children: Children, cr: Cr, want: Cr,
                      todo: seq<Child>, rest: Rest)
    requires Mended(st, want) && Complete(ns, k, want, nodes, children) && SameSpec(cr, want) && cr.condition == Ready
    requires forall child :: child in todo || Coming(ns, k, cr, nodes, rest, child) ==> Wanted(ns, k, want, nodes, child)
    requires rest.ThenScan? ==> k.Efa?
    ensures Resting(ns, k, Ctl(st, Continue(ns, k, cr, todo, rest)), nodes, children, want)
  {
  }

  lemma ScanRests(ns: string, k: Kind, st: Store, nodes: seq<Node>, children: Children, cr: Cr, want: Cr)
    requires Mended(st, want) && Complete(ns, k, want, nodes, children) && SameSpec(cr, want) && cr.condition == Ready
    requires k.Efa? ==> !SomeUndiscovered(nodes)
    ensures Resting(ns, k, Ctl(st, AfterScan(ns, k, cr, nodes)), nodes, children, want)
  {
    forall child ensures Wanted(ns, k, cr, nodes, child) <==> Wanted(ns, k, want, nodes, child) {
      WantsSame(ns, k, cr, want, nodes, child);
    }
    if k.Gdrdrv? { ContinueRests(ns, k, st, nodes, children, cr, want, [], ThenRange(CudaVersions(nodes))); }
  }

  lemma BuildRests(ns: string, k: Kind, st: Store, nodes: seq<Node>, children: Children, cr: Cr, want: Cr)
    requires Mended(st, want) && Complete(ns, k, want, nodes, children) && SameSpec(cr, want) && cr.condition == Ready
    ensures Resting(ns, k, Ctl(st, Build(ns, k, cr)), nodes, children, want)
  {
    forall child ensures Wanted(ns, k, cr, nodes, child) <==> Wanted(ns, k, want, nodes, child) {
      WantsSame(ns, k, cr, want, nodes, child);
    }
  }

  lemma SoloRests(ns: string, k: Kind, c: Ctl, nodes: seq<Node>, children: Children, want: Cr)
    requires Resting(ns, k, c, nodes, children, want) && (k.Efa? ==> !SomeUndiscovered(nodes))
    ensures var t := TakeTurn(ns, k, c, children, nodes, Fine);
            && t.ctl.store == c.store && t.children == children && Resting(ns, k, t.ctl, nodes, children, want)
            && (HasCall(c.pc) ==> IsRead(NextCall(c.pc)))
  {
    if c.pc.Listing? {
      ElectFinds(c.store.crs, want.name, "");
      var cr := c.store.crs[Find(c.store.crs, want.name)];
      BuildRests(ns, k, c.store, nodes, children, cr, want);
    } else if c.pc.Filling? {
      assert c.pc.todo[0] in c.pc.todo && forall child :: child in c.pc.todo[1..] ==> child in c.pc.todo;
      ContinueRests(ns, k, c.store, nodes, children, c.pc.cr, want, c.pc.todo[1..], c.pc.rest);
    } else if c.pc.Scanning? {
      ScanRests(ns, k, c.store, nodes, children, c.pc.cr, want);
    }
  }

  lemma PickRests(ns: string, k: Kind, c: Ctl, nodes: seq<Node>, children: Children, want: Cr, version: string)
    requires Resting(ns, k, c, nodes, children, want)
    ensures Resting(ns, k, c.(pc := Choose(ns, k, c.pc, version)), nodes, children, want)
  {
    if c.pc.Ranging? && version in c.pc.versions {
      var cr, vs := c.pc.cr, c.pc.versions;
      var pair := CudaPair(k, cr, version, vs[version]);
      forall child | child in pair || Coming(ns, k, cr, nodes, ThenRange(vs - {version}), child)
        ensures Wanted(ns, k, want, nodes, child)
      {
        PairsSplit(k, cr, vs, version, child);
        assert Coming(ns, k, cr, nodes, ThenRange(vs), child);
      }
      ContinueRests(ns, k, c.store, nodes, children, cr, want, pair, ThenRange(vs - {version}));
    }
  }

  /** Once a resource is Ready and its children are there, a reconcile with nothing going wrong
      only reads: no resource and no child changes, and every call it makes is a read. */
  lemma {:induction false} SecondReconcileOnlyReads(s: System, run: seq<Action>, k: Kind, want: Cr)
    requires SoloRun(k, run) && Side(s, k).pc == Listing(want.name) && Live(Side(s, k).store, want.name)
    requires Mended(Side(s, k).store, want) && Complete(s.ns, k, want, s.nodes, s.children)
    requires k.Efa? ==> !SomeUndiscovered(s.nodes)
    ensures var s' := Run(s, run);
            && Side(s', k).store == Side(s, k).store && s'.children == s.children && s'.nodes == s.nodes && s'.ns == s.ns
            && Resting(s.ns, k, Side(s', k), s.nodes, s.children, want)
            && (HasCall(Side(s', k).pc) ==> IsRead(NextCall(Side(s', k).pc)))
            && (Side(s', k).pc.Idle? ==> Side(s', k).pc.outcome == Finished)
    decreases |run|
  {
    if run != [] {
      var r, a := run[..|run| - 1], run[|run| - 1];
      var s' := Run(s, r);
      SecondReconcileOnlyReads(s, r, k, want);
      StepSide(s', a, k);
      assert Solo(k, a);
      if a.Api? {
        SoloRests(s.ns, k, Side(s', k), s.nodes, s.children, want);
      } else {
        PickRests(s.ns, k, Side(s', k), s.nodes, s.children, want, a.version);
      }
    }
  }

  /** The idle controller takes the request on once more. */
  function Again(s: System, k: Kind, name: string): System {
    Step(s, Start(k, name))
  }

  ghost predicate OnlyReads(s: System, run: seq<Action>, k: Kind) {
    forall i :: 0 <= i <= |run| ==>
      var pc := Side(Run(s, run[..i]), k).pc; HasCall(pc) ==> IsRead(NextCall(pc))
  }

  /** Self-healing to a fixpoint: after one reconcile to its end, from any children, a second one ends as
      well, all its calls are reads, and it changes no resource and no child. */
  lemma {:induction false} HealsToFixpoint(s: System, first: seq<Action>, second: seq<Action>, k: Kind, want: Cr)
    requires Healable(s, k, want) && BusyRun(s, first, k) && AtRest(Run(s, first), k)
    requires BusyRun(Again(Run(s, first), k, want.name), second, k)
    ensures |second| <= if k.Efa? then 15 else 9 + 5 * |CudaVersions(s.nodes)|
    ensures OnlyReads(Again(Run(s, first), k, want.name), second, k)
    ensures var healed, u := Run(s, first), Run(Again(Run(s, first), k, want.name), second);
            && u.children == healed.children && Side(u, k).store == Side(healed, k).store
            && (AtRest(u, k) ==> Side(u, k).pc == Idle(Finished))
  {
    var healed := Run(s, first);
    BusyIsSolo(s, first, k);
    ReconcileHeals(s, first, k, want);
    ReconcileEnds(s, first, k, want);
    var again := Again(healed, k, want.name);
    StepSide(healed, Start(k, want.name), k);
    var stored := Side(again, k).store.crs[Find(Side(again, k).store.crs, want.name)];
    BusyIsSolo(again, second, k);
    ReconcileEnds(again, second, k, stored);
    SecondReconcileOnlyReads(again, second, k, want);
    forall i | 0 <= i <= |second|
      ensures var pc := Side(Run(again, second[..i]), k).pc; HasCall(pc) ==> IsRead(NextCall(pc))
    {
      SecondReconcileOnlyReads(again, second[..i], k, want);
    }
  }
}
