/** Children never outlive the finalizer: at every API-call boundary of every run, whatever
    fails, a created child belongs to a resource that is still there and holds the finalizer. */
module Custody {
  import opened Options
  import opened Api
  import opened Planning
  import opened Protocol
  import opened Holding
  import opened Ownership

  /** The name, or the namespace and labels, under which the teardown of `cr` finds the child. */
  predicate Reachable(ns: string, k: Kind, cr: Cr, child: Child) {
    match child.key.res
    case NodeFeatureRule => k.Efa? && child.key == NfrKey(ns, cr)
    case DaemonSet => child.key == PluginKey(ns, k, cr)
    case Scc => OnOpenShift(cr.spec) && child.key == SccKey(cr)
    case ConfigMap => child.key.ns == cr.spec.kmmNamespace && child.labels == ModLabels(k, cr)
    case Module => child.key.ns == cr.spec.kmmNamespace && child.labels == ModLabels(k, cr) && child.body.Kmm?
  }

  predicate MadeFor(ns: string, k: Kind, cr: Cr, child: Child) {
    child.owner == OwnerOf(k, cr) && Reachable(ns, k, cr, child)
  }

  predicate OwnedBy(k: Kind, child: Child) {
    child.owner.Some? && child.owner.value.kind == k
  }

  ghost predicate Accounted(ns: string, k: Kind, crs: seq<Cr>, child: Child) {
    exists i :: 0 <= i < |crs| && crs[i].finalizer && MadeFor(ns, k, crs[i], child)
  }

  ghost predicate AllAccounted(ns: string, k: Kind, crs: seq<Cr>, children: Children) {
    forall key :: key in children ==>
      children[key].key == key && (OwnedBy(k, children[key]) ==> Accounted(ns, k, crs, children[key]))
  }

  predicate Covers(t: Teardown, child: Child) {
    match t
    case ByName(key) => child.key == key
    case ByLabel(res, ns, labels) => child.key.res == res && child.key.ns == ns && Carries(child.labels, labels)
  }

  ghost predicate Covered(k: Kind, cr: Cr, steps: seq<Teardown>, children: Children) {
    forall key :: key in children && children[key].owner == OwnerOf(k, cr)
                  ==> exists j :: 0 <= j < |steps| && Covers(steps[j], children[key])
  }

  ghost predicate PcCustody(ns: string, k: Kind, pc: Pc, children: Children) {
    && (pc.Filling? ==> forall i :: 0 <= i < |pc.todo| ==> MadeFor(ns, k, pc.cr, pc.todo[i]))
    && (pc.Tearing? ==> pc.steps != [] && Covered(k, pc.cr, pc.steps, children))
    && (pc.Releasing? ==> Covered(k, pc.cr, [], children))
  }

  ghost predicate KindInv(ns: string, k: Kind, c: Ctl, children: Children) {
    SaneInv(c) && AllAccounted(ns, k, c.store.crs, children) && PcCustody(ns, k, c.pc, children)
  }

  ghost predicate CustodyInv(s: System) {
    KindInv(s.ns, Efa, s.efa, s.children) && KindInv(s.ns, Gdrdrv, s.gdrdrv, s.children)
  }

  // ----- plans -----

  lemma PlansMade(ns: string, k: Kind, cr: Cr, version: string, kernels: set<string>)
    ensures k.Efa? ==> MadeFor(ns, k, cr, NfrChild(ns, k, cr))
    ensures MadeFor(ns, k, cr, DockerfileChild(k, cr, version))
    ensures MadeFor(ns, k, cr, KmmChild(k, cr, version, kernels))
    ensures MadeFor(ns, k, cr, PluginChild(ns, k, cr))
    ensures OnOpenShift(cr.spec) ==> MadeFor(ns, k, cr, SccChild(k, cr))
  {
  }

  lemma TailMade(ns: string, k: Kind, cr: Cr)
    ensures forall i :: 0 <= i < |Tail(ns, k, cr)| ==> MadeFor(ns, k, cr, Tail(ns, k, cr)[i])
  {
    PlansMade(ns, k, cr, "", {});
  }

  /** The teardown order covers every child that is reachable for the resource. */
  lemma OrderCovers(ns: string, k: Kind, cr: Cr, child: Child)
    requires Reachable(ns, k, cr, child)
    ensures exists j :: 0 <= j < |TeardownOrder(ns, k, cr)| && Covers(TeardownOrder(ns, k, cr)[j], child)
  {
    var order := TeardownOrder(ns, k, cr);
    var scc := if OnOpenShift(cr.spec) then 1 else 0;
    var j := match child.key.res
      case DaemonSet => 0
      case Scc => 1
      case Module => scc + 1
      case ConfigMap => scc + 2
      case NodeFeatureRule => scc + 3;
    assert Covers(order[j], child);
  }

  /** Everything the holder owns is covered when its teardown starts. */
  lemma TeardownCovers(ns: string, k: Kind, st: Store, cr: Cr, children: Children)
    requires Sane(st) && Held(st, cr) && AllAccounted(ns, k, st.crs, children)
    ensures Covered(k, cr, TeardownOrder(ns, k, cr), children)
  {
    forall key | key in children && children[key].owner == OwnerOf(k, cr)
      ensures exists j :: 0 <= j < |TeardownOrder(ns, k, cr)| && Covers(TeardownOrder(ns, k, cr)[j], children[key])
    {
      var i :| 0 <= i < |st.crs| && Holds(st.crs[i], cr);
      var m :| 0 <= m < |st.crs| && st.crs[m].finalizer && MadeFor(ns, k, st.crs[m], children[key]);
      assert st.crs[m].name == cr.name && m == i;
      OrderCovers(ns, k, cr, children[key]);
    }
  }

  // ----- the program counter -----

  lemma PlanPcCustody(ns: string, k: Kind, st: Store, cr: Cr, children: Children)
    requires Sane(st) && Held(st, cr) && AllAccounted(ns, k, st.crs, children)
    ensures PcCustody(ns, k, Branch(ns, k, cr), children)
    ensures PcCustody(ns, k, Build(ns, k, cr), children)
    ensures PcCustody(ns, k, Tearing(cr, TeardownOrder(ns, k, cr), false), children)
  {
    TeardownCovers(ns, k, st, cr, children);
    PlansMade(ns, k, cr, "", {});
  }

  lemma ContinueCustody(ns: string, k: Kind, cr: Cr, todo: seq<Child>, rest: Rest, children: Children)
    requires forall i :: 0 <= i < |todo| ==> MadeFor(ns, k, cr, todo[i])
    ensures PcCustody(ns, k, Continue(ns, k, cr, todo, rest), children)
  {
    TailMade(ns, k, cr);
  }

  lemma AfterScanCustody(ns: string, k: Kind, cr: Cr, nodes: seq<Node>, children: Children)
    ensures PcCustody(ns, k, AfterScan(ns, k, cr, nodes), children)
  {
    TailMade(ns, k, cr);
    if k.Efa? {
      var kmm := EfaKmm(cr, EfaKernels(nodes));
      PlansMade(ns, k, cr, "", EfaKernels(nodes));
      assert forall i :: 0 <= i < |kmm| ==> MadeFor(ns, k, cr, kmm[i]);
    }
  }

  /** One teardown step leaves the remaining steps to cover the rest. */
  lemma TearCustody(ns: string, k: Kind, st: Store, pc: Pc, children: Children, nodes: seq<Node>, fault: Fault)
    requires pc.Tearing? && PcCustody(ns, k, pc, children)
    requires forall key :: key in children ==> children[key].key == key
    ensures var e := Exec(st, children, nodes, NextCall(pc), fault);
            PcCustody(ns, k, AfterTear(pc, e.reply), e.children)
  {
    var e := Exec(st, children, nodes, NextCall(pc), fault);
    assert forall key :: key in e.children ==> key in children && e.children[key] == children[key];
    forall key | key in e.children && e.children[key].owner == OwnerOf(k, pc.cr)
      ensures exists j :: 0 <= j < |pc.steps| && Covers(pc.steps[j], children[key])
    {
    }
    if AfterTear(pc, e.reply).Releasing? || (AfterTear(pc, e.reply).Tearing? && AfterTear(pc, e.reply).steps != pc.steps) {
      forall key | key in e.children ensures !Covers(pc.steps[0], e.children[key]) {
      }
      forall key | key in e.children && e.children[key].owner == OwnerOf(k, pc.cr)
        ensures exists j :: 0 <= j < |pc.steps[1..]| && Covers(pc.steps[1..][j], children[key])
      {
        var j :| 0 <= j < |pc.steps| && Covers(pc.steps[j], children[key]);
        assert Covers(pc.steps[1..][j - 1], children[key]);
      }
    }
  }

  // ----- the stored resources -----

  /** Every holder of the finalizer is still one. */
  ghost predicate HoldersStay(crs: seq<Cr>, crs': seq<Cr>) {
    || crs == crs'
    || forall i :: 0 <= i < |crs| && crs[i].finalizer ==> exists j :: 0 <= j < |crs'| && Holds(crs'[j], crs[i])
  }

  lemma AccountedStays(ns: string, k: Kind, crs: seq<Cr>, crs': seq<Cr>, child: Child)
    requires HoldersStay(crs, crs') && Accounted(ns, k, crs, child)
    ensures Accounted(ns, k, crs', child)
  {
    if crs != crs' {
      var i :| 0 <= i < |crs| && crs[i].finalizer && MadeFor(ns, k, crs[i], child);
      var j :| 0 <= j < |crs'| && Holds(crs'[j], crs[i]);
      assert MadeFor(ns, k, crs'[j], child);
    }
  }

  /** New objects are accounted for, and so are the old ones that are left. */
  lemma AccountsKept(ns: string, k: Kind, crs: seq<Cr>, crs': seq<Cr>, children: Children, children': Children)
    requires AllAccounted(ns, k, crs, children) && HoldersStay(crs, crs')
    requires forall key :: key in children' ==>
               || (key in children && children'[key] == children[key])
               || (children'[key].key == key && (OwnedBy(k, children'[key]) ==> Accounted(ns, k, crs', children'[key])))
    ensures AllAccounted(ns, k, crs', children')
  {
    forall key | key in children' && key in children && children'[key] == children[key] && OwnedBy(k, children[key])
      ensures Accounted(ns, k, crs', children'[key])
    {
      AccountedStays(ns, k, crs, crs', children[key]);
    }
  }

  lemma ReplaceHolder(crs: seq<Cr>, i: nat, cr: Cr)
    requires i < |crs| && (crs[i].finalizer ==> Holds(cr, crs[i]))
    ensures HoldersStay(crs, crs[i := cr])
  {
    var crs' := crs[i := cr];
    forall m | 0 <= m < |crs| && crs[m].finalizer ensures exists j :: 0 <= j < |crs'| && Holds(crs'[j], crs[m]) {
      assert Holds(crs'[m], crs[m]);
    }
  }

  lemma RemoveNonHolder(crs: seq<Cr>, i: nat)
    requires i < |crs| && !crs[i].finalizer
    ensures HoldersStay(crs, RemoveAt(crs, i))
  {
    var crs' := RemoveAt(crs, i);
    forall m | 0 <= m < |crs| && crs[m].finalizer ensures exists j :: 0 <= j < |crs'| && Holds(crs'[j], crs[m]) {
      assert Holds(crs'[if m < i then m else m - 1], crs[m]);
    }
  }

  lemma InsertHolders(crs: seq<Cr>, i: nat, cr: Cr)
    requires i <= |crs|
    ensures HoldersStay(crs, InsertAt(crs, i, cr))
  {
    var crs' := InsertAt(crs, i, cr);
    forall m | 0 <= m < |crs| && crs[m].finalizer ensures exists j :: 0 <= j < |crs'| && Holds(crs'[j], crs[m]) {
      assert Holds(crs'[if m < i then m else m + 1], crs[m]);
    }
  }

  lemma WriteHolders(st: Store, cr: Cr, condition: Condition, finalizer: bool)
    requires Sane(st) && Fresh(st, cr) && (cr.finalizer ==> finalizer)
    requires cr.deleting ==> cr.finalizer
    ensures HoldersStay(st.crs, Write(st, cr, condition, finalizer).0.crs)
  {
    var i := WriteMeets(st, cr, condition, finalizer);
    if Write(st, cr, condition, finalizer).1.Written? {
      ReplaceHolder(st.crs, i, Write(st, cr, condition, finalizer).1.cr);
    }
  }

  /** Taking the finalizer off is the one write that drops a holder; by then it owns nothing, so the
      children that are left are those of other holders. */
  lemma ReleaseAccounts(ns: string, k: Kind, st: Store, cr: Cr, children: Children)
    requires Sane(st) && Fresh(st, cr) && cr.finalizer
    requires AllAccounted(ns, k, st.crs, children) && Covered(k, cr, [], children)
    ensures AllAccounted(ns, k, Write(st, cr, cr.condition, false).0.crs, children)
  {
    var i := WriteMeets(st, cr, cr.condition, false);
    var (st', reply) := Write(st, cr, cr.condition, false);
    if reply.Written? {
      forall key | key in children && OwnedBy(k, children[key]) ensures Accounted(ns, k, st'.crs, children[key]) {
        var m :| 0 <= m < |st.crs| && st.crs[m].finalizer && MadeFor(ns, k, st.crs[m], children[key]);
        assert m != i;
        assert st.crs[m] == st'.crs[if cr.deleting && m > i then m - 1 else m];
      }
    }
  }

  // ----- one turn -----

  /** The stored resources after a call of kind k still account for its objects. */
  lemma StoreAccounts(ns: string, k: Kind, st: Store, st': Store, pc: Pc, children: Children)
    requires Sane(st) && PcSane(st, pc) && AllAccounted(ns, k, st.crs, children) && PcCustody(ns, k, pc, children)
    requires HasCall(pc)
    requires match NextCall(pc)
             case UpdateStatus(cr, condition) => st' == st || st' == Write(st, cr, condition, cr.finalizer).0
             case UpdateFinalizer(cr, finalizer) => st' == st || st' == Write(st, cr, cr.condition, finalizer).0
             case _ => st' == st
    ensures AllAccounted(ns, k, st'.crs, children)
  {
    if st' != st {
      if pc.Releasing? {
        ReleaseAccounts(ns, k, st, pc.cr, children);
      } else {
        match NextCall(pc) {
          case UpdateStatus(cr, condition) => WriteHolders(st, cr, condition, cr.finalizer);
          case UpdateFinalizer(cr, finalizer) => WriteHolders(st, cr, cr.condition, finalizer);
        }
        AccountsKept(ns, k, st.crs, st'.crs, children, children);
      }
    }
  }

  lemma ExecStore(st: Store, children: Children, nodes: seq<Node>, call: Call, fault: Fault)
    ensures var st' := Exec(st, children, nodes, call, fault).store;
            match call
            case UpdateStatus(cr, condition) => st' == st || st' == Write(st, cr, condition, cr.finalizer).0
            case UpdateFinalizer(cr, finalizer) => st' == st || st' == Write(st, cr, cr.condition, finalizer).0
            case _ => st' == st
  {
  }

  /** A call of the controller of one kind creates at most the next child of its plan, for the
      holder it works for; it leaves every other object alone or deletes it. */
  lemma ExecChildren(c: Ctl, children: Children, nodes: seq<Node>, fault: Fault)
    requires HasCall(c.pc)
    ensures var e := Exec(c.store, children, nodes, NextCall(c.pc), fault);
            && (forall key :: key in e.children ==>
                  || (key in children && e.children[key] == children[key])
                  || (c.pc.Filling? && key == c.pc.todo[0].key && e.children[key] == c.pc.todo[0] && key !in children))
            && (!c.pc.Filling? && !c.pc.Tearing? ==> e.children == children)
  {
  }

  lemma HolderAccounts(ns: string, k: Kind, st: Store, cr: Cr, child: Child)
    requires Held(st, cr) && MadeFor(ns, k, cr, child)
    ensures Accounted(ns, k, st.crs, child)
  {
    var i :| 0 <= i < |st.crs| && Holds(st.crs[i], cr);
    assert MadeFor(ns, k, st.crs[i], child);
  }

  lemma CallAccounts(ns: string, k: Kind, c: Ctl, children: Children, nodes: seq<Node>, fault: Fault)
    requires KindInv(ns, k, c, children) && HasCall(c.pc)
    ensures var e := Exec(c.store, children, nodes, NextCall(c.pc), fault);
            AllAccounted(ns, k, e.store.crs, e.children)
  {
    var e := Exec(c.store, children, nodes, NextCall(c.pc), fault);
    ExecStore(c.store, children, nodes, NextCall(c.pc), fault);
    StoreAccounts(ns, k, c.store, e.store, c.pc, children);
    ExecChildren(c, children, nodes, fault);
    if c.pc.Filling? { HolderAccounts(ns, k, c.store, c.pc.cr, c.pc.todo[0]); }
    AccountsKept(ns, k, e.store.crs, e.store.crs, children, e.children);
  }

  /** Outside CreateCluster and DeleteCluster, a plan starts from its beginning. */
  lemma ResumePlans(ns: string, k: Kind, pc: Pc, reply: Reply)
    requires HasCall(pc) && !pc.Filling? && !pc.Scanning? && !pc.Tearing?
    ensures var next := Resume(ns, k, pc, reply);
            && (next.Filling? ==> next == Build(ns, k, next.cr))
            && (next.Tearing? ==> next == Tearing(next.cr, TeardownOrder(ns, k, next.cr), false))
            && !next.Releasing?
  {
  }

  lemma ResumeCustody(ns: string, k: Kind, pc: Pc, st: Store, reply: Reply, children: Children)
    requires HasCall(pc) && !pc.Tearing?
    requires pc.Filling? ==> forall i :: 0 <= i < |pc.todo| ==> MadeFor(ns, k, pc.cr, pc.todo[i])
    requires Sane(st) && PcSane(st, Resume(ns, k, pc, reply)) && AllAccounted(ns, k, st.crs, children)
    ensures PcCustody(ns, k, Resume(ns, k, pc, reply), children)
  {
    var next := Resume(ns, k, pc, reply);
    if pc.Filling? {
      ContinueCustody(ns, k, pc.cr, pc.todo[1..], pc.rest, children);
    } else if pc.Scanning? {
      if reply.Nodes? { AfterScanCustody(ns, k, pc.cr, reply.nodes, children); }
    } else {
      ResumePlans(ns, k, pc, reply);
      if next.Filling? || next.Tearing? { PlanPcCustody(ns, k, st, next.cr, children); }
    }
  }

  lemma {:induction false} OwnTurn(ns: string, k: Kind, c: Ctl, children: Children, nodes: seq<Node>, fault: Fault)
    requires KindInv(ns, k, c, children)
    ensures var t := TakeTurn(ns, k, c, children, nodes, fault); KindInv(ns, k, t.ctl, t.children)
  {
    TurnSane(ns, k, c, children, nodes, fault);
    if HasCall(c.pc) {
      var e := Exec(c.store, children, nodes, NextCall(c.pc), fault);
      CallAccounts(ns, k, c, children, nodes, fault);
      if c.pc.Tearing? {
        TearCustody(ns, k, c.store, c.pc, children, nodes, fault);
      } else {
        ResumeCustody(ns, k, c.pc, e.store, e.reply, e.children);
      }
    }
  }

  // ----- every action -----

  /** A call of one controller leaves the other kind's books in order: it deletes objects, or
      creates one that belongs to its own kind. */
  lemma {:induction false} OtherTurn(ns: string, k: Kind, c: Ctl, other: Kind, o: Ctl, children: Children, nodes: seq<Node>, fault: Fault)
    requires KindInv(ns, k, c, children) && KindInv(ns, other, o, children) && k != other
    ensures KindInv(ns, other, o, TakeTurn(ns, k, c, children, nodes, fault).children)
  {
    if HasCall(c.pc) {
      ExecChildren(c, children, nodes, fault);
      AccountsKept(ns, other, o.store.crs, o.store.crs, children, Exec(c.store, children, nodes, NextCall(c.pc), fault).children);
    }
  }

  /** Deleting objects, and creating objects without an owner, keeps the books in order. */
  lemma UserTurn(ns: string, k: Kind, c: Ctl, children: Children, key: Key)
    requires KindInv(ns, k, c, children)
    ensures KindInv(ns, k, c, children - {key})
    ensures key !in children ==> KindInv(ns, k, c, children[key := Child(key, map[], None, Plain)])
  {
  }

  /** Creating a resource, or asking for its deletion, drops no holder. */
  lemma StoreTurn(ns: string, k: Kind, c: Ctl, st': Store, children: Children)
    requires KindInv(ns, k, c, children) && HoldersStay(c.store.crs, st'.crs) && SaneInv(c.(store := st'))
    ensures KindInv(ns, k, c.(store := st'), children)
  {
    AccountsKept(ns, k, c.store.crs, st'.crs, children, children);
  }

  lemma AddKeepsHolders(st: Store, name: string, spec: Spec, pos: nat)
    ensures HoldersStay(st.crs, AddCr(st, name, spec, pos).crs)
  {
    if AddCr(st, name, spec, pos) != st {
      InsertHolders(st.crs, pos, Cr(name, st.tick, st.tick, spec, Unset, false, false));
    }
  }

  lemma MarkKeepsHolders(st: Store, name: string)
    ensures HoldersStay(st.crs, MarkDeleted(st, name).crs)
  {
    var i := Find(st.crs, name);
    if i < |st.crs| && !st.crs[i].deleting {
      if st.crs[i].finalizer {
        ReplaceHolder(st.crs, i, st.crs[i].(deleting := true, version := st.tick));
      } else {
        RemoveNonHolder(st.crs, i);
      }
    }
  }

  lemma PickTurn(ns: string, k: Kind, c: Ctl, children: Children, version: string)
    requires KindInv(ns, k, c, children)
    ensures KindInv(ns, k, c.(pc := Choose(ns, k, c.pc, version)), children)
  {
    ChooseSane(ns, k, c, version);
    if c.pc.Ranging? && version in c.pc.versions {
      PlansMade(ns, k, c.pc.cr, version, c.pc.versions[version]);
      ContinueCustody(ns, k, c.pc.cr, CudaPair(k, c.pc.cr, version, c.pc.versions[version]),
                      ThenRange(c.pc.versions - {version}), children);
    }
  }

  lemma StepCustodyOf(s: System, a: Action, k: Kind, other: Kind)
    requires KindInv(s.ns, k, Side(s, k), s.children) && KindInv(s.ns, other, Side(s, other), s.children)
    requires k != other
    ensures KindInv(s.ns, k, Side(Step(s, a), k), Step(s, a).children)
  {
    var c := Side(s, k);
    StepSide(s, a, k);
    StepSane(s, a, k);
    match a {
      case Api(k', fault) =>
        if k' == k { OwnTurn(s.ns, k, c, s.children, s.nodes, fault); }
        else { OtherTurn(s.ns, k', Side(s, k'), k, c, s.children, s.nodes, fault); }
      case Pick(k', version) => if k' == k { PickTurn(s.ns, k, c, s.children, version); }
      case CreateCr(k', name, spec, pos) =>
        if k' == k {
          AddKeepsHolders(c.store, name, spec, pos);
          StoreTurn(s.ns, k, c, AddCr(c.store, name, spec, pos), s.children);
        }
      case RequestDelete(k', name) =>
        if k' == k {
          MarkKeepsHolders(c.store, name);
          StoreTurn(s.ns, k, c, MarkDeleted(c.store, name), s.children);
        }
      case UserDelete(key) => UserTurn(s.ns, k, c, s.children, key);
      case UserCreate(key) => UserTurn(s.ns, k, c, s.children, key);
      case _ =>
    }
  }

  lemma StepNs(s: System, a: Action)
    ensures Step(s, a).ns == s.ns
  {
  }

  lemma {:induction false} StepCustody(s: System, a: Action)
    requires CustodyInv(s)
    ensures CustodyInv(Step(s, a))
  {
    StepCustodyOf(s, a, Efa, Gdrdrv);
    StepCustodyOf(s, a, Gdrdrv, Efa);
    StepNs(s, a);
  }

  lemma {:induction false} RunCustody(s: System, run: seq<Action>)
    requires CustodyInv(s)
    ensures CustodyInv(Run(s, run))
    decreases |run|
  {
    if run != [] {
      RunCustody(s, run[..|run| - 1]);
      StepCustody(Run(s, run[..|run| - 1]), run[|run| - 1]);
    }
  }

  // ----- the theorems -----

  /** In every state of every run, wherever new resources are listed, a created child has an owner that
      is still listed and has the finalizer, and the teardown of that owner would find the child: by its
      name, or by the labels it was created with, whatever the nodes look like by then. */
  lemma ChildrenNeedFinalizer(ns: string, nodes: seq<Node>, run: seq<Action>, key: Key)
    requires var s := Run(Initial(ns, nodes), run); key in s.children && s.children[key].owner.Some?
    ensures var s := Run(Initial(ns, nodes), run);
            var o := s.children[key].owner.value;
            exists i :: 0 <= i < |Side(s, o.kind).store.crs|
                        && Side(s, o.kind).store.crs[i].name == o.name
                        && Side(s, o.kind).store.crs[i].uid == o.uid
                        && Side(s, o.kind).store.crs[i].finalizer
                        && Reachable(s.ns, o.kind, Side(s, o.kind).store.crs[i], s.children[key])
  {
    RunCustody(Initial(ns, nodes), run);
    var s := Run(Initial(ns, nodes), run);
    var o := s.children[key].owner.value;
    var c := Side(s, o.kind);
    assert OwnedBy(o.kind, s.children[key]);
    var i :| 0 <= i < |c.store.crs| && c.store.crs[i].finalizer && MadeFor(s.ns, o.kind, c.store.crs[i], s.children[key]);
    assert Reachable(s.ns, o.kind, c.store.crs[i], s.children[key]);
  }

  /** The finalizer comes off in one place only, and it is that of the resource at work. */
  lemma {:induction false} DropsOnlyAtRelease(s: System, a: Action, k: Kind)
    requires SaneInv(Side(s, k))
    ensures || HoldersStay(Side(s, k).store.crs, Side(Step(s, a), k).store.crs)
            || (a.Api? && a.k == k && Side(s, k).pc.Releasing?)
  {
    var c := Side(s, k);
    StepSide(s, a, k);
    match a {
      case Api(k', fault) =>
        if k' == k && HasCall(c.pc) && !c.pc.Releasing? {
          ExecStore(c.store, s.children, s.nodes, NextCall(c.pc), fault);
          match NextCall(c.pc) {
            case UpdateStatus(cr, condition) => WriteHolders(c.store, cr, condition, cr.finalizer);
            case UpdateFinalizer(cr, finalizer) => WriteHolders(c.store, cr, cr.condition, finalizer);
            case _ =>
          }
        }
      case CreateCr(k', name, spec, pos) => AddKeepsHolders(c.store, name, spec, pos);
      case RequestDelete(k', name) => MarkKeepsHolders(c.store, name);
      case _ =>
    }
  }

  /** The stored form of resource `cr` is gone, or has no finalizer. */
  ghost predicate Dropped(crs: seq<Cr>, cr: Cr) {
    forall j :: 0 <= j < |crs| ==> !Holds(crs[j], cr)
  }

  /** What a release drops is the resource at work. */
  lemma ReleaseDrops(st: Store, cr: Cr, i: nat)
    requires Sane(st) && Fresh(st, cr) && i < |st.crs| && st.crs[i].finalizer
    requires Dropped(Write(st, cr, cr.condition, false).0.crs, st.crs[i])
    ensures st.crs[i].name == cr.name && st.crs[i].uid == cr.uid
  {
    var m := WriteMeets(st, cr, cr.condition, false);
    var (st', reply) := Write(st, cr, cr.condition, false);
    if reply.Written? && m != i {
      assert Holds(st'.crs[if cr.deleting && i > m then i - 1 else i], st.crs[i]);
      assert false;
    }
    if !reply.Written? {
      assert Holds(st'.crs[i], st.crs[i]);
      assert false;
    }
  }

  lemma {:induction false} DropLeavesNone(s: System, a: Action, k: Kind, i: nat, key: Key)
    requires KindInv(s.ns, k, Side(s, k), s.children)
    requires i < |Side(s, k).store.crs| && Side(s, k).store.crs[i].finalizer
    requires Dropped(Side(Step(s, a), k).store.crs, Side(s, k).store.crs[i])
    requires key in Step(s, a).children
    ensures Step(s, a).children[key].owner != OwnerOf(k, Side(s, k).store.crs[i])
  {
    var c := Side(s, k);
    DropsOnlyAtRelease(s, a, k);
    StepSide(s, a, k);
    if Side(Step(s, a), k).store.crs == c.store.crs {
      assert Holds(c.store.crs[i], c.store.crs[i]);
      assert false;
    }
    ExecStore(c.store, s.children, s.nodes, NextCall(c.pc), a.fault);
    ReleaseDrops(c.store, c.pc.cr, i);
    ExecChildren(c, s.children, s.nodes, a.fault);
  }

  /** The other direction, at the moment that counts, again for every run: when some step takes the
      finalizer off a resource, or takes the resource away, no child it owned is left. */
  lemma {:induction false} FinalizerComesOffLast(ns: string, nodes: seq<Node>, run: seq<Action>, a: Action, k: Kind, i: nat, key: Key)
    requires var s := Run(Initial(ns, nodes), run);
             && i < |Side(s, k).store.crs| && Side(s, k).store.crs[i].finalizer
             && Dropped(Side(Step(s, a), k).store.crs, Side(s, k).store.crs[i])
    requires key in Step(Run(Initial(ns, nodes), run), a).children
    ensures var s := Run(Initial(ns, nodes), run);
            Step(s, a).children[key].owner != OwnerOf(k, Side(s, k).store.crs[i])
  {
    RunCustody(Initial(ns, nodes), run);
    DropLeavesNone(Run(Initial(ns, nodes), run), a, k, i, key);
  }

  /** Where nobody but one resource holds the finalizer, that resource owns every child of its kind. */
  lemma HolderOwnsAll(ns: string, k: Kind, st: Store, i: nat, children: Children)
    requires Listed(st) && i < |st.crs| && st.crs[i].finalizer && AllAccounted(ns, k, st.crs, children)
    ensures forall key :: key in children && OwnedBy(k, children[key]) ==> children[key].owner == OwnerOf(k, st.crs[i])
  {
    forall key | key in children && OwnedBy(k, children[key])
      ensures children[key].owner == OwnerOf(k, st.crs[i])
    {
      var m :| 0 <= m < |st.crs| && st.crs[m].finalizer && MadeFor(ns, k, st.crs[m], children[key]);
      assert m == i;
    }
  }

  /** With the list in order nothing of the whole kind is left then. */
  lemma {:induction false} NothingOfTheKindIsLeft(ns: string, nodes: seq<Node>, run: seq<Action>, a: Action, k: Kind, i: nat, key: Key)
    requires Ordered(Initial(ns, nodes), run)
    requires var s := Run(Initial(ns, nodes), run);
             && i < |Side(s, k).store.crs| && Side(s, k).store.crs[i].finalizer
             && Dropped(Side(Step(s, a), k).store.crs, Side(s, k).store.crs[i])
    requires key in Step(Run(Initial(ns, nodes), run), a).children
    ensures !OwnedBy(k, Step(Run(Initial(ns, nodes), run), a).children[key])
  {
    var s0 := Initial(ns, nodes);
    var s := Run(s0, run);
    RunCustody(s0, run);
    RunKeeps(s0, run, k);
    DropLeavesNone(s, a, k, i, key);
    DropsOnlyAtRelease(s, a, k);
    StepSide(s, a, k);
    if Side(Step(s, a), k).store.crs == Side(s, k).store.crs {
      assert Holds(Side(s, k).store.crs[i], Side(s, k).store.crs[i]);
      assert false;
    }
    ExecChildren(Side(s, k), s.children, s.nodes, a.fault);
    HolderOwnsAll(s.ns, k, Side(s, k).store, i, s.children);
  }

  lemma {:induction false} RunNs(s: System, run: seq<Action>)
    ensures Run(s, run).ns == s.ns
    decreases |run|
  {
    if run != [] { RunNs(s, run[..|run| - 1]); }
  }
}
