/** Referential integrity: over every run without user deletions of children, a created Module
    has the ConfigMap it names, a device-plugin DaemonSet has its SecurityContextConstraints on
    OpenShift, and an EfaDriver's ConfigMap has its NodeFeatureRule. Creation builds the needed
    object first, and teardown removes it last. */
module References {
  import opened Options
  import opened Api
  import opened Planning
  import opened Protocol
  import opened Holding
  import opened Ownership
  import opened Custody
  import opened Sides

  function Needs(ns: string, k: Kind, cr: Cr, child: Child): set<Key> {
    match child.key.res
    case Module => if child.body.Kmm? then {Key(ConfigMap, child.key.ns, child.body.dockerfile)} else {}
    case DaemonSet => if OnOpenShift(cr.spec) then {SccKey(cr)} else {}
    case ConfigMap => if k.Efa? then {NfrKey(ns, cr)} else {}
    case _ => {}
  }

  /** Position of a kind of object in the teardown order. */
  function Level(res: Res): nat {
    match res case DaemonSet => 0 case Scc => 1 case Module => 2 case ConfigMap => 3 case NodeFeatureRule => 4
  }

  function StepRes(t: Teardown): Res {
    match t case ByName(key) => key.res case ByLabel(res, _, _) => res
  }

  ghost predicate Supplied(efaSccs: set<string>, ns: string, k: Kind, cr: Cr, child: Child, keys: set<Key>) {
    forall x :: x in Needs(ns, k, cr, child) ==> x in keys && SideOf(efaSccs, x) == k
  }

  ghost predicate Supported(efaSccs: set<string>, ns: string, k: Kind, crs: seq<Cr>, child: Child, keys: set<Key>) {
    exists i :: 0 <= i < |crs| && crs[i].finalizer && MadeFor(ns, k, crs[i], child)
                && Supplied(efaSccs, ns, k, crs[i], child, keys)
  }

  ghost predicate AllSupported(efaSccs: set<string>, ns: string, k: Kind, crs: seq<Cr>, children: Children) {
    forall key :: key in children && OwnedBy(k, children[key])
                  ==> Supported(efaSccs, ns, k, crs, children[key], children.Keys)
  }

  // ----- what a plan has to have ready -----

  function KeysOf(todo: seq<Child>): set<Key> {
    set t | t in todo :: t.key
  }

  /** Each child of the list finds what it needs, once the children before it are there. */
  ghost predicate InOrder(efaSccs: set<string>, ns: string, k: Kind, cr: Cr, todo: seq<Child>, keys: set<Key>) {
    forall j :: 0 <= j < |todo| ==> Supplied(efaSccs, ns, k, cr, todo[j], keys + KeysOf(todo[..j]))
  }

  function HeadKeys(ns: string, cr: Cr): set<Key> {
    {NfrKey(ns, cr), DockerfileKey(Efa, cr, "")}
  }

  ghost predicate PcReady(efaSccs: set<string>, ns: string, k: Kind, pc: Pc, keys: set<Key>) {
    && (pc.Filling? ==> InOrder(efaSccs, ns, k, pc.cr, pc.todo, keys)
                        && (pc.rest.ThenScan? ==> k.Efa? && HeadKeys(ns, pc.cr) <= keys + KeysOf(pc.todo)))
    && (pc.Scanning? && k.Efa? ==> HeadKeys(ns, pc.cr) <= keys)
    && (pc.Tearing? ==> forall i, j :: 0 <= i < j < |pc.steps| ==> Level(StepRes(pc.steps[i])) < Level(StepRes(pc.steps[j])))
  }

  ghost predicate RefsOf(efaSccs: set<string>, ns: string, k: Kind, c: Ctl, children: Children) {
    AllSupported(efaSccs, ns, k, c.store.crs, children) && PcReady(efaSccs, ns, k, c.pc, children.Keys)
  }

  ghost predicate RefInv(efaSccs: set<string>, s: System) {
    && CustodyInv(s) && OwnInv(s.efa) && OwnInv(s.gdrdrv) && SidesInv(efaSccs, s)
    && RefsOf(efaSccs, s.ns, Efa, s.efa, s.children) && RefsOf(efaSccs, s.ns, Gdrdrv, s.gdrdrv, s.children)
  }

  // ----- plans are in order -----

  lemma TailInOrder(efaSccs: set<string>, ns: string, k: Kind, cr: Cr, keys: set<Key>)
    requires CrApart(efaSccs, k, cr)
    ensures InOrder(efaSccs, ns, k, cr, Tail(ns, k, cr), keys)
  {
    KeysApart(efaSccs, ns, k, cr, "0");
    var tail := Tail(ns, k, cr);
    if OnOpenShift(cr.spec) {
      assert tail[..1] == [SccChild(k, cr)];
      assert SccChild(k, cr) in tail[..1];
    }
  }

  lemma PairInOrder(efaSccs: set<string>, ns: string, cr: Cr, version: string, kernels: set<string>, keys: set<Key>)
    requires CrApart(efaSccs, Gdrdrv, cr) && Tame(version)
    ensures InOrder(efaSccs, ns, Gdrdrv, cr, CudaPair(Gdrdrv, cr, version, kernels), keys)
  {
    KeysApart(efaSccs, ns, Gdrdrv, cr, version);
    var pair := CudaPair(Gdrdrv, cr, version, kernels);
    assert pair[..1] == [DockerfileChild(Gdrdrv, cr, version)];
    assert DockerfileChild(Gdrdrv, cr, version) in pair[..1];
  }

  lemma HeadInOrder(efaSccs: set<string>, ns: string, cr: Cr, keys: set<Key>)
    requires CrApart(efaSccs, Efa, cr)
    ensures InOrder(efaSccs, ns, Efa, cr, EfaHead(ns, cr), keys)
    ensures HeadKeys(ns, cr) <= keys + KeysOf(EfaHead(ns, cr))
  {
    KeysApart(efaSccs, ns, Efa, cr, "");
    var head := EfaHead(ns, cr);
    assert head[..1] == [NfrChild(ns, Efa, cr)];
    assert NfrChild(ns, Efa, cr) in head[..1] && head[0] in head && head[1] in head;
  }

  lemma ScannedInOrder(efaSccs: set<string>, ns: string, cr: Cr, kernels: set<string>, keys: set<Key>)
    requires CrApart(efaSccs, Efa, cr) && HeadKeys(ns, cr) <= keys
    ensures InOrder(efaSccs, ns, Efa, cr, EfaKmm(cr, kernels) + Tail(ns, Efa, cr), keys)
  {
    KeysApart(efaSccs, ns, Efa, cr, "");
    TailInOrder(efaSccs, ns, Efa, cr, keys);
    var kmm, tail := EfaKmm(cr, kernels), Tail(ns, Efa, cr);
    var todo := kmm + tail;
    forall j | 0 <= j < |todo| ensures Supplied(efaSccs, ns, Efa, cr, todo[j], keys + KeysOf(todo[..j])) {
      if j >= |kmm| {
        assert todo[j] == tail[j - |kmm|];
        assert forall t :: t in tail[..j - |kmm|] ==> t in todo[..j] by {
          assert todo[..j] == kmm + tail[..j - |kmm|];
        }
      }
    }
  }

  /** The list goes on when its first child is there, or is a DaemonSet, which nothing needs. */
  lemma DropFirst(efaSccs: set<string>, ns: string, k: Kind, cr: Cr, todo: seq<Child>, keys: set<Key>, keys': set<Key>)
    requires todo != [] && InOrder(efaSccs, ns, k, cr, todo, keys)
    requires keys <= keys' && (todo[0].key in keys' || todo[0].key.res == DaemonSet)
    ensures InOrder(efaSccs, ns, k, cr, todo[1..], keys')
  {
    forall j | 0 <= j < |todo[1..]| ensures Supplied(efaSccs, ns, k, cr, todo[1..][j], keys' + KeysOf(todo[1..][..j])) {
      assert Supplied(efaSccs, ns, k, cr, todo[j + 1], keys + KeysOf(todo[..j + 1]));
      assert todo[..j + 1] == [todo[0]] + todo[1..][..j];
    }
  }

  lemma TeardownLevels(ns: string, k: Kind, cr: Cr)
    ensures var steps := TeardownOrder(ns, k, cr);
            forall i, j :: 0 <= i < j < |steps| ==> Level(StepRes(steps[i])) < Level(StepRes(steps[j]))
  {
  }

  lemma {:induction false} ContinueReady(efaSccs: set<string>, ns: string, k: Kind, cr: Cr, todo: seq<Child>, rest: Rest, keys: set<Key>)
    requires CrApart(efaSccs, k, cr) && InOrder(efaSccs, ns, k, cr, todo, keys)
    requires rest.ThenScan? ==> k.Efa? && HeadKeys(ns, cr) <= keys + KeysOf(todo)
    ensures PcReady(efaSccs, ns, k, Continue(ns, k, cr, todo, rest), keys)
  {
    if todo == [] {
      TailInOrder(efaSccs, ns, k, cr, keys);
      assert KeysOf(todo) == {};
    }
  }

  /** Program counters outside the plans have nothing to have ready. */
  lemma PlanReady(efaSccs: set<string>, ns: string, k: Kind, cr: Cr, keys: set<Key>)
    requires CrApart(efaSccs, k, cr)
    ensures PcReady(efaSccs, ns, k, Build(ns, k, cr), keys)
    ensures PcReady(efaSccs, ns, k, Tearing(cr, TeardownOrder(ns, k, cr), false), keys)
  {
    TeardownLevels(ns, k, cr);
    if k.Efa? { HeadInOrder(efaSccs, ns, cr, keys); }
  }

  /** The reply tells that a child can be left behind. */
  predicate Settled(child: Child, keys: set<Key>) {
    child.key in keys || child.key.res == DaemonSet
  }

  lemma {:induction false} FillReady(efaSccs: set<string>, ns: string, k: Kind, pc: Pc, reply: Reply, keys: set<Key>, keys': set<Key>)
    requires pc.Filling? && pc.todo != [] && PcReady(efaSccs, ns, k, pc, keys) && CrApart(efaSccs, k, pc.cr)
    requires keys <= keys'
    requires var next := AfterFill(ns, k, pc, reply);
             next == pc.(missing := true) || next == Conclude(pc.cr, Error) || Settled(pc.todo[0], keys')
    ensures PcReady(efaSccs, ns, k, AfterFill(ns, k, pc, reply), keys')
  {
    var next := AfterFill(ns, k, pc, reply);
    if next == Continue(ns, k, pc.cr, pc.todo[1..], pc.rest) && Settled(pc.todo[0], keys') {
      DropFirst(efaSccs, ns, k, pc.cr, pc.todo, keys, keys');
      if pc.rest.ThenScan? {
        forall x | x in HeadKeys(ns, pc.cr) ensures x in keys' + KeysOf(pc.todo[1..]) {
          if x !in keys {
            var t :| t in pc.todo && t.key == x;
            assert t == pc.todo[0] || t in pc.todo[1..];
          }
        }
      }
      ContinueReady(efaSccs, ns, k, pc.cr, pc.todo[1..], pc.rest, keys');
    }
  }

  // ----- one turn -----

  /** A child that is created or met is settled; nothing is deleted. */
  lemma FillSettles(ns: string, k: Kind, st: Store, pc: Pc, children: Children, nodes: seq<Node>, fault: Fault)
    requires pc.Filling? && pc.todo != []
    ensures var e := Exec(st, children, nodes, NextCall(pc), fault);
            var next := AfterFill(ns, k, pc, e.reply);
            && children.Keys <= e.children.Keys
            && (e.children == children || e.children == children[pc.todo[0].key := pc.todo[0]])
            && (next == pc.(missing := true) || next == Conclude(pc.cr, Error) || Settled(pc.todo[0], e.children.Keys))
  {
  }

  lemma NeedsHigher(ns: string, k: Kind, cr: Cr, child: Child, x: Key)
    requires x in Needs(ns, k, cr, child)
    ensures Level(x.res) > Level(child.key.res)
  {
  }

  /** A child stays supported when its holder stays and no higher object of its side goes. */
  lemma SupportStays(efaSccs: set<string>, ns: string, k: Kind, crs: seq<Cr>, crs': seq<Cr>, child: Child,
                     keys: set<Key>, keys': set<Key>)
    requires Supported(efaSccs, ns, k, crs, child, keys) && HoldersStay(crs, crs')
    requires forall x :: x in keys && SideOf(efaSccs, x) == k && Level(x.res) > Level(child.key.res) ==> x in keys'
    ensures Supported(efaSccs, ns, k, crs', child, keys')
  {
    var i :| 0 <= i < |crs| && crs[i].finalizer && MadeFor(ns, k, crs[i], child)
             && Supplied(efaSccs, ns, k, crs[i], child, keys);
    var j := i;
    if crs != crs' {
      j :| 0 <= j < |crs'| && Holds(crs'[j], crs[i]);
    }
    assert MadeFor(ns, k, crs'[j], child) && Needs(ns, k, crs'[j], child) == Needs(ns, k, crs[i], child);
    forall x | x in Needs(ns, k, crs'[j], child) ensures x in keys' && SideOf(efaSccs, x) == k {
      NeedsHigher(ns, k, crs[i], child, x);
    }
  }

  lemma AllSupportStays(efaSccs: set<string>, ns: string, k: Kind, crs: seq<Cr>, crs': seq<Cr>,
                        children: Children, children': Children)
    requires AllSupported(efaSccs, ns, k, crs, children) && HoldersStay(crs, crs')
    requires forall key :: key in children' && OwnedBy(k, children'[key]) ==>
               || (key in children && children'[key] == children[key])
               || Supported(efaSccs, ns, k, crs', children'[key], children'.Keys)
    requires forall key, x :: key in children' && key in children && OwnedBy(k, children[key])
               && x in children && SideOf(efaSccs, x) == k && Level(x.res) > Level(children[key].key.res)
               ==> x in children'
    ensures AllSupported(efaSccs, ns, k, crs', children')
  {
    forall key | key in children' && OwnedBy(k, children'[key]) && key in children && children'[key] == children[key]
      ensures Supported(efaSccs, ns, k, crs', children'[key], children'.Keys)
    {
      SupportStays(efaSccs, ns, k, crs, crs', children[key], children.Keys, children'.Keys);
    }
  }

  lemma HolderSupports(efaSccs: set<string>, ns: string, k: Kind, st: Store, cr: Cr, child: Child, keys: set<Key>)
    requires Held(st, cr) && MadeFor(ns, k, cr, child) && Supplied(efaSccs, ns, k, cr, child, keys)
    ensures Supported(efaSccs, ns, k, st.crs, child, keys)
  {
    var i :| 0 <= i < |st.crs| && Holds(st.crs[i], cr);
    assert MadeFor(ns, k, st.crs[i], child) && Needs(ns, k, st.crs[i], child) == Needs(ns, k, cr, child);
  }

  /** What a created child needs is there when it is created. */
  lemma {:induction false} FillSupports(efaSccs: set<string>, ns: string, k: Kind, c: Ctl, children: Children, nodes: seq<Node>, fault: Fault)
    requires KindInv(ns, k, c, children) && RefsOf(efaSccs, ns, k, c, children)
    requires c.pc.Filling? && c.pc.todo != []
    ensures AllSupported(efaSccs, ns, k, c.store.crs, Exec(c.store, children, nodes, NextCall(c.pc), fault).children)
  {
    var e := Exec(c.store, children, nodes, NextCall(c.pc), fault);
    var added := c.pc.todo[0];
    FillSettles(ns, k, c.store, c.pc, children, nodes, fault);
    assert KeysOf(c.pc.todo[..0]) == {};
    HolderSupports(efaSccs, ns, k, c.store, c.pc.cr, added, e.children.Keys);
    AllSupportStays(efaSccs, ns, k, c.store.crs, c.store.crs, children, e.children);
  }

  /** A teardown step removes objects of one level, and nothing its kind still owns is below it. */
  lemma {:induction false} TearSupports(efaSccs: set<string>, ns: string, k: Kind, c: Ctl, children: Children, nodes: seq<Node>, fault: Fault)
    requires KindInv(ns, k, c, children) && OwnInv(c) && RefsOf(efaSccs, ns, k, c, children) && c.pc.Tearing?
    ensures AllSupported(efaSccs, ns, k, c.store.crs, Exec(c.store, children, nodes, NextCall(c.pc), fault).children)
  {
    var e := Exec(c.store, children, nodes, NextCall(c.pc), fault);
    var steps := c.pc.steps;
    var h :| 0 <= h < |c.store.crs| && Holds(c.store.crs[h], c.pc.cr);
    HolderOwnsAll(ns, k, c.store, h, children);
    forall x | x in children && x !in e.children ensures x.res == StepRes(steps[0]) {
    }
    forall key | key in children && OwnedBy(k, children[key])
      ensures Level(children[key].key.res) >= Level(StepRes(steps[0]))
    {
      var j :| 0 <= j < |steps| && Covers(steps[j], children[key]);
      assert StepRes(steps[j]) == children[key].key.res;
    }
    ExecChildren(c, children, nodes, fault);
    AllSupportStays(efaSccs, ns, k, c.store.crs, c.store.crs, children, e.children);
  }

  /** The own controller's calls. */
  lemma OwnSupports(efaSccs: set<string>, s: System, k: Kind, fault: Fault)
    requires KindInv(s.ns, k, Side(s, k), s.children) && OwnInv(Side(s, k)) && RefsOf(efaSccs, s.ns, k, Side(s, k), s.children)
    ensures var s' := Step(s, Api(k, fault)); AllSupported(efaSccs, s.ns, k, Side(s', k).store.crs, s'.children)
  {
    var c := Side(s, k);
    StepSide(s, Api(k, fault), k);
    if HasCall(c.pc) {
      ExecChildren(c, s.children, s.nodes, fault);
      if c.pc.Filling? {
        FillSupports(efaSccs, s.ns, k, c, s.children, s.nodes, fault);
        ExecReads(c.store, s.children, s.nodes, NextCall(c.pc), fault);
      } else if c.pc.Tearing? {
        TearSupports(efaSccs, s.ns, k, c, s.children, s.nodes, fault);
        ExecReads(c.store, s.children, s.nodes, NextCall(c.pc), fault);
      } else if c.pc.Releasing? {
        var h :| 0 <= h < |c.store.crs| && Holds(c.store.crs[h], c.pc.cr);
        HolderOwnsAll(s.ns, k, c.store, h, s.children);
      } else {
        DropsOnlyAtRelease(s, Api(k, fault), k);
        AllSupportStays(efaSccs, s.ns, k, c.store.crs, Side(Step(s, Api(k, fault)), k).store.crs, s.children, s.children);
      }
    }
  }

  /** The EfaDriver controller lists the nodes only behind its first two children. */
  lemma ScanFirst(ns: string, k: Kind, pc: Pc, reply: Reply)
    requires HasCall(pc) && !pc.Filling? && !pc.Scanning? && Resume(ns, k, pc, reply).Scanning?
    ensures k.Gdrdrv?
  {
  }

  lemma {:induction false} ResumeReady(efaSccs: set<string>, ns: string, k: Kind, pc: Pc, reply: Reply, keys: set<Key>)
    requires HasCall(pc) && !pc.Filling? && PcApart(efaSccs, k, pc) && PcApart(efaSccs, k, Resume(ns, k, pc, reply))
    requires !pc.Tearing? ==> PcReady(efaSccs, ns, k, pc, keys)
    requires pc.Tearing? ==> forall i, j :: 0 <= i < j < |pc.steps| ==> Level(StepRes(pc.steps[i])) < Level(StepRes(pc.steps[j]))
    ensures PcReady(efaSccs, ns, k, Resume(ns, k, pc, reply), keys)
  {
    var next := Resume(ns, k, pc, reply);
    if pc.Scanning? {
      if reply.Nodes? {
        if k.Efa? { ScannedInOrder(efaSccs, ns, pc.cr, EfaKernels(reply.nodes), keys); }
        else { ContinueReady(efaSccs, ns, k, pc.cr, [], ThenRange(CudaVersions(reply.nodes)), keys); }
      }
    } else if !pc.Tearing? {
      ResumePlans(ns, k, pc, reply);
      if next.Filling? || next.Tearing? { PlanReady(efaSccs, ns, k, next.cr, keys); }
      if next.Scanning? { ScanFirst(ns, k, pc, reply); }
    }
  }

  lemma {:induction false} OwnReady(efaSccs: set<string>, s: System, k: Kind, fault: Fault)
    requires KindInv(s.ns, k, Side(s, k), s.children) && RefsOf(efaSccs, s.ns, k, Side(s, k), s.children)
    requires SidesInv(efaSccs, s) && SidesInv(efaSccs, Step(s, Api(k, fault)))
    ensures var s' := Step(s, Api(k, fault)); PcReady(efaSccs, s.ns, k, Side(s', k).pc, s'.children.Keys)
  {
    var c := Side(s, k);
    if HasCall(c.pc) {
      var e := Exec(c.store, s.children, s.nodes, NextCall(c.pc), fault);
      ExecChildren(c, s.children, s.nodes, fault);
      if c.pc.Filling? {
        FillSettles(s.ns, k, c.store, c.pc, s.children, s.nodes, fault);
        FillReady(efaSccs, s.ns, k, c.pc, e.reply, s.children.Keys, e.children.Keys);
      } else {
        ResumeReady(efaSccs, s.ns, k, c.pc, e.reply, e.children.Keys);
      }
    }
  }

  // ----- every action -----

  /** What a program counter has ready survives when the objects of its side survive. */
  lemma ReadyStays(efaSccs: set<string>, ns: string, k: Kind, pc: Pc, keys: set<Key>, keys': set<Key>)
    requires PcReady(efaSccs, ns, k, pc, keys) && PcApart(efaSccs, k, pc)
    requires forall x :: x in keys && SideOf(efaSccs, x) == k ==> x in keys'
    ensures PcReady(efaSccs, ns, k, pc, keys')
  {
    if pc.Filling? {
      forall j | 0 <= j < |pc.todo| ensures Supplied(efaSccs, ns, k, pc.cr, pc.todo[j], keys' + KeysOf(pc.todo[..j])) {
        assert Supplied(efaSccs, ns, k, pc.cr, pc.todo[j], keys + KeysOf(pc.todo[..j]));
      }
    }
    if k.Efa? && !pc.Idle? && !pc.Listing? { KeysApart(efaSccs, ns, k, pc.cr, ""); }
  }

  /** The books of kind k when the children change without k's doing. */
  lemma OthersDoing(efaSccs: set<string>, ns: string, k: Kind, c: Ctl, children: Children, children': Children)
    requires RefsOf(efaSccs, ns, k, c, children) && PcApart(efaSccs, k, c.pc)
    requires forall key :: key in children' && OwnedBy(k, children'[key])
                           ==> key in children && children'[key] == children[key]
    requires forall x :: x in children && SideOf(efaSccs, x) == k ==> x in children'
    ensures RefsOf(efaSccs, ns, k, c, children')
  {
    AllSupportStays(efaSccs, ns, k, c.store.crs, c.store.crs, children, children');
    ReadyStays(efaSccs, ns, k, c.pc, children.Keys, children'.Keys);
  }

  lemma {:induction false} OtherApi(efaSccs: set<string>, s: System, k: Kind, other: Kind, fault: Fault)
    requires RefInv(efaSccs, s) && k != other && RefsOf(efaSccs, s.ns, k, Side(s, k), s.children)
    ensures RefsOf(efaSccs, s.ns, k, Side(s, k), Step(s, Api(other, fault)).children)
  {
    var o := Side(s, other);
    var children' := TakeTurn(s.ns, other, o, s.children, s.nodes, fault).children;
    if HasCall(o.pc) {
      ExecChildren(o, s.children, s.nodes, fault);
    }
    forall x | x in s.children && SideOf(efaSccs, x) == k ensures x in children' {
      TurnStaysOnSide(efaSccs, s.ns, other, o, s.children, s.nodes, fault, x);
    }
    OthersDoing(efaSccs, s.ns, k, Side(s, k), s.children, children');
  }

  lemma PickRefs(efaSccs: set<string>, s: System, k: Kind, version: string)
    requires RefsOf(efaSccs, s.ns, k, Side(s, k), s.children) && CtlApart(efaSccs, k, Side(s, k))
    ensures var c := Side(Step(s, Pick(k, version)), k); RefsOf(efaSccs, s.ns, k, c, s.children)
  {
    var c := Side(s, k);
    if c.pc.Ranging? && version in c.pc.versions {
      PairInOrder(efaSccs, s.ns, c.pc.cr, version, c.pc.versions[version], s.children.Keys);
      ContinueReady(efaSccs, s.ns, k, c.pc.cr, CudaPair(k, c.pc.cr, version, c.pc.versions[version]),
                    ThenRange(c.pc.versions - {version}), s.children.Keys);
    }
  }

  /** What a step of users or nodes does to the children. */
  lemma EnvironmentChildren(s: System, a: Action)
    requires !a.Api? && !a.UserDelete?
    ensures var children' := Step(s, a).children;
            && (forall key :: key in s.children ==> key in children' && children'[key] == s.children[key])
            && (forall key :: key in children' && key !in s.children ==> children'[key].owner == None)
  {
  }

  lemma {:induction false} EnvironmentRefs(efaSccs: set<string>, s: System, a: Action, k: Kind)
    requires SaneInv(Side(s, k)) && RefsOf(efaSccs, s.ns, k, Side(s, k), s.children) && CtlApart(efaSccs, k, Side(s, k))
    requires !a.Api? && !a.Pick? && !a.UserDelete?
    ensures RefsOf(efaSccs, s.ns, k, Side(Step(s, a), k), Step(s, a).children)
  {
    var c := Side(s, k);
    StepSide(s, a, k);
    EnvironmentChildren(s, a);
    DropsOnlyAtRelease(s, a, k);
    AllSupportStays(efaSccs, s.ns, k, c.store.crs, Side(Step(s, a), k).store.crs, s.children, Step(s, a).children);
    ReadyStays(efaSccs, s.ns, k, c.pc, s.children.Keys, Step(s, a).children.Keys);
  }

  lemma {:induction false} StepRefsOf(efaSccs: set<string>, s: System, a: Action, k: Kind, other: Kind)
    requires RefInv(efaSccs, s) && k != other && RefsOf(efaSccs, s.ns, k, Side(s, k), s.children)
    requires KindInv(s.ns, k, Side(s, k), s.children) && CtlApart(efaSccs, k, Side(s, k))
    requires SidesInv(efaSccs, Step(s, a)) && !a.UserDelete?
    ensures RefsOf(efaSccs, s.ns, k, Side(Step(s, a), k), Step(s, a).children)
  {
    if !a.Api? && !a.Pick? {
      EnvironmentRefs(efaSccs, s, a, k);
    } else {
      StepSide(s, a, k);
      if a.Pick? {
        if a.k == k { PickRefs(efaSccs, s, k, a.version); }
      } else if a.k == k {
        OwnSupports(efaSccs, s, k, a.fault);
        OwnReady(efaSccs, s, k, a.fault);
      } else {
        OtherApi(efaSccs, s, k, a.k, a.fault);
      }
    }
  }

  lemma {:induction false} StepRefs(efaSccs: set<string>, s: System, a: Action)
    requires RefInv(efaSccs, s) && Allowed(s, a) && Separate(efaSccs, a) && !a.UserDelete?
    ensures RefInv(efaSccs, Step(s, a))
  {
    StepCustody(s, a);
    StepKeeps(s, a, Efa);
    StepKeeps(s, a, Gdrdrv);
    StepApart(efaSccs, s, a);
    StepNs(s, a);
    StepRefsOf(efaSccs, s, a, Efa, Gdrdrv);
    StepRefsOf(efaSccs, s, a, Gdrdrv, Efa);
  }

  lemma {:induction false} RunRefs(efaSccs: set<string>, s: System, run: seq<Action>)
    requires RefInv(efaSccs, s) && Ordered(s, run) && SeparateRun(efaSccs, run)
    requires forall i :: 0 <= i < |run| ==> !run[i].UserDelete?
    ensures RefInv(efaSccs, Run(s, run))
    decreases |run|
  {
    if run != [] {
      RunRefs(efaSccs, s, run[..|run| - 1]);
      StepRefs(efaSccs, Run(s, run[..|run| - 1]), run[|run| - 1]);
    }
  }

  // ----- the theorem -----

  /** In every state of such a run, whatever fails and however bulk deletions stop half-way: a
      created Module has the ConfigMap it names in its namespace; a created DaemonSet has the
      SecurityContextConstraints of its owner on OpenShift; and a ConfigMap created for an
      EfaDriver has the NodeFeatureRule of its owner. */
  lemma ReferencesHold(efaSccs: set<string>, ns: string, nodes: seq<Node>, run: seq<Action>, key: Key)
    requires Ordered(Initial(ns, nodes), run) && SeparateRun(efaSccs, run) && NodesTame(nodes)
    requires forall i :: 0 <= i < |run| ==> !run[i].UserDelete?
    requires var s := Run(Initial(ns, nodes), run); key in s.children && s.children[key].owner.Some?
    ensures var s := Run(Initial(ns, nodes), run);
            var child := s.children[key];
            var k := child.owner.value.kind;
            exists i :: 0 <= i < |Side(s, k).store.crs| && Side(s, k).store.crs[i].finalizer
                        && child.owner == OwnerOf(k, Side(s, k).store.crs[i])
                        && Needs(ns, k, Side(s, k).store.crs[i], child) <= s.children.Keys
  {
    var s := Run(Initial(ns, nodes), run);
    RunRefs(efaSccs, Initial(ns, nodes), run);
    RunNs(Initial(ns, nodes), run);
    var child := s.children[key];
    var k := child.owner.value.kind;
    assert OwnedBy(k, child);
    var i :| 0 <= i < |Side(s, k).store.crs| && Side(s, k).store.crs[i].finalizer
             && MadeFor(ns, k, Side(s, k).store.crs[i], child)
             && Supplied(efaSccs, ns, k, Side(s, k).store.crs[i], child, s.children.Keys);
  }
}
