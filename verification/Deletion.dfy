/** Deleting a custom resource: until it is gone no child is created for it, whatever fails; and
    the first reconcile in which nothing fails removes it. */
module Deletion {
  import opened Options
  import opened Api
  import opened Protocol
  import opened Modules
  import opened Inventory
  import opened Holding
  import opened Ownership
  import opened Custody
  import opened Exactness

  // ----- children only disappear -----

  predicate Is(cr: Cr, o: Owner) {
    cr.name == o.name && cr.uid == o.uid
  }

  /** The program counter is somewhere in CreateCluster, or on its way to it. */
  predicate Building(pc: Pc) {
    pc.Claiming? || pc.Starting? || pc.Retrying? || pc.Filling? || pc.Scanning? || pc.Ranging?
  }

  /** The owner is being deleted or gone for good, and nothing is being built for it. */
  ghost predicate Doomed(c: Ctl, o: Owner) {
    && o.uid < c.store.tick
    && (forall i :: 0 <= i < |c.store.crs| && Is(c.store.crs[i], o) ==> c.store.crs[i].deleting)
    && (Building(c.pc) ==> !Is(c.pc.cr, o))
  }

  lemma WriteDooms(st: Store, cr: Cr, condition: Condition, finalizer: bool, o: Owner)
    requires o.uid < st.tick && forall i :: 0 <= i < |st.crs| && Is(st.crs[i], o) ==> st.crs[i].deleting
    ensures var (st', reply) := Write(st, cr, condition, finalizer);
            && o.uid < st'.tick
            && (forall i :: 0 <= i < |st'.crs| && Is(st'.crs[i], o) ==> st'.crs[i].deleting)
            && (reply.Written? && Is(reply.cr, o) ==> reply.cr.deleting)
  {
  }

  lemma ExecDooms(st: Store, children: Children, nodes: seq<Node>, call: Call, fault: Fault, o: Owner)
    requires o.uid < st.tick && forall i :: 0 <= i < |st.crs| && Is(st.crs[i], o) ==> st.crs[i].deleting
    ensures var e := Exec(st, children, nodes, call, fault);
            && o.uid < e.store.tick
            && (forall i :: 0 <= i < |e.store.crs| && Is(e.store.crs[i], o) ==> e.store.crs[i].deleting)
            && (e.reply.Written? && Is(e.reply.cr, o) ==> e.reply.cr.deleting)
            && (e.reply.Crs? ==> e.reply.items == st.crs)
  {
    match call {
      case UpdateStatus(cr, condition) => WriteDooms(st, cr, condition, cr.finalizer, o);
      case UpdateFinalizer(cr, finalizer) => WriteDooms(st, cr, cr.condition, finalizer, o);
      case _ =>
    }
  }

  /** A reconcile starts building only for a resource that is not being deleted. */
  lemma ResumeBuilds(ns: string, k: Kind, pc: Pc, reply: Reply)
    requires HasCall(pc) && Building(Resume(ns, k, pc, reply))
    ensures var next := Resume(ns, k, pc, reply);
            || (Building(pc) && next.cr == pc.cr)
            || (reply.Written? && next.cr == reply.cr && (pc.Retrying? || !reply.cr.deleting))
            || (pc.Listing? && reply.Crs? && Elect(reply.items, pc.name, "").found == Some(next.cr) && (next.Claiming? || !next.cr.deleting))
  {
  }

  /** A written copy is the same resource. */
  lemma SameName(st: Store, children: Children, nodes: seq<Node>, pc: Pc, fault: Fault)
    requires Sane(st) && PcSane(st, pc) && pc.Retrying?
    requires Exec(st, children, nodes, NextCall(pc), fault).reply.Written?
    ensures var cr := Exec(st, children, nodes, NextCall(pc), fault).reply.cr;
            cr.name == pc.cr.name && cr.uid == pc.cr.uid
  {
    var i := WriteMeets(st, pc.cr, Creating, pc.cr.finalizer);
  }

  lemma TurnDooms(ns: string, k: Kind, c: Ctl, children: Children, nodes: seq<Node>, fault: Fault, o: Owner)
    requires SaneInv(c) && Doomed(c, o)
    ensures Doomed(TakeTurn(ns, k, c, children, nodes, fault).ctl, o)
  {
    if HasCall(c.pc) {
      var e := Exec(c.store, children, nodes, NextCall(c.pc), fault);
      ExecDooms(c.store, children, nodes, NextCall(c.pc), fault, o);
      var next := Resume(ns, k, c.pc, e.reply);
      if Building(next) {
        ResumeBuilds(ns, k, c.pc, e.reply);
        if c.pc.Listing? {
          ElectFinds(c.store.crs, c.pc.name, "");
          TurnSane(ns, k, c, children, nodes, fault);
        } else if e.reply.Written? && c.pc.Retrying? {
          SameName(c.store, children, nodes, c.pc, fault);
        }
      }
    }
  }

  lemma StepDooms(s: System, a: Action, k: Kind, o: Owner)
    requires SaneInv(Side(s, k)) && Doomed(Side(s, k), o)
    ensures Doomed(Side(Step(s, a), k), o)
  {
    var c := Side(s, k);
    StepSide(s, a, k);
    match a {
      case Api(k', fault) => TurnDooms(s.ns, k, c, s.children, s.nodes, fault, o);
      case _ =>
    }
  }

  lemma {:induction false} StepShrinks(s: System, a: Action, o: Owner)
    requires CustodyInv(s) && Doomed(Side(s, o.kind), o)
    ensures forall key :: key in Step(s, a).children && Step(s, a).children[key].owner == Some(o)
                          ==> key in s.children && s.children[key] == Step(s, a).children[key]
  {
    if a.Api? {
      var c := Side(s, a.k);
      if HasCall(c.pc) { ExecChildren(c, s.children, s.nodes, a.fault); }
    }
  }

  /** From the moment a resource is being deleted and nothing is being built for it, its children
      only disappear: in every later state, its children are among those it had. */
  lemma {:induction false} ChildrenOnlyShrink(s: System, run: seq<Action>, o: Owner, key: Key)
    requires CustodyInv(s) && Doomed(Side(s, o.kind), o)
    ensures Doomed(Side(Run(s, run), o.kind), o)
    ensures key in Run(s, run).children && Run(s, run).children[key].owner == Some(o)
            ==> key in s.children && s.children[key] == Run(s, run).children[key]
    decreases |run|
  {
    if run != [] {
      var s' := Run(s, run[..|run| - 1]);
      ChildrenOnlyShrink(s, run[..|run| - 1], o, key);
      RunCustody(s, run[..|run| - 1]);
      StepDooms(s', run[|run| - 1], o.kind, o);
      StepShrinks(s', run[|run| - 1], o);
    }
  }

  lemma MarkDooms(st: Store, i: nat)
    requires Sane(st) && i < |st.crs|
    ensures var st', cr := MarkDeleted(st, st.crs[i].name), st.crs[i];
            && st.tick <= st'.tick
            && forall j :: 0 <= j < |st'.crs| && st'.crs[j].name == cr.name ==> st'.crs[j].deleting
  {
    assert Find(st.crs, st.crs[i].name) == i;
    var crs := RemoveAt(st.crs, i);
    assert forall j :: 0 <= j < |crs| ==> crs[j] == st.crs[if j < i then j else j + 1];
  }

  /** Asking for the deletion of a resource dooms it, unless its building is under way. */
  lemma {:induction false} RequestDooms(s: System, k: Kind, i: nat)
    requires SaneInv(Side(s, k)) && i < |Side(s, k).store.crs|
    requires var pc := Side(s, k).pc; Building(pc) ==> pc.cr.name != Side(s, k).store.crs[i].name
    ensures var cr := Side(s, k).store.crs[i];
            Doomed(Side(Step(s, RequestDelete(k, cr.name)), k), Owner(k, cr.name, cr.uid))
  {
    MarkDooms(Side(s, k).store, i);
    StepSide(s, RequestDelete(k, Side(s, k).store.crs[i].name), k);
  }

  // ----- one reconcile without faults removes it -----

  /** The controller's own actions, with nothing going wrong. */
  predicate Solo(k: Kind, a: Action) {
    a == Api(k, Fine) || (a.Pick? && a.k == k)
  }

  predicate SoloRun(k: Kind, run: seq<Action>) {
    forall i :: 0 <= i < |run| ==> Solo(k, run[i])
  }

  /** A resource that is being deleted and passes the gate: listed, with the finalizer, not Ignored and
      behind Ignored ones only. */
  ghost predicate Condemned(st: Store, name: string) {
    var i := Find(st.crs, name);
    && i < |st.crs| && st.crs[i].deleting && st.crs[i].finalizer && st.crs[i].condition != Ignored
    && (forall j :: 0 <= j < i ==> st.crs[j].condition == Ignored)
    && Sane(st)
  }

  /** Nobody else holds the finalizer. */
  ghost predicate OnlyHolder(st: Store, name: string) {
    forall i :: 0 <= i < |st.crs| && st.crs[i].finalizer ==> st.crs[i].name == name
  }

  /** With the list in order, every holder passes the gate and is the only one. */
  lemma ListedHolder(st: Store, i: nat)
    requires Listed(st) && i < |st.crs| && st.crs[i].finalizer
    ensures OnlyHolder(st, st.crs[i].name) && (st.crs[i].deleting ==> Condemned(st, st.crs[i].name))
  {
    assert Find(st.crs, st.crs[i].name) == i;
  }

  /** Where a reconcile of a condemned resource is while nothing goes wrong. */
  ghost predicate Removing(c: Ctl, name: string) {
    match c.pc
    case Listing(n) => n == name && Condemned(c.store, name)
    case Retiring(cr) => cr.name == name && Exact(c.store, cr) && cr.deleting && cr.finalizer
    case Tearing(cr, steps, _) => cr.name == name && Exact(c.store, cr) && cr.deleting && cr.finalizer && steps != []
    case Releasing(cr) => cr.name == name && Exact(c.store, cr) && cr.deleting && cr.finalizer
    case Idle(outcome) => outcome == Finished && Find(c.store.crs, name) == |c.store.crs|
    case _ => false
  }

  lemma ListingRemoves(ns: string, k: Kind, st: Store, name: string)
    requires Condemned(st, name)
    ensures var pc := AfterList(ns, k, st.crs, name);
            Removing(Ctl(st, pc), name) && (pc.Retiring? || (pc.Tearing? && |pc.steps| <= 5 && !pc.found))
  {
    ElectFinds(st.crs, name, "");
  }

  lemma ReleasingRemoves(st: Store, cr: Cr)
    requires Sane(st) && Exact(st, cr) && cr.finalizer && cr.deleting
    ensures var st' := Write(st, cr, cr.condition, false).0;
            Find(st'.crs, cr.name) == |st'.crs| && (OnlyHolder(st, cr.name) ==> OnlyHolder(st', cr.name))
  {
    var i := Find(st.crs, cr.name);
    WriteExact(st, cr, cr.condition, false);
    var crs := RemoveAt(st.crs, i);
    assert forall m :: 0 <= m < |crs| ==> crs[m] == st.crs[if m < i then m else m + 1];
  }

  /** Calls left, at most, until a reconcile of a condemned resource ends. */
  function Effort(pc: Pc): nat {
    match pc
    case Listing(_) => 20
    case Retiring(_) => 19
    case Tearing(_, steps, found) => 2 + 2 * |steps| + (if found then 0 else 1)
    case Releasing(_) => 1
    case _ => 0
  }

  lemma TearsOn(c: Ctl, children: Children, nodes: seq<Node>)
    requires c.pc.Tearing? && c.pc.steps != []
    ensures var e := Exec(c.store, children, nodes, NextCall(c.pc), Fine);
            var next := AfterTear(c.pc, e.reply);
            && e.store == c.store && next.cr == c.pc.cr && Effort(next) < Effort(c.pc)
            && (next.Releasing? || (next.Tearing? && next.steps != []))
  {
  }

  lemma SoloRemoves(ns: string, k: Kind, c: Ctl, children: Children, nodes: seq<Node>, name: string)
    requires Removing(c, name) && Sane(c.store)
    ensures var c' := TakeTurn(ns, k, c, children, nodes, Fine).ctl;
            && Removing(c', name) && (!c.pc.Idle? ==> Effort(c'.pc) < Effort(c.pc))
            && (OnlyHolder(c.store, name) ==> OnlyHolder(c'.store, name))
  {
    if c.pc.Listing? {
      ListingRemoves(ns, k, c.store, name);
    } else if c.pc.Retiring? {
      WriteExact(c.store, c.pc.cr, Deleting, c.pc.cr.finalizer);
    } else if c.pc.Releasing? {
      WriteExact(c.store, c.pc.cr, c.pc.cr.condition, false);
      ReleasingRemoves(c.store, c.pc.cr);
    } else if c.pc.Tearing? {
      TearsOn(c, children, nodes);
    }
  }

  lemma {:induction false} RunRemoves(s: System, run: seq<Action>, k: Kind, name: string)
    requires CustodyInv(s) && SoloRun(k, run)
    requires Side(s, k).pc == Listing(name) && Condemned(Side(s, k).store, name)
    ensures var s' := Run(s, run);
            && CustodyInv(s') && Removing(Side(s', k), name)
            && (OnlyHolder(Side(s, k).store, name) ==> OnlyHolder(Side(s', k).store, name))
    ensures (forall i :: 0 <= i < |run| ==> run[i] == Api(k, Fine))
            ==> Effort(Side(Run(s, run), k).pc) <= (if |run| <= 20 then 20 - |run| else 0)
    decreases |run|
  {
    if run != [] {
      var r, a := run[..|run| - 1], run[|run| - 1];
      var s' := Run(s, r);
      RunRemoves(s, r, k, name);
      StepCustody(s', a);
      StepSide(s', a, k);
      assert Solo(k, a);
      SoloRemoves(s'.ns, k, Side(s', k), s'.children, s'.nodes, name);
    }
  }

  lemma GoneOwnsNothing(ns: string, k: Kind, st: Store, name: string, children: Children)
    requires Find(st.crs, name) == |st.crs| && AllAccounted(ns, k, st.crs, children)
    ensures forall key :: key in children && OwnedBy(k, children[key]) ==> children[key].owner.value.name != name
    ensures OnlyHolder(st, name) ==> forall key :: key in children ==> !OwnedBy(k, children[key])
  {
  }

  /** The first reconcile in which nothing fails, and nobody interferes, removes a resource that is being
      deleted and passes the gate, in any list order, together with everything it owns; and when it is the
      only holder of the finalizer, nothing that was created for its kind is left. `run` is any run of the
      controller's own actions; it ends after at most twenty calls. */
  lemma {:induction false} DeletionCompletes(s: System, run: seq<Action>, k: Kind, name: string)
    requires CustodyInv(s) && SoloRun(k, run)
    requires Side(s, k).pc == Listing(name) && Condemned(Side(s, k).store, name)
    ensures var s' := Run(s, run); CustodyInv(s') && Removing(Side(s', k), name)
    ensures var s' := Run(s, run);
            Side(s', k).pc.Idle? ==>
              && Side(s', k).pc.outcome == Finished
              && Find(Side(s', k).store.crs, name) == |Side(s', k).store.crs|
              && (forall key :: key in s'.children && OwnedBy(k, s'.children[key]) ==> s'.children[key].owner.value.name != name)
              && (OnlyHolder(Side(s, k).store, name) ==> forall key :: key in s'.children ==> !OwnedBy(k, s'.children[key]))
    ensures (forall i :: 0 <= i < |run| ==> run[i] == Api(k, Fine)) && |run| >= 20 ==> Side(Run(s, run), k).pc.Idle?
  {
    RunRemoves(s, run, k, name);
    var s' := Run(s, run);
    if Side(s', k).pc.Idle? { GoneOwnsNothing(s'.ns, k, Side(s', k).store, name, s'.children); }
  }

  // ----- and nothing else -----

  ghost predicate Hit(done: seq<Teardown>, child: Child) {
    exists j :: 0 <= j < |done| && Covers(done[j], child)
  }

  /** The steps that are done have taken what they cover, and nothing else. */
  ghost predicate Swept(done: seq<Teardown>, before: Children, children: Children) {
    && (forall key :: key in children <==> key in before && !Hit(done, before[key]))
    && (forall key :: key in children && key in before ==> children[key] == before[key])
  }

  predicate WellKeyed(children: Children) {
    forall key :: key in children ==> children[key].key == key
  }

  lemma LabelsSpelled(k: Kind, cr: Cr, child: Child)
    ensures Carries(child.labels, ModLabels(k, cr))
            <==> Has(child.labels, "ocp-efa-operator.fms.io", cr.name) && Has(child.labels, "modName", if k.Efa? then "efa" else "gdrdrv")
  {
    var wanted := ModLabels(k, cr);
    assert LABEL_KEY in wanted && MOD_NAME in wanted && |LABEL_KEY| != |MOD_NAME|;
  }

  /** The whole order covers just what the teardown is to take. */
  lemma OrderTakes(ns: string, k: Kind, cr: Cr, child: Child)
    ensures Hit(TeardownOrder(ns, k, cr), child) <==> Goes(ns, k, cr, child)
  {
    var order := TeardownOrder(ns, k, cr);
    var scc := if OnOpenShift(cr.spec) then 1 else 0;
    if k.Efa? { EfaSpelled(cr.name, ""); } else { GdrdrvSpelled(cr.name, ""); }
    LabelsSpelled(k, cr, child);
    if Goes(ns, k, cr, child) {
      var j := match child.key.res
        case DaemonSet => 0
        case Scc => 1
        case Module => scc + 1
        case ConfigMap => scc + 2
        case NodeFeatureRule => scc + 3;
      assert Covers(order[j], child);
    }
  }

  lemma HitMore(done: seq<Teardown>, step: Teardown, child: Child)
    ensures Hit(done + [step], child) <==> Hit(done, child) || Covers(step, child)
  {
    var more := done + [step];
    assert more[|done|] == step && forall j :: 0 <= j < |done| ==> more[j] == done[j];
  }

  lemma SweepMore(done: seq<Teardown>, step: Teardown, before: Children, children: Children, children': Children)
    requires Swept(done, before, children)
    requires forall key :: key in children' <==> key in children && !Covers(step, children[key])
    requires forall key :: key in children' && key in children ==> children'[key] == children[key]
    ensures Swept(done + [step], before, children')
  {
    forall key | key in before ensures key in children' <==> !Hit(done + [step], before[key]) {
      HitMore(done, step, before[key]);
    }
  }

  /** What is done of the order before the steps that are left has been swept. */
  ghost predicate Midway(order: seq<Teardown>, steps: seq<Teardown>, before: Children, children: Children) {
    && 0 < |steps| <= |order| && steps == order[|order| - |steps|..]
    && Swept(order[..|order| - |steps|], before, children)
  }

  lemma MidwayOn(order: seq<Teardown>, steps: seq<Teardown>, before: Children, children: Children, children': Children)
    requires Midway(order, steps, before, children)
    requires forall key :: key in children' <==> key in children && !Covers(steps[0], children[key])
    requires forall key :: key in children' && key in children ==> children'[key] == children[key]
    ensures if steps[1..] == [] then Swept(order, before, children') else Midway(order, steps[1..], before, children')
  {
    var n := |order| - |steps|;
    SweepMore(order[..n], steps[0], before, children, children');
    assert order[..n] + [steps[0]] == order[..n + 1];
    if steps[1..] == [] {
      assert order[..n + 1] == order;
    } else {
      assert steps[1..] == order[n + 1..];
    }
  }

  /** How far a teardown is: the resource at work is `cr`, in its last form. */
  ghost predicate Sweeping(ns: string, k: Kind, pc: Pc, cr: Cr, before: Children, children: Children) {
    var order := TeardownOrder(ns, k, cr);
    match pc
    case Listing(name) => name == cr.name && children == before
    case Retiring(mine) => mine.name == cr.name && mine.spec == cr.spec && children == before
    case Tearing(mine, steps, _) =>
      mine.name == cr.name && mine.spec == cr.spec && Midway(order, steps, before, children)
    case Releasing(_) => Swept(order, before, children)
    case Idle(_) => Swept(order, before, children)
    case _ => false
  }

  /** Where the teardown goes on behind a step. */
  function Behind(pc: Pc): Pc
    requires pc.Tearing? && pc.steps != []
  {
    if pc.steps[1..] == [] then Releasing(pc.cr) else Tearing(pc.cr, pc.steps[1..], false)
  }

  /** What one call of the teardown takes, when nothing goes wrong. */
  lemma TearTakes(c: Ctl, children: Children, nodes: seq<Node>)
    requires c.pc.Tearing? && c.pc.steps != [] && WellKeyed(children)
    ensures var e := Exec(c.store, children, nodes, NextCall(c.pc), Fine);
            || (AfterTear(c.pc, e.reply) == c.pc.(found := true) && e.children == children)
            || (&& AfterTear(c.pc, e.reply) == Behind(c.pc)
                && (forall key :: key in e.children <==> key in children && !Covers(c.pc.steps[0], children[key]))
                && (forall key :: key in e.children && key in children ==> e.children[key] == children[key]))
  {
  }

  lemma TearSweeps(ns: string, k: Kind, c: Ctl, cr: Cr, before: Children, children: Children, nodes: seq<Node>)
    requires Sweeping(ns, k, c.pc, cr, before, children) && c.pc.Tearing? && WellKeyed(children)
    ensures var e := Exec(c.store, children, nodes, NextCall(c.pc), Fine);
            Sweeping(ns, k, AfterTear(c.pc, e.reply), cr, before, e.children)
  {
    var e := Exec(c.store, children, nodes, NextCall(c.pc), Fine);
    TearTakes(c, children, nodes);
    if AfterTear(c.pc, e.reply) == Behind(c.pc) && !(AfterTear(c.pc, e.reply) == c.pc.(found := true)) {
      MidwayOn(TeardownOrder(ns, k, cr), c.pc.steps, before, children, e.children);
    }
  }

  lemma StartsSweeping(ns: string, k: Kind, mine: Cr, cr: Cr, before: Children)
    requires mine.name == cr.name && mine.spec == cr.spec
    ensures Sweeping(ns, k, Tearing(mine, TeardownOrder(ns, k, mine), false), cr, before, before)
  {
    var order := TeardownOrder(ns, k, cr);
    assert TeardownOrder(ns, k, mine) == order && order[0..] == order && order[..0] == [];
  }

  lemma OthersLeaveChildren(ns: string, k: Kind, c: Ctl, children: Children, nodes: seq<Node>)
    requires !c.pc.Filling? && !c.pc.Tearing?
    ensures TakeTurn(ns, k, c, children, nodes, Fine).children == children
  {
  }

  lemma ListingBranches(ns: string, k: Kind, st: Store, name: string)
    requires Condemned(st, name)
    ensures var cr := st.crs[Find(st.crs, name)];
            AfterList(ns, k, st.crs, name) == if cr.condition != Deleting then Retiring(cr) else Tearing(cr, TeardownOrder(ns, k, cr), false)
  {
    ElectFinds(st.crs, name, "");
  }

  lemma ListingSweeps(ns: string, k: Kind, st: Store, cr: Cr, before: Children)
    requires Condemned(st, cr.name) && st.crs[Find(st.crs, cr.name)].spec == cr.spec
    ensures Sweeping(ns, k, AfterList(ns, k, st.crs, cr.name), cr, before, before)
  {
    ListingBranches(ns, k, st, cr.name);
    StartsSweeping(ns, k, st.crs[Find(st.crs, cr.name)], cr, before);
  }

  lemma WriteSweeps(ns: string, k: Kind, pc: Pc, reply: Reply, cr: Cr, before: Children, children: Children)
    requires Sweeping(ns, k, pc, cr, before, children) && (pc.Retiring? || pc.Releasing?)
    requires reply.Written? && (pc.Retiring? ==> reply.cr.name == cr.name && reply.cr.spec == cr.spec)
    ensures Sweeping(ns, k, Resume(ns, k, pc, reply), cr, before, children)
  {
    if pc.Retiring? { StartsSweeping(ns, k, reply.cr, cr, before); }
  }

  lemma SoloSweeps(ns: string, k: Kind, c: Ctl, cr: Cr, before: Children, children: Children, nodes: seq<Node>)
    requires Removing(c, cr.name) && Sweeping(ns, k, c.pc, cr, before, children) && WellKeyed(children)
    requires c.pc.Listing? ==> c.store.crs[Find(c.store.crs, cr.name)].spec == cr.spec
    ensures var t := TakeTurn(ns, k, c, children, nodes, Fine); Sweeping(ns, k, t.ctl.pc, cr, before, t.children)
  {
    if c.pc.Tearing? {
      TearSweeps(ns, k, c, cr, before, children, nodes);
    } else {
      OthersLeaveChildren(ns, k, c, children, nodes);
      if c.pc.Listing? {
        ListingSweeps(ns, k, c.store, cr, before);
      } else if c.pc.Retiring? || c.pc.Releasing? {
        WriteExact(c.store, c.pc.cr, if c.pc.Retiring? then Deleting else c.pc.cr.condition, c.pc.Retiring?);
        WriteSweeps(ns, k, c.pc, Exec(c.store, children, nodes, NextCall(c.pc), Fine).reply, cr, before, children);
      }
    }
  }

  lemma StepSweeps(s: System, a: Action, k: Kind, cr: Cr, before: Children)
    requires Solo(k, a) && WellKeyed(s.children)
    requires Removing(Side(s, k), cr.name) && Sweeping(s.ns, k, Side(s, k).pc, cr, before, s.children)
    requires Side(s, k).pc.Listing? ==> var i := Find(Side(s, k).store.crs, cr.name); Side(s, k).store.crs[i].spec == cr.spec
    ensures Step(s, a).ns == s.ns && Sweeping(s.ns, k, Side(Step(s, a), k).pc, cr, before, Step(s, a).children)
    ensures Side(Step(s, a), k).pc.Listing? ==> Side(Step(s, a), k) == Side(s, k)
  {
    StepSide(s, a, k);
    if a.Api? {
      SoloSweeps(s.ns, k, Side(s, k), cr, before, s.children, s.nodes);
    }
  }

  lemma {:induction false} RunSweeps(s: System, run: seq<Action>, k: Kind, cr: Cr)
    requires CustodyInv(s) && SoloRun(k, run)
    requires Side(s, k).pc == Listing(cr.name) && Condemned(Side(s, k).store, cr.name)
    requires cr == Side(s, k).store.crs[Find(Side(s, k).store.crs, cr.name)]
    ensures Run(s, run).ns == s.ns && Sweeping(s.ns, k, Side(Run(s, run), k).pc, cr, s.children, Run(s, run).children)
    ensures Side(Run(s, run), k).pc.Listing? ==> Side(Run(s, run), k) == Side(s, k)
    decreases |run|
  {
    if run != [] {
      var r, a := run[..|run| - 1], run[|run| - 1];
      var s' := Run(s, r);
      RunSweeps(s, r, k, cr);
      RunRemoves(s, r, k, cr.name);
      assert Solo(k, a);
      StepSweeps(s', a, k, cr, s.children);
    }
  }

  /** The teardown is precise: when such a reconcile has ended, just the objects named and labelled for the
      resource are gone, and every other object in the cluster is as it was. */
  lemma {:induction false} DeletionIsPrecise(s: System, run: seq<Action>, k: Kind, name: string)
    requires CustodyInv(s) && SoloRun(k, run)
    requires Side(s, k).pc == Listing(name) && Condemned(Side(s, k).store, name)
    ensures var s', st := Run(s, run), Side(s, k).store;
            Side(s', k).pc.Idle? ==> Cleared(s.ns, k, st.crs[Find(st.crs, name)], s.children, s'.children)
  {
    var cr := Side(s, k).store.crs[Find(Side(s, k).store.crs, name)];
    RunSweeps(s, run, k, cr);
    forall key | key in s.children
      ensures Hit(TeardownOrder(s.ns, k, cr), s.children[key]) <==> Goes(s.ns, k, cr, s.children[key])
    {
      OrderTakes(s.ns, k, cr, s.children[key]);
    }
  }
}
