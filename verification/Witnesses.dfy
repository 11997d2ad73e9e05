/** Runs from a fresh installation that reach the states some theorems start from, and that show what
    happens when their conditions are not met. */
module Witnesses {
  import opened Api
  import opened Planning
  import opened Protocol
  import opened Inventory
  import opened Holding
  import opened Ownership
  import opened Orphans
  import opened Custody
  import opened Exactness
  import opened Deletion
  import opened Healing
  import opened Sides

  // ----- deploying a resource -----

  lemma {:induction false} SoloElsewhere(s: System, run: seq<Action>, k: Kind, other: Kind)
    requires SoloRun(k, run) && other != k
    ensures Side(Run(s, run), other) == Side(s, other) && Run(s, run).nodes == s.nodes && Run(s, run).ns == s.ns
    decreases |run|
  {
    if run != [] {
      var r, a := run[..|run| - 1], run[|run| - 1];
      SoloElsewhere(s, r, k, other);
      assert Solo(k, a);
      StepSide(Run(s, r), a, other);
    }
  }

  lemma {:induction false} OrderedConcat(s: System, run: seq<Action>, more: seq<Action>)
    requires Ordered(s, run) && Ordered(Run(s, run), more)
    ensures Ordered(s, run + more)
    decreases |more|
  {
    if more == [] {
      assert run + more == run;
    } else {
      var m, a := more[..|more| - 1], more[|more| - 1];
      OrderedConcat(s, run, m);
      RunConcat(s, run, m);
      assert (run + more)[..|run| + |m|] == run + m && (run + more)[|run| + |m|] == a;
    }
  }

  lemma WriteAddsNone(st: Store, cr: Cr, condition: Condition, finalizer: bool, name: string)
    requires Find(st.crs, name) == |st.crs|
    ensures var crs := Write(st, cr, condition, finalizer).0.crs; Find(crs, name) == |crs|
  {
    var crs := Write(st, cr, condition, finalizer).0.crs;
    assert forall j :: 0 <= j < |crs| ==> exists i :: 0 <= i < |st.crs| && crs[j].name == st.crs[i].name;
  }

  lemma TurnAddsNone(ns: string, k: Kind, c: Ctl, children: Children, nodes: seq<Node>, name: string)
    requires Find(c.store.crs, name) == |c.store.crs|
    ensures var crs := TakeTurn(ns, k, c, children, nodes, Fine).ctl.store.crs; Find(crs, name) == |crs|
  {
    if HasCall(c.pc) {
      ExecStore(c.store, children, nodes, NextCall(c.pc), Fine);
      match NextCall(c.pc) {
        case UpdateStatus(cr, condition) => WriteAddsNone(c.store, cr, condition, cr.finalizer, name);
        case UpdateFinalizer(cr, finalizer) => WriteAddsNone(c.store, cr, cr.condition, finalizer, name);
        case _ =>
      }
    }
  }

  /** No step of a controller adds a resource. */
  lemma {:induction false} SoloAddsNone(s: System, run: seq<Action>, k: Kind, name: string)
    requires SoloRun(k, run) && Find(Side(s, k).store.crs, name) == |Side(s, k).store.crs|
    ensures Find(Side(Run(s, run), k).store.crs, name) == |Side(Run(s, run), k).store.crs|
    decreases |run|
  {
    if run != [] {
      var r, a := run[..|run| - 1], run[|run| - 1];
      var s' := Run(s, r);
      SoloAddsNone(s, r, k, name);
      assert Solo(k, a);
      StepSide(s', a, k);
      if a.Api? { TurnAddsNone(s'.ns, k, Side(s', k), s'.children, s'.nodes, name); }
    }
  }

  /** The run creates at most this one resource, at the front of the list, no user deletes a child, and no
      node changes. */
  predicate Plain(run: seq<Action>, create: Action) {
    forall i :: 0 <= i < |run| ==> !run[i].UserDelete? && !run[i].Relabel? && (run[i].CreateCr? ==> run[i] == create)
  }

  ghost predicate Clean(s: System, run: seq<Action>) {
    Ordered(s, run) && forall i :: 0 <= i < |run| ==> !run[i].UserDelete?
  }

  lemma CleanConcat(s: System, run: seq<Action>, more: seq<Action>)
    requires Clean(s, run) && Clean(Run(s, run), more)
    ensures Clean(s, run + more) && Run(s, run + more) == Run(Run(s, run), more)
  {
    OrderedConcat(s, run, more);
    RunConcat(s, run, more);
  }

  lemma SoloIsPlain(s: System, run: seq<Action>, k: Kind, create: Action)
    requires SoloRun(k, run)
    ensures Plain(run, create) && Clean(s, run)
  {
    assert forall i :: 0 <= i < |run| ==> Solo(k, run[i]);
    NoneCreatedIsOrdered(s, run);
  }

  /** Two actions, as a run. */
  lemma RunTwo(s: System, a: Action, b: Action)
    ensures Run(s, [a, b]) == Step(Step(s, a), b)
  {
    RunAppend(s, [], a);
    assert [] + [a] == [a] && [a] + [b] == [a, b];
    RunAppend(s, [a], b);
  }

  function FirstCr(st: Store, name: string, spec: Spec): Cr {
    Cr(name, st.tick, st.tick, spec, Unset, false, false)
  }

  function Creation(k: Kind, name: string, spec: Spec): seq<Action> {
    [CreateCr(k, name, spec, 0), Start(k, name)]
  }

  lemma FrontIsHealable(s: System, k: Kind, name: string, spec: Spec)
    requires Sane(Side(s, k).store) && Find(Side(s, k).store.crs, name) == |Side(s, k).store.crs|
    requires Side(s, k).pc.Idle? && name != "" && (k.Efa? ==> !SomeUndiscovered(s.nodes))
    ensures var t := Run(s, Creation(k, name, spec));
            && Healable(t, k, FirstCr(Side(s, k).store, name, spec)) && t.children == s.children && t.ns == s.ns && t.nodes == s.nodes
            && Side(t, k).store.crs == [FirstCr(Side(s, k).store, name, spec)] + Side(s, k).store.crs
            && forall other :: other != k ==> Side(t, other) == Side(s, other)
  {
    var a, b := CreateCr(k, name, spec, 0), Start(k, name);
    RunTwo(s, a, b);
    StepSide(s, a, k);
    StepSide(Step(s, a), b, k);
    var st := Side(Step(s, a), k).store;
    assert st.crs == [FirstCr(Side(s, k).store, name, spec)] + Side(s, k).store.crs;
    assert Find(st.crs, name) == 0;
  }

  lemma FirstIsOrdered(s: System, k: Kind, name: string, spec: Spec)
    requires Side(s, k).store.crs == []
    ensures Ordered(s, Creation(k, name, spec))
  {
    assert Creation(k, name, spec)[..0] == [];
    AppendIsOrdered(s, Creation(k, name, spec));
  }

  lemma CreatedThen(s: System, k: Kind, name: string, spec: Spec, heal: seq<Action>)
    requires SoloRun(k, heal)
    ensures var run := Creation(k, name, spec) + heal;
            && Run(s, run) == Run(Run(s, Creation(k, name, spec)), heal)
            && Plain(run, CreateCr(k, name, spec, 0)) && (Side(s, k).store.crs == [] ==> Clean(s, run))
  {
    var start := Creation(k, name, spec);
    var t := Run(s, start);
    SoloIsPlain(t, heal, k, CreateCr(k, name, spec, 0));
    RunConcat(s, start, heal);
    if Side(s, k).store.crs == [] {
      FirstIsOrdered(s, k, name, spec);
      CleanConcat(s, start, heal);
    }
  }

  lemma {:induction false} HealAll(t: System, k: Kind, other: Kind, want: Cr) returns (heal: seq<Action>)
    requires Healable(t, k, want) && other != k
    ensures SoloRun(k, heal)
    ensures var u := Run(t, heal);
            && Side(u, k).pc == Idle(Finished) && Mended(Side(u, k).store, want) && Live(Side(u, k).store, want.name)
            && Complete(t.ns, k, want, t.nodes, u.children)
            && (forall key :: key in t.children ==> key in u.children && u.children[key] == t.children[key])
            && (forall key :: key in u.children && key !in t.children ==> u.children[key].owner == OwnerOf(k, want))
            && Side(u, other) == Side(t, other) && u.nodes == t.nodes && u.ns == t.ns
  {
    heal := HealingRun(t, [], k, want);
    BusyIsSolo(t, heal, k);
    ReconcileHeals(t, heal, k, want);
    SoloElsewhere(t, heal, k, other);
  }

  /** A resource that is created at the front of the list can be deployed, from any state with an idle
      controller: some run of the user's creation and the controller's own steps ends with it Ready, with
      the finalizer and complete. */
  lemma {:induction false} Deploy(s: System, k: Kind, other: Kind, name: string, spec: Spec) returns (run: seq<Action>)
    requires Sane(Side(s, k).store) && Find(Side(s, k).store.crs, name) == |Side(s, k).store.crs|
    requires Side(s, k).pc.Idle? && name != "" && (k.Efa? ==> !SomeUndiscovered(s.nodes)) && other != k
    ensures var t, want := Run(s, run), FirstCr(Side(s, k).store, name, spec);
            && Side(t, k).pc == Idle(Finished) && Mended(Side(t, k).store, want) && Live(Side(t, k).store, name)
            && Complete(s.ns, k, want, s.nodes, t.children)
            && (forall key :: key in s.children ==> key in t.children && t.children[key] == s.children[key])
            && (forall key :: key in t.children && key !in s.children ==> t.children[key].owner == OwnerOf(k, want))
            && Side(t, other) == Side(s, other) && t.nodes == s.nodes && t.ns == s.ns
    ensures forall n :: n != name && Find(Side(s, k).store.crs, n) == |Side(s, k).store.crs|
                        ==> Find(Side(Run(s, run), k).store.crs, n) == |Side(Run(s, run), k).store.crs|
    ensures Plain(run, CreateCr(k, name, spec, 0)) && (Side(s, k).store.crs == [] ==> Clean(s, run))
  {
    var want, start := FirstCr(Side(s, k).store, name, spec), Creation(k, name, spec);
    var t := Run(s, start);
    FrontIsHealable(s, k, name, spec);
    var heal := HealAll(t, k, other, want);
    forall n | n != name && Find(Side(s, k).store.crs, n) == |Side(s, k).store.crs|
      ensures Find(Side(Run(t, heal), k).store.crs, n) == |Side(Run(t, heal), k).store.crs|
    {
      SoloAddsNone(t, heal, k, n);
    }
    CreatedThen(s, k, name, spec, heal);
    run := start + heal;
  }

  lemma InitialCustody(ns: string, nodes: seq<Node>)
    ensures CustodyInv(Initial(ns, nodes))
  {
  }

  // ----- an orphan -----

  /** The abandoned resource is real: for either kind, any names, specs and nodes, none of them waiting, a
      run from a fresh installation deploys a resource, and the creation of another one ahead of it leaves
      it Ignored with its finalizer in every state of every continuation. */
  lemma OrphanReachable(ns: string, nodes: seq<Node>, k: Kind, other: Kind, name: string, spec: Spec, second: string)
    returns (deploy: seq<Action>)
    requires name != "" && second != "" && second != name && other != k
    requires k.Efa? ==> !SomeUndiscovered(nodes)
    ensures Ordered(Initial(ns, nodes), deploy)
    ensures var s := Run(Initial(ns, nodes), deploy);
            var i := Find(Side(s, k).store.crs, name);
            && OwnInv(Side(s, k)) && Side(s, k).pc.Idle? && i < |Side(s, k).store.crs|
            && Side(s, k).store.crs[i].condition == Ready && Side(s, k).store.crs[i].finalizer
            && Find(Side(s, k).store.crs, second) == |Side(s, k).store.crs|
            && (forall later ::
                  var steps := [CreateCr(k, second, spec, i), Start(k, name), Api(k, Fine), Api(k, Fine)];
                  Abandoned(Side(Run(Run(s, steps), later), k), name, Side(s, k).store.crs[i].uid))
  {
    var s0 := Initial(ns, nodes);
    deploy := Deploy(s0, k, other, name, spec);
    var s := Run(s0, deploy);
    RunKeeps(s0, deploy, k);
    var i := Find(Side(s, k).store.crs, name);
    forall later
      ensures var steps := [CreateCr(k, second, spec, i), Start(k, name), Api(k, Fine), Api(k, Fine)];
              Abandoned(Side(Run(Run(s, steps), later), k), name, Side(s, k).store.crs[i].uid)
    {
      EarlierCreationOrphans(s, k, i, second, spec, i, later);
    }
  }

  // ----- shared SecurityContextConstraints -----

  /** No step of the teardown is about the DaemonSet `ds`. */
  predicate Spares(steps: seq<Teardown>, ds: Key) {
    forall t :: t in steps ==> match t
                               case ByName(key) => key != ds
                               case ByLabel(res, _, _) => res != DaemonSet
  }

  /** On the way through the teardown of `cr`: its constraints are still to go or gone, and the DaemonSet
      of the other kind is untouched. */
  ghost predicate Going(c: Ctl, children: Children, cr: Cr, ds: Child) {
    && ds.key in children && children[ds.key] == ds
    && (match c.pc
        case Listing(name) =>
          var i := Find(c.store.crs, name);
          name == cr.name && i < |c.store.crs| && c.store.crs[i].spec == cr.spec
        case Retiring(copy) => copy.name == cr.name && copy.spec == cr.spec
        case Tearing(_, steps, _) => (ByName(SccKey(cr)) in steps || SccKey(cr) !in children) && Spares(steps, ds.key)
        case _ => SccKey(cr) !in children)
  }

  lemma OrderGoes(ns: string, k: Kind, cr: Cr, copy: Cr, ds: Key)
    requires OnOpenShift(cr.spec) && copy.name == cr.name && copy.spec == cr.spec
    requires ds.res == DaemonSet && ds != PluginKey(ns, k, cr)
    ensures ByName(SccKey(cr)) in TeardownOrder(ns, k, copy) && Spares(TeardownOrder(ns, k, copy), ds)
  {
    var order := TeardownOrder(ns, k, copy);
    assert order[1] == ByName(SccKey(cr));
  }

  lemma {:induction false} TearGoes(c: Ctl, children: Children, nodes: seq<Node>, cr: Cr, ds: Child)
    requires c.pc.Tearing? && c.pc.steps != [] && Going(c, children, cr, ds) && ds.key.res == DaemonSet
    ensures var e := Exec(c.store, children, nodes, NextCall(c.pc), Fine);
            Going(Ctl(e.store, AfterTear(c.pc, e.reply)), e.children, cr, ds)
  {
    var first, steps := c.pc.steps[0], c.pc.steps[1..];
    assert first in c.pc.steps && forall t :: t in steps ==> t in c.pc.steps;
    assert forall t :: t in c.pc.steps ==> t == first || t in steps;
  }

  lemma {:induction false} TurnGoes(ns: string, k: Kind, c: Ctl, children: Children, nodes: seq<Node>, cr: Cr, ds: Child)
    requires Removing(c, cr.name) && Sane(c.store) && Going(c, children, cr, ds)
    requires OnOpenShift(cr.spec) && ds.key.res == DaemonSet && ds.key != PluginKey(ns, k, cr)
    ensures var t := TakeTurn(ns, k, c, children, nodes, Fine); Going(t.ctl, t.children, cr, ds)
  {
    if c.pc.Listing? {
      ElectFinds(c.store.crs, cr.name, "");
      OrderGoes(ns, k, cr, c.store.crs[Find(c.store.crs, cr.name)], ds.key);
      ListingRemoves(ns, k, c.store, cr.name);
    } else if c.pc.Retiring? {
      WriteExact(c.store, c.pc.cr, Deleting, c.pc.cr.finalizer);
      OrderGoes(ns, k, cr, c.pc.cr.(condition := Deleting, version := c.store.tick), ds.key);
    } else if c.pc.Tearing? {
      TearGoes(c, children, nodes, cr, ds);
    }
  }

  lemma {:induction false} RunGoes(s: System, run: seq<Action>, k: Kind, cr: Cr, ds: Child)
    requires CustodyInv(s) && SoloRun(k, run) && forall i :: 0 <= i < |run| ==> run[i] == Api(k, Fine)
    requires Side(s, k).pc == Listing(cr.name) && Condemned(Side(s, k).store, cr.name) && Going(Side(s, k), s.children, cr, ds)
    requires OnOpenShift(cr.spec) && ds.key.res == DaemonSet && ds.key != PluginKey(s.ns, k, cr)
    ensures Going(Side(Run(s, run), k), Run(s, run).children, cr, ds)
    decreases |run|
  {
    if run != [] {
      var r := run[..|run| - 1];
      var s' := Run(s, r);
      RunGoes(s, r, k, cr, ds);
      RunRemoves(s, r, k, cr.name);
      RunNs(s, r);
      StepSide(s', Api(k, Fine), k);
      TurnGoes(s.ns, k, Side(s', k), s'.children, s'.nodes, cr, ds);
    }
  }

  lemma Asked(s: System, k: Kind, other: Kind, want: Cr, ds: Child)
    requires CustodyInv(s) && Side(s, k).pc.Idle? && Mended(Side(s, k).store, want) && Live(Side(s, k).store, want.name)
    requires ds.key in s.children && s.children[ds.key] == ds && other != k
    ensures var t := Run(s, [RequestDelete(k, want.name), Start(k, want.name)]);
            && CustodyInv(t) && Side(t, k).pc == Listing(want.name) && Condemned(Side(t, k).store, want.name)
            && Going(Side(t, k), t.children, want, ds) && Side(t, other) == Side(s, other) && t.ns == s.ns
  {
    var a, b := RequestDelete(k, want.name), Start(k, want.name);
    var marked := Step(s, a);
    RunTwo(s, a, b);
    StepCustody(s, a);
    StepCustody(marked, b);
    StepSide(s, a, k);
    StepSide(s, a, other);
    StepSide(marked, b, k);
    StepSide(marked, b, other);
    FindAt(Side(marked, k).store.crs, Find(Side(s, k).store.crs, want.name), want.name);
  }

  function Calls(k: Kind): seq<Action> {
    seq(20, _ => Api(k, Fine))
  }

  lemma CallsArePlain(s: System, ask: seq<Action>, k: Kind, create: Action)
    requires forall i :: 0 <= i < |ask| ==> !ask[i].UserDelete? && !ask[i].Relabel? && !ask[i].CreateCr?
    ensures Plain(ask + Calls(k), create) && Clean(s, ask + Calls(k))
  {
    NoneCreatedIsOrdered(s, ask + Calls(k));
  }

  lemma CallsTake(t: System, k: Kind, other: Kind, want: Cr, ds: Child)
    requires CustodyInv(t) && Side(t, k).pc == Listing(want.name) && Condemned(Side(t, k).store, want.name)
    requires Going(Side(t, k), t.children, want, ds) && OnOpenShift(want.spec) && other != k
    requires ds.key.res == DaemonSet && ds.key != PluginKey(t.ns, k, want)
    ensures var u := Run(t, Calls(k));
            && Side(u, other) == Side(t, other) && u.ns == t.ns
            && ds.key in u.children && u.children[ds.key] == ds && SccKey(want) !in u.children
  {
    DeletionCompletes(t, Calls(k), k, want.name);
    RunGoes(t, Calls(k), k, want, ds);
    SoloElsewhere(t, Calls(k), k, other);
  }

  /** Deleting a deployed resource and reconciling it takes its constraints away and leaves any other
      DaemonSet than its own alone. */
  lemma TeardownTakes(s: System, k: Kind, other: Kind, want: Cr, ds: Child, create: Action) returns (run: seq<Action>)
    requires CustodyInv(s) && Side(s, k).pc.Idle? && Mended(Side(s, k).store, want) && Live(Side(s, k).store, want.name)
    requires OnOpenShift(want.spec) && other != k
    requires ds.key in s.children && s.children[ds.key] == ds && ds.key.res == DaemonSet && ds.key != PluginKey(s.ns, k, want)
    ensures Plain(run, create) && Clean(s, run)
    ensures var t := Run(s, run);
            && Side(t, other) == Side(s, other) && t.ns == s.ns
            && ds.key in t.children && t.children[ds.key] == ds && SccKey(want) !in t.children
  {
    var ask := [RequestDelete(k, want.name), Start(k, want.name)];
    Asked(s, k, other, want, ds);
    CallsTake(Run(s, ask), k, other, want, ds);
    run := ask + Calls(k);
    RunConcat(s, ask, Calls(k));
    CallsArePlain(s, ask, k, create);
  }

  lemma PluginsApart(ns: string, a: Cr, b: Cr)
    ensures PluginKey(ns, Efa, a) != PluginKey(ns, Gdrdrv, b)
    ensures a.name != b.name ==> PluginKey(ns, Efa, a) != PluginKey(ns, Efa, b)
  {
    PluginNameApart(Efa, a.name);
    PluginNameApart(Gdrdrv, b.name);
    var x, y := PluginName(Efa, a.name), PluginName(Efa, b.name);
    assert x[..|x| - |EFA_PLUGIN|] == a.name && y[..|y| - |EFA_PLUGIN|] == b.name;
  }

  /** The EfaDriver `efa` is deployed, and its DaemonSet is there. */
  ghost predicate Stands(s: System, efa: Cr) {
    && Mended(s.efa.store, efa)
    && PluginKey(s.ns, Efa, efa) in s.children && s.children[PluginKey(s.ns, Efa, efa)].owner == OwnerOf(Efa, efa)
    && s.children[PluginKey(s.ns, Efa, efa)].key == PluginKey(s.ns, Efa, efa)
  }

  lemma FirstStands(ns: string, nodes: seq<Node>, a: string, spec: Spec) returns (first: seq<Action>)
    requires a != "" && !SomeUndiscovered(nodes)
    ensures var s := Run(Initial(ns, nodes), first);
            && Stands(s, FirstCr(Store([], 0), a, spec)) && CustodyInv(s) && s.efa.pc.Idle? && s.gdrdrv == NOTHING
            && s.ns == ns && s.nodes == nodes
            && forall n :: n != a ==> Find(s.efa.store.crs, n) == |s.efa.store.crs|
    ensures Plain(first, CreateCr(Efa, a, spec, 0)) && Clean(Initial(ns, nodes), first)
  {
    var s0, efa := Initial(ns, nodes), FirstCr(Store([], 0), a, spec);
    InitialCustody(ns, nodes);
    first := Deploy(s0, Efa, Gdrdrv, a, spec);
    RunCustody(s0, first);
    assert Wanted(ns, Efa, efa, nodes, PluginChild(ns, Efa, efa));
  }

  /** Why the two kinds must name their SecurityContextConstraints differently. For any names and specs
      that format the same name on OpenShift, such as one name and one service account for both, a run
      from a fresh installation, without faults and without deletions of children by users, ends with the
      EfaDriver Ready and its DaemonSet there without the constraints it needs. */
  lemma SharedConstraintsVanish(ns: string, nodes: seq<Node>, a: string, b: string, specA: Spec, specB: Spec)
    returns (run: seq<Action>)
    requires a != "" && b != "" && !SomeUndiscovered(nodes)
    requires OnOpenShift(specA) && OnOpenShift(specB) && SccName(a, specA) == SccName(b, specB)
    ensures Clean(Initial(ns, nodes), run)
    ensures var s, efa := Run(Initial(ns, nodes), run), FirstCr(Store([], 0), a, specA);
            Stands(s, efa) && SccKey(efa) !in s.children
  {
    var s0, efa, gdrdrv := Initial(ns, nodes), FirstCr(Store([], 0), a, specA), FirstCr(Store([], 0), b, specB);
    var first := FirstStands(ns, nodes, a, specA);
    var s1 := Run(s0, first);
    var ds := s1.children[PluginKey(ns, Efa, efa)];
    var second := Deploy(s1, Gdrdrv, Efa, b, specB);
    var s2 := Run(s1, second);
    RunCustody(s1, second);
    PluginsApart(ns, efa, gdrdrv);
    var third := TeardownTakes(s2, Gdrdrv, Efa, gdrdrv, ds, CreateCr(Gdrdrv, b, specB, 0));
    CleanConcat(s0, first, second);
    CleanConcat(s0, first + second, third);
    run := first + second + third;
  }

  lemma PlainIsSeparate(run: seq<Action>, create: Action, efaSccs: set<string>)
    requires Plain(run, create) && create.CreateCr? && SccApart(efaSccs, create.k, create.name, create.spec)
    ensures SeparateRun(efaSccs, run) && forall i :: 0 <= i < |run| ==> !run[i].UserDelete?
  {
  }

  /** Why references need the list in order. For any two EfaDrivers that format the same name for their
      constraints on OpenShift, such as a-b with account c and a with account b-c, a run that creates the
      second ahead of the first, without faults and with the two kinds kept apart, ends with the DaemonSet
      of the first there without the constraints it needs. */
  lemma TwoHoldersShare(ns: string, nodes: seq<Node>, a: string, b: string, specA: Spec, specB: Spec)
    returns (run: seq<Action>)
    requires a != "" && b != "" && a != b && !SomeUndiscovered(nodes)
    requires OnOpenShift(specA) && OnOpenShift(specB) && SccName(a, specA) == SccName(b, specB)
    ensures SeparateRun({SccName(a, specA)}, run) && forall i :: 0 <= i < |run| ==> !run[i].UserDelete?
    ensures var s, efa := Run(Initial(ns, nodes), run), FirstCr(Store([], 0), a, specA);
            && PluginKey(ns, Efa, efa) in s.children && s.children[PluginKey(ns, Efa, efa)].owner == OwnerOf(Efa, efa)
            && SccKey(efa) !in s.children
  {
    var s0, efa := Initial(ns, nodes), FirstCr(Store([], 0), a, specA);
    var first := FirstStands(ns, nodes, a, specA);
    var s1 := Run(s0, first);
    var ds, late := s1.children[PluginKey(ns, Efa, efa)], FirstCr(s1.efa.store, b, specB);
    var second := Deploy(s1, Efa, Gdrdrv, b, specB);
    var s2 := Run(s1, second);
    RunCustody(s1, second);
    PluginsApart(ns, efa, late);
    var third := TeardownTakes(s2, Efa, Gdrdrv, late, ds, CreateCr(Efa, b, specB, 0));
    RunConcat(s0, first, second);
    RunConcat(s0, first + second, third);
    PlainIsSeparate(first, CreateCr(Efa, a, specA, 0), {SccName(a, specA)});
    PlainIsSeparate(second, CreateCr(Efa, b, specB, 0), {SccName(a, specA)});
    PlainIsSeparate(third, CreateCr(Efa, b, specB, 0), {SccName(a, specA)});
    run := first + second + third;
  }
}
