/** The two controllers do not interfere: any interleaving of their API calls, and of what users
    do to either kind, ends in the same state as running one kind after the other. */
module Interference {
  import opened Api
  import opened Planning
  import opened Protocol
  import opened Sides

  /** The kind whose resources, controller or objects an action is about. */
  function KindOf(efaSccs: set<string>, a: Action): Kind
    requires !a.Relabel?
  {
    if a.UserDelete? || a.UserCreate? then SideOf(efaSccs, a.key) else a.k
  }

  /** Two sets of objects look the same to kind k. */
  ghost predicate SameOnSide(efaSccs: set<string>, k: Kind, a: Children, b: Children) {
    forall key :: SideOf(efaSccs, key) == k ==> (key in a <==> key in b) && (key in a ==> a[key] == b[key])
  }

  lemma SameOnBoth(efaSccs: set<string>, a: Children, b: Children)
    requires SameOnSide(efaSccs, Efa, a, b) && SameOnSide(efaSccs, Gdrdrv, a, b)
    ensures a == b
  {
    forall key ensures (key in a <==> key in b) && (key in a ==> a[key] == b[key]) {
      assert SideOf(efaSccs, key) == Efa || SideOf(efaSccs, key) == Gdrdrv;
    }
  }

  /** A bulk deletion finds the same objects wherever the deleting side looks the same. */
  lemma MatchingLocal(efaSccs: set<string>, k: Kind, a: Children, b: Children, res: Res, ns: string, labels: map<string, string>)
    requires ChildrenApart(efaSccs, a) && ChildrenApart(efaSccs, b) && SameOnSide(efaSccs, k, a, b)
    requires MOD_NAME in labels && labels[MOD_NAME] == ModName(k)
    ensures Matching(a, res, ns, labels) == Matching(b, res, ns, labels)
  {
    forall key ensures key in Matching(a, res, ns, labels) <==> key in Matching(b, res, ns, labels) {
      if key in a && Carries(a[key].labels, labels) { assert ModName(SideOf(efaSccs, key)) == ModName(k); }
      if key in b && Carries(b[key].labels, labels) { assert ModName(SideOf(efaSccs, key)) == ModName(k); }
    }
  }

  /** A call of kind k concerns its own side. */
  ghost predicate CallOnSide(efaSccs: set<string>, k: Kind, call: Call) {
    && (call.GetChild? || call.DeleteChild? ==> SideOf(efaSccs, call.key) == k)
    && (call.CreateChild? ==> SideOf(efaSccs, call.child.key) == k)
    && (call.DeleteAllOf? ==> MOD_NAME in call.labels && call.labels[MOD_NAME] == ModName(k))
  }

  lemma NextCallOnSide(efaSccs: set<string>, k: Kind, pc: Pc)
    requires PcApart(efaSccs, k, pc) && HasCall(pc)
    ensures CallOnSide(efaSccs, k, NextCall(pc))
  {
    if pc.Filling? { assert NewChildApart(efaSccs, k, pc.todo[0]); }
    if pc.Tearing? { assert TeardownApart(efaSccs, k, pc.steps[0]); }
  }

  lemma ExecLocal(efaSccs: set<string>, k: Kind, st: Store, a: Children, b: Children, nodes: seq<Node>, call: Call, fault: Fault)
    requires CallOnSide(efaSccs, k, call) && SameOnSide(efaSccs, k, a, b)
    requires ChildrenApart(efaSccs, a) && ChildrenApart(efaSccs, b)
    ensures var e, f := Exec(st, a, nodes, call, fault), Exec(st, b, nodes, call, fault);
            e.store == f.store && e.reply == f.reply && SameOnSide(efaSccs, k, e.children, f.children)
  {
    if call.DeleteAllOf? { MatchingLocal(efaSccs, k, a, b, call.res, call.ns, call.labels); }
  }

  /** A turn depends on, and changes, only what its kind can see. */
  lemma {:induction false} TurnLocal(efaSccs: set<string>, ns: string, k: Kind, c: Ctl, a: Children, b: Children, nodes: seq<Node>, fault: Fault)
    requires CtlApart(efaSccs, k, c) && ChildrenApart(efaSccs, a) && ChildrenApart(efaSccs, b) && SameOnSide(efaSccs, k, a, b)
    ensures TakeTurn(ns, k, c, a, nodes, fault).ctl == TakeTurn(ns, k, c, b, nodes, fault).ctl
    ensures SameOnSide(efaSccs, k, TakeTurn(ns, k, c, a, nodes, fault).children, TakeTurn(ns, k, c, b, nodes, fault).children)
  {
    if HasCall(c.pc) {
      NextCallOnSide(efaSccs, k, c.pc);
      ExecLocal(efaSccs, k, c.store, a, b, nodes, NextCall(c.pc), fault);
    }
  }

  // ----- actions of different kinds commute -----

  /** The part of the state that kind k can see, and the rest of it. */
  ghost predicate SameFor(efaSccs: set<string>, k: Kind, s: System, t: System) {
    Side(s, k) == Side(t, k) && SameOnSide(efaSccs, k, s.children, t.children) && s.nodes == t.nodes && s.ns == t.ns
  }

  lemma {:induction false} StepLocal(efaSccs: set<string>, s: System, t: System, a: Action)
    requires SidesInv(efaSccs, s) && SidesInv(efaSccs, t) && !a.Relabel?
    requires SameFor(efaSccs, KindOf(efaSccs, a), s, t)
    ensures SameFor(efaSccs, KindOf(efaSccs, a), Step(s, a), Step(t, a))
  {
    if a.Api? { TurnLocal(efaSccs, s.ns, a.k, Side(s, a.k), s.children, t.children, s.nodes, a.fault); }
  }

  lemma {:induction false} StepElsewhere(efaSccs: set<string>, s: System, a: Action, k: Kind)
    requires SidesInv(efaSccs, s) && !a.Relabel? && KindOf(efaSccs, a) != k
    ensures SameFor(efaSccs, k, s, Step(s, a))
  {
    if a.Api? {
      forall key | SideOf(efaSccs, key) == k
        ensures (key in s.children <==> key in Step(s, a).children)
                && (key in s.children ==> s.children[key] == Step(s, a).children[key])
      {
        TurnStaysOnSide(efaSccs, s.ns, a.k, Side(s, a.k), s.children, s.nodes, a.fault, key);
      }
    }
  }

  lemma {:induction false} Commute(efaSccs: set<string>, s: System, a: Action, b: Action)
    requires SidesInv(efaSccs, s) && Separate(efaSccs, a) && Separate(efaSccs, b)
    requires !a.Relabel? && !b.Relabel? && KindOf(efaSccs, a) != KindOf(efaSccs, b)
    ensures Step(Step(s, a), b) == Step(Step(s, b), a)
  {
    var k, l := KindOf(efaSccs, a), KindOf(efaSccs, b);
    StepApart(efaSccs, s, a);
    StepApart(efaSccs, s, b);
    var sa, sb := Step(s, a), Step(s, b);
    StepElsewhere(efaSccs, s, b, k);
    StepLocal(efaSccs, s, sb, a);
    StepElsewhere(efaSccs, sa, b, k);
    StepElsewhere(efaSccs, s, a, l);
    StepLocal(efaSccs, s, sa, b);
    StepElsewhere(efaSccs, sb, a, l);
    assert SameFor(efaSccs, k, Step(sa, b), Step(sb, a));
    assert SameFor(efaSccs, l, Step(sa, b), Step(sb, a));
    SameOnBoth(efaSccs, Step(sa, b).children, Step(sb, a).children);
  }

  // ----- runs -----

  ghost predicate Quiet(efaSccs: set<string>, run: seq<Action>) {
    SeparateRun(efaSccs, run) && forall i :: 0 <= i < |run| ==> !run[i].Relabel?
  }

  /** The actions of one kind, in their order. */
  function Only(efaSccs: set<string>, run: seq<Action>, k: Kind): seq<Action>
    requires forall i :: 0 <= i < |run| ==> !run[i].Relabel?
  {
    if run == [] then []
    else Only(efaSccs, run[..|run| - 1], k)
         + (if KindOf(efaSccs, run[|run| - 1]) == k then [run[|run| - 1]] else [])
  }

  lemma {:induction false} OnlyOfKind(efaSccs: set<string>, run: seq<Action>, k: Kind)
    requires Quiet(efaSccs, run)
    ensures Quiet(efaSccs, Only(efaSccs, run, k))
    ensures forall i :: 0 <= i < |Only(efaSccs, run, k)| ==> KindOf(efaSccs, Only(efaSccs, run, k)[i]) == k
  {
    if run != [] { OnlyOfKind(efaSccs, run[..|run| - 1], k); }
  }

  /** An action slides past any number of actions of the other kind. */
  lemma {:induction false} Slide(efaSccs: set<string>, s: System, run: seq<Action>, a: Action)
    requires SidesInv(efaSccs, s) && Quiet(efaSccs, run) && Separate(efaSccs, a) && !a.Relabel?
    requires forall i :: 0 <= i < |run| ==> KindOf(efaSccs, run[i]) != KindOf(efaSccs, a)
    ensures Step(Run(s, run), a) == Run(Step(s, a), run)
    decreases |run|
  {
    if run != [] {
      var r, b := run[..|run| - 1], run[|run| - 1];
      RunApart(efaSccs, s, r);
      Commute(efaSccs, Run(s, r), a, b);
      Slide(efaSccs, s, r, a);
    }
  }

  /** Any interleaving ends exactly where the serial run ends: all EfaDriver actions first, then
      all GdrdrvDriver actions. */
  lemma {:induction false} InterleavingIsSerial(efaSccs: set<string>, s: System, run: seq<Action>)
    requires SidesInv(efaSccs, s) && Quiet(efaSccs, run)
    ensures Run(s, run) == Run(s, Only(efaSccs, run, Efa) + Only(efaSccs, run, Gdrdrv))
    decreases |run|
  {
    if run != [] {
      var r, a := run[..|run| - 1], run[|run| - 1];
      var e, g := Only(efaSccs, r, Efa), Only(efaSccs, r, Gdrdrv);
      InterleavingIsSerial(efaSccs, s, r);
      RunConcat(s, e, g);
      OnlyOfKind(efaSccs, r, Efa);
      OnlyOfKind(efaSccs, r, Gdrdrv);
      if KindOf(efaSccs, a).Efa? {
        RunApart(efaSccs, s, e);
        Slide(efaSccs, Run(s, e), g, a);
        RunAppend(s, e, a);
        RunConcat(s, e + [a], g);
        assert Only(efaSccs, run, Efa) == e + [a] && Only(efaSccs, run, Gdrdrv) == g;
      } else {
        RunAppend(s, e + g, a);
        assert e + g + [a] == e + (g + [a]);
        assert Only(efaSccs, run, Efa) == e && Only(efaSccs, run, Gdrdrv) == g + [a];
      }
    }
  }

  /** So two runs in which each kind does the same things end in the same state. */
  lemma {:induction false} InterleavingsAgree(efaSccs: set<string>, s: System, run: seq<Action>, other: seq<Action>)
    requires SidesInv(efaSccs, s) && Quiet(efaSccs, run) && Quiet(efaSccs, other)
    requires forall k :: Only(efaSccs, run, k) == Only(efaSccs, other, k)
    ensures Run(s, run) == Run(s, other)
  {
    InterleavingIsSerial(efaSccs, s, run);
    InterleavingIsSerial(efaSccs, s, other);
  }

  // ----- driver versions -----

  lemma CollideIff(head: string, tail: string, suffix: string)
    ensures (exists efa :: efa + suffix == head + tail) <==> EndsWith(head + tail, suffix)
  {
    var s := head + tail;
    forall efa | efa + suffix == s ensures EndsWith(s, suffix) {
      EndsWithTail(efa, suffix);
    }
    if EndsWith(s, suffix) { assert s == s[..|s| - |suffix|] + suffix; }
  }

  /** The condition on driver versions is exact: the Module name of a driver version is also that of some
      EfaDriver exactly when the version, behind its dash, ends in -efa. */
  lemma ModuleNamesCollideIff(name: string, version: string)
    ensures (exists efa :: KmmName(Efa, efa, "") == KmmName(Gdrdrv, name, version)) <==> EndsWith("-" + version, EFA_MODULE)
  {
    forall efa ensures KmmName(Efa, efa, "") == efa + EFA_MODULE { EfaNames(efa, ""); }
    CudaNames(name, version);
    CudaNameEnds(name, version);
    CollideIff(ModuleHead(name), "-" + version, EFA_MODULE);
  }

  /** And its ConfigMap name exactly when it ends in -efa-kmm-dockerfile. */
  lemma DockerfileNamesCollideIff(name: string, version: string)
    ensures (exists efa :: DockerfileName(Efa, efa, "") == DockerfileName(Gdrdrv, name, version))
            <==> EndsWith("-" + version, EFA_DOCKERFILE)
  {
    forall efa ensures DockerfileName(Efa, efa, "") == efa + EFA_DOCKERFILE { EfaNames(efa, ""); }
    CudaNames(name, version);
    CudaNameEnds(name, version);
    CollideIff(DockerfileHead(name), "-" + version, EFA_DOCKERFILE);
  }
}
