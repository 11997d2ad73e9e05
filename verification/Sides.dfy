/** The two controllers never touch each other's objects: every name one of them formats lies on
    its own side of a fixed partition of all object names, provided the SecurityContextConstraints
    names of the two kinds differ on OpenShift and no CUDA driver version ends like the names of an
    EfaDriver's objects. */
module Sides {
  import opened Strings
  import opened Api
  import opened Planning
  import opened Protocol

  predicate EndsWith(s: string, suffix: string) {
    |suffix| <= |s| && s[|s| - |suffix|..] == suffix
  }

  const EFA_MODULE := "-efa"
  const EFA_DOCKERFILE := "-efa-kmm-dockerfile"
  const EFA_PLUGIN := "-efa-device-plugin"

  /** The driver version, behind its dash, does not end like the names of an EfaDriver's Module or
      ConfigMap. */
  predicate Tame(version: string) {
    !EndsWith("-" + version, EFA_MODULE) && !EndsWith("-" + version, EFA_DOCKERFILE)
  }

  /** The partition; `efaSccs` are the SecurityContextConstraints names of the EfaDrivers. */
  function SideOf(efaSccs: set<string>, key: Key): Kind {
    match key.res
    case NodeFeatureRule => Efa
    case Scc => if key.name in efaSccs then Efa else Gdrdrv
    case DaemonSet => if EndsWith(key.name, EFA_PLUGIN) then Efa else Gdrdrv
    case Module => if EndsWith(key.name, EFA_MODULE) then Efa else Gdrdrv
    case ConfigMap => if EndsWith(key.name, EFA_DOCKERFILE) then Efa else Gdrdrv
  }

  /** A resource that is not on OpenShift has no constraints, whatever it would call them. */
  predicate SccApart(efaSccs: set<string>, k: Kind, name: string, spec: Spec) {
    OnOpenShift(spec) ==> (k.Efa? <==> SccName(name, spec) in efaSccs)
  }

  predicate CrApart(efaSccs: set<string>, k: Kind, cr: Cr) {
    SccApart(efaSccs, k, cr.name, cr.spec)
  }

  lemma PluginNameApart(k: Kind, name: string)
    ensures EndsWith(PluginName(k, name), EFA_PLUGIN) <==> k.Efa?
  {
    var p := PluginName(k, name);
    var suffix := "-" + ModName(k) + "-device-plugin";
    assert p == name + suffix;
    if k.Efa? {
      assert suffix == EFA_PLUGIN;
      assert p[|p| - |suffix|..] == suffix;
    } else {
      assert suffix == "-gdrdrv-device-plugin";
      assert p[|p| - 15] == suffix[6] == 'v';
      assert p[|p| - 18..][3] == 'v' != EFA_PLUGIN[3];
    }
  }

  lemma EndsWithTail(head: string, tail: string)
    ensures EndsWith(head + tail, tail)
  {
  }

  /** A suffix without a v cannot reach across a v. */
  lemma EndInside(head: string, tail: string, suffix: string)
    requires head != "" && head[|head| - 1] == 'v' && Free(suffix, 'v')
    ensures EndsWith(head + tail, suffix) <==> EndsWith(tail, suffix)
  {
    var s := head + tail;
    assert s[|head| - 1] == 'v';
    if |suffix| <= |tail| { assert s[|s| - |suffix|..] == tail[|tail| - |suffix|..]; }
  }

  /** What stands before the dash of the driver version in a name. */
  function ModuleHead(name: string): string { name + "-gdrdrv" + "-cudadrv" }
  function DockerfileHead(name: string): string { name + "-gdrdrv" + "-kmm-dockerfile" + "-cudadrv" }

  lemma CudaSuffix(version: string)
    ensures KmmSuffix(Gdrdrv, version) == "-cudadrv" + ("-" + version)
  {
  }

  lemma CudaHead(name: string)
    ensures name + "-" + ModName(Gdrdrv) == name + "-gdrdrv"
    ensures name + "-" + ModName(Gdrdrv) + "-kmm-dockerfile" == name + "-gdrdrv" + "-kmm-dockerfile"
  {
  }

  lemma Regroup(a: string, b: string, c: string)
    ensures a + (b + c) == a + b + c
  {
  }

  lemma CudaNames(name: string, version: string)
    ensures KmmName(Gdrdrv, name, version) == ModuleHead(name) + ("-" + version)
    ensures DockerfileName(Gdrdrv, name, version) == DockerfileHead(name) + ("-" + version)
  {
    CudaSuffix(version);
    CudaHead(name);
    Regroup(name + "-gdrdrv", "-cudadrv", "-" + version);
    Regroup(name + "-gdrdrv" + "-kmm-dockerfile", "-cudadrv", "-" + version);
  }

  lemma EfaNames(name: string, version: string)
    ensures KmmName(Efa, name, version) == name + EFA_MODULE
    ensures DockerfileName(Efa, name, version) == name + EFA_DOCKERFILE
  {
  }

  /** The names of a GdrdrvDriver's objects end like an EfaDriver's exactly when the version does. */
  lemma CudaNameEnds(name: string, version: string)
    ensures EndsWith(KmmName(Gdrdrv, name, version), EFA_MODULE) <==> EndsWith("-" + version, EFA_MODULE)
    ensures EndsWith(DockerfileName(Gdrdrv, name, version), EFA_DOCKERFILE) <==> EndsWith("-" + version, EFA_DOCKERFILE)
  {
    CudaNames(name, version);
    EndInside(ModuleHead(name), "-" + version, EFA_MODULE);
    EndInside(DockerfileHead(name), "-" + version, EFA_DOCKERFILE);
  }

  lemma KmmNamesApart(k: Kind, name: string, version: string)
    requires k.Gdrdrv? ==> Tame(version)
    ensures EndsWith(KmmName(k, name, version), EFA_MODULE) <==> k.Efa?
    ensures EndsWith(DockerfileName(k, name, version), EFA_DOCKERFILE) <==> k.Efa?
  {
    if k.Efa? {
      EfaNames(name, version);
      EndsWithTail(name, EFA_MODULE);
      EndsWithTail(name, EFA_DOCKERFILE);
    } else {
      CudaNameEnds(name, version);
    }
  }

  /** Every name a controller formats is on its side. */
  lemma KeysApart(efaSccs: set<string>, ns: string, k: Kind, cr: Cr, version: string)
    requires CrApart(efaSccs, k, cr) && (k.Gdrdrv? ==> Tame(version))
    ensures SideOf(efaSccs, DockerfileKey(k, cr, version)) == k
    ensures SideOf(efaSccs, KmmKey(k, cr, version)) == k
    ensures OnOpenShift(cr.spec) ==> SideOf(efaSccs, SccKey(cr)) == k
    ensures SideOf(efaSccs, PluginKey(ns, k, cr)) == k
    ensures k.Efa? ==> SideOf(efaSccs, NfrKey(ns, cr)) == k
  {
    KmmNamesApart(k, cr.name, version);
    PluginNameApart(k, cr.name);
  }

  // ----- the invariant -----

  /** The modName label of an object, if it has one, is that of its side; so is its owner. */
  predicate ChildApart(efaSccs: set<string>, key: Key, child: Child) {
    && (MOD_NAME in child.labels ==> child.labels[MOD_NAME] == ModName(SideOf(efaSccs, key)))
    && (child.owner.Some? ==> child.owner.value.kind == SideOf(efaSccs, key))
  }

  predicate TeardownApart(efaSccs: set<string>, k: Kind, t: Teardown) {
    match t
    case ByName(key) => SideOf(efaSccs, key) == k
    case ByLabel(_, _, labels) => MOD_NAME in labels && labels[MOD_NAME] == ModName(k)
  }

  predicate NewChildApart(efaSccs: set<string>, k: Kind, child: Child) {
    ChildApart(efaSccs, child.key, child) && SideOf(efaSccs, child.key) == k
  }

  predicate RestApart(rest: Rest) {
    rest.ThenRange? ==> forall v :: v in rest.versions ==> Tame(v)
  }

  ghost predicate PcApart(efaSccs: set<string>, k: Kind, pc: Pc) {
    && (pc.Idle? || pc.Listing? || CrApart(efaSccs, k, pc.cr))
    && (pc.Filling? ==> RestApart(pc.rest) && (pc.rest.ThenRange? ==> k.Gdrdrv?)
                        && forall i :: 0 <= i < |pc.todo| ==> NewChildApart(efaSccs, k, pc.todo[i]))
    && (pc.Ranging? ==> k.Gdrdrv? && forall v :: v in pc.versions ==> Tame(v))
    && (pc.Tearing? ==> forall i :: 0 <= i < |pc.steps| ==> TeardownApart(efaSccs, k, pc.steps[i]))
  }

  ghost predicate CtlApart(efaSccs: set<string>, k: Kind, c: Ctl) {
    PcApart(efaSccs, k, c.pc) && forall i :: 0 <= i < |c.store.crs| ==> CrApart(efaSccs, k, c.store.crs[i])
  }

  predicate NodesTame(nodes: seq<Node>) {
    forall n :: n in nodes && HasCuda(n) ==> Tame(CudaVersion(n))
  }

  ghost predicate ChildrenApart(efaSccs: set<string>, children: Children) {
    forall key :: key in children ==> children[key].key == key && ChildApart(efaSccs, key, children[key])
  }

  ghost predicate SidesInv(efaSccs: set<string>, s: System) {
    && CtlApart(efaSccs, Efa, s.efa) && CtlApart(efaSccs, Gdrdrv, s.gdrdrv)
    && ChildrenApart(efaSccs, s.children) && NodesTame(s.nodes)
  }

  /** What users have to respect. */
  predicate Separate(efaSccs: set<string>, a: Action) {
    && (a.CreateCr? ==> SccApart(efaSccs, a.k, a.name, a.spec))
    && (a.Relabel? ==> NodesTame(a.nodes))
  }

  predicate SeparateRun(efaSccs: set<string>, run: seq<Action>) {
    forall i :: 0 <= i < |run| ==> Separate(efaSccs, run[i])
  }

  // ----- it is kept -----

  lemma TeardownOrderApart(efaSccs: set<string>, ns: string, k: Kind, cr: Cr)
    requires CrApart(efaSccs, k, cr)
    ensures forall t :: t in TeardownOrder(ns, k, cr) ==> TeardownApart(efaSccs, k, t)
  {
    KeysApart(efaSccs, ns, k, cr, "0");
    assert ModLabels(k, cr)[MOD_NAME] == ModName(k);
  }

  lemma {:induction false} ChildrenOfApart(efaSccs: set<string>, ns: string, k: Kind, cr: Cr, version: string, kernels: set<string>)
    requires CrApart(efaSccs, k, cr) && (k.Gdrdrv? ==> Tame(version))
    ensures NewChildApart(efaSccs, k, DockerfileChild(k, cr, version))
    ensures NewChildApart(efaSccs, k, KmmChild(k, cr, version, kernels))
    ensures OnOpenShift(cr.spec) ==> NewChildApart(efaSccs, k, SccChild(k, cr))
    ensures NewChildApart(efaSccs, k, PluginChild(ns, k, cr))
    ensures k.Efa? ==> NewChildApart(efaSccs, k, NfrChild(ns, k, cr))
  {
    KeysApart(efaSccs, ns, k, cr, version);
  }

  lemma PlansApart(efaSccs: set<string>, ns: string, k: Kind, cr: Cr)
    requires CrApart(efaSccs, k, cr)
    ensures PcApart(efaSccs, k, Build(ns, k, cr))
    ensures PcApart(efaSccs, k, Branch(ns, k, cr))
    ensures PcApart(efaSccs, k, Tearing(cr, TeardownOrder(ns, k, cr), false))
    ensures forall i :: 0 <= i < |Tail(ns, k, cr)| ==> NewChildApart(efaSccs, k, Tail(ns, k, cr)[i])
  {
    ChildrenOfApart(efaSccs, ns, k, cr, if k.Efa? then "" else "0", {});
    TeardownOrderApart(efaSccs, ns, k, cr);
    var order := TeardownOrder(ns, k, cr);
    assert forall i :: 0 <= i < |order| ==> order[i] in order;
  }

  lemma ContinueApart(efaSccs: set<string>, ns: string, k: Kind, cr: Cr, todo: seq<Child>, rest: Rest)
    requires CrApart(efaSccs, k, cr) && RestApart(rest) && (rest.ThenRange? ==> k.Gdrdrv?)
    requires forall i :: 0 <= i < |todo| ==> NewChildApart(efaSccs, k, todo[i])
    ensures PcApart(efaSccs, k, Continue(ns, k, cr, todo, rest))
  {
    PlansApart(efaSccs, ns, k, cr);
  }

  lemma AfterScanApart(efaSccs: set<string>, ns: string, k: Kind, cr: Cr, nodes: seq<Node>)
    requires CrApart(efaSccs, k, cr) && NodesTame(nodes)
    ensures PcApart(efaSccs, k, AfterScan(ns, k, cr, nodes))
  {
    PlansApart(efaSccs, ns, k, cr);
    if k.Efa? {
      ChildrenOfApart(efaSccs, ns, k, cr, "", EfaKernels(nodes));
      var todo, kmm := EfaKmm(cr, EfaKernels(nodes)) + Tail(ns, k, cr), EfaKmm(cr, EfaKernels(nodes));
      assert forall i :: 0 <= i < |todo| ==> todo[i] == if i < |kmm| then kmm[i] else Tail(ns, k, cr)[i - |kmm|];
    } else {
      assert forall v :: v in CudaVersions(nodes) ==> Tame(v);
      ContinueApart(efaSccs, ns, k, cr, [], ThenRange(CudaVersions(nodes)));
    }
  }

  lemma {:induction false} ElectMember(items: seq<Cr>, name: string, deployed: string)
    ensures var e := Elect(items, name, deployed); e.found.Some? ==> e.found.value in items
  {
    if items != [] && items[0].name != name {
      ElectMember(items[1..], name, if items[0].condition != Ignored then items[0].name else deployed);
    }
  }

  lemma ResumeApart(efaSccs: set<string>, ns: string, k: Kind, pc: Pc, reply: Reply)
    requires HasCall(pc) && PcApart(efaSccs, k, pc)
    requires reply.Written? ==> CrApart(efaSccs, k, reply.cr)
    requires reply.Crs? ==> forall i :: 0 <= i < |reply.items| ==> CrApart(efaSccs, k, reply.items[i])
    requires reply.Nodes? ==> NodesTame(reply.nodes)
    ensures PcApart(efaSccs, k, Resume(ns, k, pc, reply))
  {
    if reply.Written? { PlansApart(efaSccs, ns, k, reply.cr); }
    match pc {
      case Listing(name) =>
        if reply.Crs? {
          ElectMember(reply.items, name, "");
          var e := Elect(reply.items, name, "");
          if e.found.Some? { PlansApart(efaSccs, ns, k, e.found.value); }
        }
      case Filling(cr, todo, _, rest) => ContinueApart(efaSccs, ns, k, cr, todo[1..], rest);
      case Scanning(cr) => if reply.Nodes? { AfterScanApart(efaSccs, ns, k, cr, reply.nodes); }
      case _ =>
    }
  }

  lemma WriteApart(efaSccs: set<string>, k: Kind, st: Store, cr: Cr, condition: Condition, finalizer: bool)
    requires forall i :: 0 <= i < |st.crs| ==> CrApart(efaSccs, k, st.crs[i])
    ensures var (st', reply) := Write(st, cr, condition, finalizer);
            && (forall i :: 0 <= i < |st'.crs| ==> CrApart(efaSccs, k, st'.crs[i]))
            && (reply.Written? ==> CrApart(efaSccs, k, reply.cr)) && !reply.Crs? && !reply.Nodes?
  {
    var i := Find(st.crs, cr.name);
    var (st', reply) := Write(st, cr, condition, finalizer);
    if reply.Written? {
      forall j | 0 <= j < |st'.crs| ensures CrApart(efaSccs, k, st'.crs[j]) {
        assert st'.crs[j] == reply.cr || st'.crs[j] in st.crs;
      }
    }
  }

  /** A call keeps what is known of the stored resources and objects. */
  lemma {:induction false} ExecApart(efaSccs: set<string>, k: Kind, c: Ctl, children: Children, nodes: seq<Node>, fault: Fault)
    requires CtlApart(efaSccs, k, c) && ChildrenApart(efaSccs, children) && HasCall(c.pc)
    ensures var e := Exec(c.store, children, nodes, NextCall(c.pc), fault);
            && ChildrenApart(efaSccs, e.children)
            && (forall i :: 0 <= i < |e.store.crs| ==> CrApart(efaSccs, k, e.store.crs[i]))
            && (e.reply.Written? ==> CrApart(efaSccs, k, e.reply.cr))
            && (e.reply.Crs? ==> e.reply.items == c.store.crs)
            && (e.reply.Nodes? ==> e.reply.nodes == nodes)
  {
    match NextCall(c.pc) {
      case UpdateStatus(cr, condition) => WriteApart(efaSccs, k, c.store, cr, condition, cr.finalizer);
      case UpdateFinalizer(cr, finalizer) => WriteApart(efaSccs, k, c.store, cr, cr.condition, finalizer);
      case CreateChild(child) =>
        assert c.pc.Filling? && NewChildApart(efaSccs, k, c.pc.todo[0]);
      case _ =>
    }
  }

  lemma StoreActionApart(efaSccs: set<string>, k: Kind, st: Store, a: Action)
    requires (forall i :: 0 <= i < |st.crs| ==> CrApart(efaSccs, k, st.crs[i])) && Separate(efaSccs, a)
    ensures a.CreateCr? && a.k == k ==>
              var st' := AddCr(st, a.name, a.spec, a.pos);
              forall i :: 0 <= i < |st'.crs| ==> CrApart(efaSccs, k, st'.crs[i])
    ensures a.RequestDelete? ==>
              var st' := MarkDeleted(st, a.name);
              forall i :: 0 <= i < |st'.crs| ==> CrApart(efaSccs, k, st'.crs[i])
  {
  }

  lemma {:induction false} ApiApart(efaSccs: set<string>, s: System, k: Kind, fault: Fault)
    requires CtlApart(efaSccs, k, Side(s, k)) && ChildrenApart(efaSccs, s.children) && NodesTame(s.nodes)
    ensures var t := TakeTurn(s.ns, k, Side(s, k), s.children, s.nodes, fault);
            CtlApart(efaSccs, k, t.ctl) && ChildrenApart(efaSccs, t.children)
  {
    var c := Side(s, k);
    if HasCall(c.pc) {
      ExecApart(efaSccs, k, c, s.children, s.nodes, fault);
      ResumeApart(efaSccs, s.ns, k, c.pc, Exec(c.store, s.children, s.nodes, NextCall(c.pc), fault).reply);
    }
  }

  lemma {:induction false} PickApart(efaSccs: set<string>, ns: string, k: Kind, pc: Pc, version: string)
    requires PcApart(efaSccs, k, pc)
    ensures PcApart(efaSccs, k, Choose(ns, k, pc, version))
  {
    if pc.Ranging? && version in pc.versions {
      ChildrenOfApart(efaSccs, ns, k, pc.cr, version, pc.versions[version]);
      ContinueApart(efaSccs, ns, k, pc.cr, CudaPair(k, pc.cr, version, pc.versions[version]),
                    ThenRange(pc.versions - {version}));
    }
  }

  lemma {:induction false} StepApart(efaSccs: set<string>, s: System, a: Action)
    requires SidesInv(efaSccs, s) && Separate(efaSccs, a)
    ensures SidesInv(efaSccs, Step(s, a))
  {
    match a {
      case Api(k, fault) => ApiApart(efaSccs, s, k, fault);
      case Pick(k, version) => PickApart(efaSccs, s.ns, k, Side(s, k).pc, version);
      case CreateCr(k, _, _, _) => StoreActionApart(efaSccs, k, Side(s, k).store, a);
      case RequestDelete(k, _) => StoreActionApart(efaSccs, k, Side(s, k).store, a);
      case _ =>
    }
  }

  lemma {:induction false} RunApart(efaSccs: set<string>, s: System, run: seq<Action>)
    requires SidesInv(efaSccs, s) && SeparateRun(efaSccs, run)
    ensures SidesInv(efaSccs, Run(s, run))
    decreases |run|
  {
    if run != [] {
      RunApart(efaSccs, s, run[..|run| - 1]);
      StepApart(efaSccs, Run(s, run[..|run| - 1]), run[|run| - 1]);
    }
  }

  /** A bulk deletion by the labels of a kind matches objects of its side only. */
  lemma MatchedApart(efaSccs: set<string>, k: Kind, children: Children, res: Res, ns: string, labels: map<string, string>, key: Key)
    requires ChildrenApart(efaSccs, children) && MOD_NAME in labels && labels[MOD_NAME] == ModName(k)
    requires key in Matching(children, res, ns, labels)
    ensures SideOf(efaSccs, key) == k
  {
    assert children[key].labels[MOD_NAME] == ModName(k);
  }

  /** A turn of one controller changes nothing on the other side. */
  lemma {:induction false} TurnStaysOnSide(efaSccs: set<string>, ns: string, k: Kind, c: Ctl, children: Children, nodes: seq<Node>, fault: Fault, key: Key)
    requires CtlApart(efaSccs, k, c) && ChildrenApart(efaSccs, children) && SideOf(efaSccs, key) != k
    ensures var children' := TakeTurn(ns, k, c, children, nodes, fault).children;
            && (key in children' <==> key in children)
            && (key in children ==> children'[key] == children[key])
  {
    if HasCall(c.pc) {
      match NextCall(c.pc) {
        case CreateChild(child) => assert NewChildApart(efaSccs, k, c.pc.todo[0]);
        case DeleteChild(gone) => assert TeardownApart(efaSccs, k, c.pc.steps[0]);
        case DeleteAllOf(res, kmm, labels) =>
          assert TeardownApart(efaSccs, k, c.pc.steps[0]);
          if key in Matching(children, res, kmm, labels) { MatchedApart(efaSccs, k, children, res, kmm, labels, key); }
        case _ =>
      }
    }
  }
}
