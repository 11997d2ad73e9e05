/** The reconcile protocol, one API call at a time. A controller is a program counter whose
    next call and whose reaction to the reply are functions; a system is two controllers, the
    API objects and the nodes; an action is one call of one controller, or one step of a user
    or a node. Any list of actions is a run: calls of the two controllers interleave freely
    with each other, with users, and with operator crashes. */
module Protocol {
  import opened Options
  import opened Api
  import opened Planning

  const LABEL_KEY := "ocp-efa-operator.fms.io"
  const MOD_NAME := "modName"

  // ----- names, labels and children -----

  predicate OnOpenShift(spec: Spec) {
    spec.openShift == Some(true)
  }

  function KmmSuffix(k: Kind, version: string): string {
    match k case Efa => "" case Gdrdrv => "-cudadrv-" + version
  }

  function DockerfileName(k: Kind, name: string, version: string): string {
    name + "-" + ModName(k) + "-kmm-dockerfile" + KmmSuffix(k, version)
  }

  function KmmName(k: Kind, name: string, version: string): string {
    name + "-" + ModName(k) + KmmSuffix(k, version)
  }

  function PluginName(k: Kind, name: string): string {
    name + "-" + ModName(k) + "-device-plugin"
  }

  function SccName(name: string, spec: Spec): string {
    name + "-" + spec.serviceAccount
  }

  function NfrKey(ns: string, cr: Cr): Key { Key(NodeFeatureRule, ns, cr.name) }
  function DockerfileKey(k: Kind, cr: Cr, version: string): Key {
    Key(ConfigMap, cr.spec.kmmNamespace, DockerfileName(k, cr.name, version))
  }
  function KmmKey(k: Kind, cr: Cr, version: string): Key {
    Key(Module, cr.spec.kmmNamespace, KmmName(k, cr.name, version))
  }
  function SccKey(cr: Cr): Key { Key(Scc, "", SccName(cr.name, cr.spec)) }
  function PluginKey(ns: string, k: Kind, cr: Cr): Key { Key(DaemonSet, ns, PluginName(k, cr.name)) }

  function NameLabels(cr: Cr): map<string, string> { map[LABEL_KEY := cr.name] }
  function ModLabels(k: Kind, cr: Cr): map<string, string> {
    map[LABEL_KEY := cr.name, MOD_NAME := ModName(k)]
  }

  function OwnerOf(k: Kind, cr: Cr): Option<Owner> { Some(Owner(k, cr.name, cr.uid)) }

  function NfrChild(ns: string, k: Kind, cr: Cr): Child {
    Child(NfrKey(ns, cr), NameLabels(cr), OwnerOf(k, cr), Plain)
  }
  function DockerfileChild(k: Kind, cr: Cr, version: string): Child {
    Child(DockerfileKey(k, cr, version), ModLabels(k, cr), OwnerOf(k, cr), Plain)
  }
  function KmmChild(k: Kind, cr: Cr, version: string, kernels: set<string>): Child {
    Child(KmmKey(k, cr, version), ModLabels(k, cr), OwnerOf(k, cr),
          Kmm(Selector(k, cr.spec, version), KernelMappings(k, cr.name, version, kernels),
              DockerfileName(k, cr.name, version)))
  }
  function SccChild(k: Kind, cr: Cr): Child {
    Child(SccKey(cr), NameLabels(cr), OwnerOf(k, cr), Plain)
  }
  function PluginChild(ns: string, k: Kind, cr: Cr): Child {
    Child(PluginKey(ns, k, cr), NameLabels(cr), OwnerOf(k, cr), Plain)
  }

  // ----- the order of creation and deletion -----

  /** CreateNFR, CreateKmmDockerfile: what the EfaDriver controller creates before it looks at
      the nodes. */
  function EfaHead(ns: string, cr: Cr): seq<Child> {
    [NfrChild(ns, Efa, cr), DockerfileChild(Efa, cr, "")]
  }

  /** CreateKmm of the EfaDriver controller creates nothing when no node has an EFA device. */
  function EfaKmm(cr: Cr, kernels: set<string>): seq<Child> {
    if kernels == {} then [] else [KmmChild(Efa, cr, "", kernels)]
  }

  function CudaPair(k: Kind, cr: Cr, version: string, kernels: set<string>): seq<Child> {
    [DockerfileChild(k, cr, version), KmmChild(k, cr, version, kernels)]
  }

  /** CraeteDevicePluginScc, CreateDevicePlugin. */
  function Tail(ns: string, k: Kind, cr: Cr): seq<Child> {
    (if OnOpenShift(cr.spec) then [SccChild(k, cr)] else []) + [PluginChild(ns, k, cr)]
  }

  datatype Teardown = ByName(key: Key) | ByLabel(res: Res, ns: string, labels: map<string, string>)

  function TeardownOrder(ns: string, k: Kind, cr: Cr): seq<Teardown> {
    [ByName(PluginKey(ns, k, cr))]
    + (if OnOpenShift(cr.spec) then [ByName(SccKey(cr))] else [])
    + [ByLabel(Module, cr.spec.kmmNamespace, ModLabels(k, cr)),
       ByLabel(ConfigMap, cr.spec.kmmNamespace, ModLabels(k, cr))]
    + (if k.Efa? then [ByName(NfrKey(ns, cr))] else [])
  }

  // ----- program counters -----

  /** How a reconcile ended: never started, or cut off by a crash; without touching the backoff;
      having reset it; with a requeue; with an error. */
  datatype Outcome = Nothing | Skipped | Finished | Requeued | Errored

  /** What CreateCluster does once the current children are there. */
  datatype Rest = ThenScan | ThenRange(versions: map<string, set<string>>) | ThenEnd

  /** A custom resource in a program counter is the controller's local copy. */
  datatype Pc =
    | Idle(outcome: Outcome)
    | Listing(name: string)
    | Ignoring(cr: Cr)                   // status write: Ignored
    | Claiming(cr: Cr)                   // write: add the finalizer
    | Starting(cr: Cr)                   // status write: Creating, on a fresh resource
    | Retrying(cr: Cr)                   // status write: Creating, after an error
    | Filling(cr: Cr, todo: seq<Child>, missing: bool, rest: Rest)
    | Scanning(cr: Cr)                   // list the nodes
    | Ranging(cr: Cr, versions: map<string, set<string>>)
    | Retiring(cr: Cr)                   // status write: Deleting
    | Tearing(cr: Cr, steps: seq<Teardown>, found: bool)
    | Releasing(cr: Cr)                  // write: remove the finalizer
    | Reporting(cr: Cr, condition: Condition, requeue: bool)

  predicate HasCall(pc: Pc) {
    match pc
    case Idle(_) => false
    case Ranging(_, _) => false
    case Filling(_, todo, _, _) => todo != []
    case Tearing(_, steps, _) => steps != []
    case _ => true
  }

  function NextCall(pc: Pc): Call
    requires HasCall(pc)
  {
    match pc
    case Listing(_) => ListCrs
    case Ignoring(cr) => UpdateStatus(cr, Ignored)
    case Claiming(cr) => UpdateFinalizer(cr, true)
    case Starting(cr) => UpdateStatus(cr, Creating)
    case Retrying(cr) => UpdateStatus(cr, Creating)
    case Filling(_, todo, missing, _) => if missing then CreateChild(todo[0]) else GetChild(todo[0].key)
    case Scanning(_) => ListNodes
    case Retiring(cr) => UpdateStatus(cr, Deleting)
    case Tearing(_, steps, found) =>
      (match steps[0]
       case ByName(key) => if found then DeleteChild(key) else GetChild(key)
       case ByLabel(res, ns, labels) => DeleteAllOf(res, ns, labels))
    case Releasing(cr) => UpdateFinalizer(cr, false)
    case Reporting(cr, condition, _) => UpdateStatus(cr, condition)
  }

  // ----- CreateCluster -----

  function Build(ns: string, k: Kind, cr: Cr): Pc {
    match k
    case Efa => Filling(cr, EfaHead(ns, cr), false, ThenScan)
    case Gdrdrv => Scanning(cr)
  }

  /** CreateCluster came to an end; the status is written only when it changes. */
  function Conclude(cr: Cr, condition: Condition): Pc {
    var requeue := condition == Discovery;
    if condition == Error || cr.condition != condition then Reporting(cr, condition, requeue)
    else Idle(if requeue then Requeued else Finished)
  }

  /** The children in `todo` are still to be created, then comes `rest`. */
  function Continue(ns: string, k: Kind, cr: Cr, todo: seq<Child>, rest: Rest): Pc {
    if todo != [] then Filling(cr, todo, false, rest) else
      match rest
      case ThenScan => Scanning(cr)
      case ThenRange(versions) =>
        if versions == map[] then Filling(cr, Tail(ns, k, cr), false, ThenEnd) else Ranging(cr, versions)
      case ThenEnd => Conclude(cr, Ready)
  }

  function AfterScan(ns: string, k: Kind, cr: Cr, nodes: seq<Node>): Pc {
    match k
    case Efa =>
      if SomeUndiscovered(nodes) then Conclude(cr, Discovery)
      else Filling(cr, EfaKmm(cr, EfaKernels(nodes)) + Tail(ns, k, cr), false, ThenEnd)
    case Gdrdrv => Continue(ns, k, cr, [], ThenRange(CudaVersions(nodes)))
  }

  /** The create guards: a DaemonSet that already exists is the only reported failure of its
      creation, for every other child it is the only accepted one. */
  predicate CreateFails(res: Res, err: Err) {
    if res == DaemonSet then err == AlreadyExists else err != AlreadyExists
  }

  function AfterFill(ns: string, k: Kind, pc: Pc, reply: Reply): Pc
    requires pc.Filling? && pc.todo != []
  {
    var next := Continue(ns, k, pc.cr, pc.todo[1..], pc.rest);
    if pc.missing then
      if reply.Failed? && CreateFails(pc.todo[0].key.res, reply.err) then Conclude(pc.cr, Error) else next
    else if !reply.Failed? then next
    else if reply.err == NotFound then pc.(missing := true)
    else Conclude(pc.cr, Error)
  }

  // ----- DeleteCluster -----

  function AfterTear(pc: Pc, reply: Reply): Pc
    requires pc.Tearing? && pc.steps != []
  {
    var next := if pc.steps[1..] == [] then Releasing(pc.cr) else Tearing(pc.cr, pc.steps[1..], false);
    if reply.Failed? then
      if reply.err == NotFound then next else Reporting(pc.cr, Error, false)
    else if pc.steps[0].ByName? && !pc.found then pc.(found := true)
    else next
  }

  // ----- the gate -----

  /** The loop over the listed resources: the requested one, and the last resource before it
      that is not Ignored (the empty name when there is none). */
  datatype Election = Election(found: Option<Cr>, deployed: string)

  function Elect(items: seq<Cr>, name: string, deployed: string): Election {
    if items == [] then Election(None, deployed)
    else if items[0].name == name then Election(Some(items[0]), deployed)
    else Elect(items[1..], name, if items[0].condition != Ignored then items[0].name else deployed)
  }

  function Branch(ns: string, k: Kind, cr: Cr): Pc {
    if cr.deleting then
      if !cr.finalizer then Idle(Finished)
      else if cr.condition != Deleting then Retiring(cr)
      else Tearing(cr, TeardownOrder(ns, k, cr), false)
    else if cr.condition == Error then Retrying(cr)
    else Build(ns, k, cr)
  }

  function AfterList(ns: string, k: Kind, items: seq<Cr>, name: string): Pc {
    var e := Elect(items, name, "");
    if e.found == None || e.found.value.condition == Ignored then Idle(Skipped)
    else if e.deployed != "" then Ignoring(e.found.value)
    else if !e.found.value.finalizer then Claiming(e.found.value)
    else Branch(ns, k, e.found.value)
  }

  /** The controller's reaction to the reply of its call. A failed listing yields no items, so
      it ends the reconcile like an empty list; any other failed write ends it with an error. */
  function Resume(ns: string, k: Kind, pc: Pc, reply: Reply): Pc
    requires HasCall(pc)
  {
    match pc
    case Listing(name) => if reply.Crs? then AfterList(ns, k, reply.items, name) else Idle(Skipped)
    case Ignoring(cr) => Idle(if reply.Written? then Skipped else Errored)
    case Claiming(cr) =>
      if !reply.Written? then Idle(Errored)
      else if !reply.cr.deleting && reply.cr.condition == Unset then Starting(reply.cr)
      else Branch(ns, k, reply.cr)
    case Starting(cr) => if !reply.Written? then Idle(Errored) else Branch(ns, k, reply.cr)
    case Retrying(cr) => if !reply.Written? then Idle(Errored) else Build(ns, k, reply.cr)
    case Filling(_, _, _, _) => AfterFill(ns, k, pc, reply)
    case Scanning(cr) => if reply.Nodes? then AfterScan(ns, k, cr, reply.nodes) else Conclude(cr, Error)
    case Retiring(cr) =>
      if !reply.Written? then Idle(Errored)
      else Tearing(reply.cr, TeardownOrder(ns, k, reply.cr), false)
    case Tearing(_, _, _) => AfterTear(pc, reply)
    case Releasing(cr) => Idle(if reply.Written? then Finished else Errored)
    case Reporting(cr, _, requeue) =>
      Idle(if !reply.Written? then Errored else if requeue then Requeued else Finished)
  }

  /** A controller works on the resource it elected, in the form of its last write. */
  lemma ResumeSameCr(ns: string, k: Kind, pc: Pc, reply: Reply)
    requires HasCall(pc)
    ensures var next := Resume(ns, k, pc, reply);
            || next.Idle?
            || (!next.Listing? && !pc.Listing? && next.cr == pc.cr)
            || (!next.Listing? && !pc.Listing? && reply.Written? && next.cr == reply.cr)
            || (!next.Listing? && pc.Listing? && reply.Crs? && Elect(reply.items, pc.name, "").found == Some(next.cr))
  {
  }

  // ----- systems and runs -----

  /** One kind: its custom resources and its controller. */
  datatype Ctl = Ctl(store: Store, pc: Pc)

  datatype System = System(ns: string, efa: Ctl, gdrdrv: Ctl, children: Children, nodes: seq<Node>)

  datatype Action =
    | Start(k: Kind, name: string)                           // a request reaches an idle controller
    | Api(k: Kind, fault: Fault)                             // the controller makes its next call
    | Pick(k: Kind, version: string)                         // the next version of a map iteration
    | Crash(k: Kind)                                         // the operator restarts
    | CreateCr(k: Kind, name: string, spec: Spec, pos: nat)  // a user creates a custom resource
    | RequestDelete(k: Kind, name: string)                   // a user deletes one
    | Relabel(nodes: seq<Node>)                              // nodes and their labels change
    | UserDelete(key: Key)                                   // a user deletes a child
    | UserCreate(key: Key)                                   // a user creates an object of that name

  function Side(s: System, k: Kind): Ctl {
    match k case Efa => s.efa case Gdrdrv => s.gdrdrv
  }

  function WithSide(s: System, k: Kind, c: Ctl): System {
    match k case Efa => s.(efa := c) case Gdrdrv => s.(gdrdrv := c)
  }

  datatype Turn = Turn(ctl: Ctl, children: Children)

  /** One API call of a controller, together with its reaction to the reply. */
  function TakeTurn(ns: string, k: Kind, c: Ctl, children: Children, nodes: seq<Node>, fault: Fault): Turn {
    if !HasCall(c.pc) then Turn(c, children) else
      var e := Exec(c.store, children, nodes, NextCall(c.pc), fault);
      Turn(Ctl(e.store, Resume(ns, k, c.pc, e.reply)), e.children)
  }

  /** The iteration over the CUDA versions goes on with any of the remaining ones. */
  function Choose(ns: string, k: Kind, pc: Pc, version: string): Pc {
    if pc.Ranging? && version in pc.versions then
      Continue(ns, k, pc.cr, CudaPair(k, pc.cr, version, pc.versions[version]), ThenRange(pc.versions - {version}))
    else pc
  }

  /** The API server refuses empty and duplicate names. */
  function AddCr(st: Store, name: string, spec: Spec, pos: nat): Store {
    if name == "" || Find(st.crs, name) < |st.crs| || pos > |st.crs| then st
    else Store(InsertAt(st.crs, pos, Cr(name, st.tick, st.tick, spec, Unset, false, false)), st.tick + 1)
  }

  /** A resource with a finalizer is only marked, one without is gone at once. */
  function MarkDeleted(st: Store, name: string): Store {
    var i := Find(st.crs, name);
    if i == |st.crs| || st.crs[i].deleting then st
    else if st.crs[i].finalizer then
      Store(st.crs[i := st.crs[i].(deleting := true, version := st.tick)], st.tick + 1)
    else Store(RemoveAt(st.crs, i), st.tick + 1)
  }

  function Step(s: System, a: Action): System {
    match a
    case Start(k, name) =>
      var c := Side(s, k);
      if c.pc.Idle? then WithSide(s, k, c.(pc := Listing(name))) else s
    case Api(k, fault) =>
      var t := TakeTurn(s.ns, k, Side(s, k), s.children, s.nodes, fault);
      WithSide(s, k, t.ctl).(children := t.children)
    case Pick(k, version) =>
      var c := Side(s, k);
      WithSide(s, k, c.(pc := Choose(s.ns, k, c.pc, version)))
    case Crash(k) => WithSide(s, k, Side(s, k).(pc := Idle(Nothing)))
    case CreateCr(k, name, spec, pos) =>
      var c := Side(s, k);
      WithSide(s, k, c.(store := AddCr(c.store, name, spec, pos)))
    case RequestDelete(k, name) =>
      var c := Side(s, k);
      WithSide(s, k, c.(store := MarkDeleted(c.store, name)))
    case Relabel(nodes) => s.(nodes := nodes)
    case UserDelete(key) => s.(children := s.children - {key})
    case UserCreate(key) =>
      if key in s.children then s
      else s.(children := s.children[key := Child(key, map[], None, Plain)])
  }

  function Run(s: System, run: seq<Action>): System
    decreases |run|
  {
    if run == [] then s else Step(Run(s, run[..|run| - 1]), run[|run| - 1])
  }

  const NOTHING: Ctl := Ctl(Store([], 0), Idle(Nothing))

  /** The operator has just been installed. */
  function Initial(ns: string, nodes: seq<Node>): System {
    System(ns, NOTHING, NOTHING, map[], nodes)
  }

  lemma RunAppend(s: System, run: seq<Action>, a: Action)
    ensures Run(s, run + [a]) == Step(Run(s, run), a)
  {
    assert (run + [a])[..|run|] == run;
  }

  lemma {:induction false} RunConcat(s: System, run: seq<Action>, more: seq<Action>)
    ensures Run(s, run + more) == Run(Run(s, run), more)
    decreases |more|
  {
    if more == [] {
      assert run + more == run;
    } else {
      var m := more[..|more| - 1];
      assert run + more == run + m + [more[|more| - 1]];
      RunAppend(s, run + m, more[|more| - 1]);
      RunConcat(s, run, m);
    }
  }
}
