/** The objects of the API server that the two controllers read and write, and the atomic
    effect of one call. A call can be refused, or take effect and still report an error;
    NotFound, AlreadyExists and Conflict are only ever reported when they are true. */
module Api {
  import opened Options

  /** The two kinds of custom resource, each with a controller of its own. */
  datatype Kind = Efa | Gdrdrv

  datatype Condition = Unset | Creating | Ready | Error | Deleting | Discovery | Ignored

  datatype Spec = Spec(kmmNamespace: string, serviceAccount: string, openShift: Option<bool>,
                       nodeSelector: map<string, string>)

  /** A custom resource. `finalizer` says whether the operator's finalizer is set, `deleting`
      whether it has a deletion timestamp; `version` is its resource version. */
  datatype Cr = Cr(name: string, uid: nat, version: nat, spec: Spec, condition: Condition,
                   finalizer: bool, deleting: bool)

  datatype Res = NodeFeatureRule | ConfigMap | Module | Scc | DaemonSet

  datatype Key = Key(res: Res, ns: string, name: string)

  datatype Owner = Owner(kind: Kind, name: string, uid: nat)

  /** A piece of a kernel pattern: literal text, one or more digits, or anything. */
  datatype Piece = Text(text: string) | Digits | Anything

  datatype Mapping = Mapping(pattern: seq<Piece>, image: string)

  datatype Body = Plain | Kmm(selector: map<string, string>, mappings: set<Mapping>, dockerfile: string)

  datatype Child = Child(key: Key, labels: map<string, string>, owner: Option<Owner>, body: Body)

  type Children = map<Key, Child>

  type Node = map<string, string>

  /** The custom resources of one kind, in list order, and the next resource version. */
  datatype Store = Store(crs: seq<Cr>, tick: nat)

  datatype Err = NotFound | AlreadyExists | Conflict | Other

  datatype Call =
    | ListCrs
    | UpdateStatus(cr: Cr, condition: Condition)
    | UpdateFinalizer(cr: Cr, finalizer: bool)
    | GetChild(key: Key)
    | CreateChild(child: Child)
    | DeleteChild(key: Key)
    | DeleteAllOf(res: Res, ns: string, labels: map<string, string>)
    | ListNodes

  datatype Reply =
    | Done
    | Written(cr: Cr)
    | Crs(items: seq<Cr>)
    | Nodes(nodes: seq<Node>)
    | Failed(err: Err)

  /** What goes wrong with a call: nothing; it has no effect; or it takes effect, except that a
      bulk deletion spares the listed keys, and reports an error all the same. */
  datatype Fault = Fine | Refused | Lost(spared: set<Key>)

  datatype Effect = Effect(store: Store, children: Children, reply: Reply)

  /** Position of the custom resource called `name`, or |crs|. */
  function Find(crs: seq<Cr>, name: string): (i: nat)
    ensures i <= |crs| && forall j :: 0 <= j < i ==> crs[j].name != name
    ensures i < |crs| ==> crs[i].name == name
  {
    if crs == [] || crs[0].name == name then 0 else Find(crs[1..], name) + 1
  }

  function RemoveAt<T>(s: seq<T>, i: nat): seq<T>
    requires i < |s|
  {
    s[..i] + s[i + 1..]
  }

  function InsertAt<T>(s: seq<T>, i: nat, x: T): seq<T>
    requires i <= |s|
  {
    s[..i] + [x] + s[i..]
  }

  /** A versioned write: it needs the version the caller last saw. A custom resource that is
      being deleted disappears when its finalizer is taken off. */
  function Write(st: Store, cr: Cr, condition: Condition, finalizer: bool): (Store, Reply) {
    var i := Find(st.crs, cr.name);
    if i == |st.crs| then (st, Failed(NotFound))
    else if st.crs[i].version != cr.version then (st, Failed(Conflict))
    else
      var cr2 := st.crs[i].(condition := condition, finalizer := finalizer, version := st.tick);
      var crs := if cr2.deleting && !finalizer then RemoveAt(st.crs, i) else st.crs[i := cr2];
      (Store(crs, st.tick + 1), Written(cr2))
  }

  /** Whether an object carries all of the wanted labels. */
  predicate Carries(labels: map<string, string>, wanted: map<string, string>) {
    forall l :: l in wanted ==> l in labels && labels[l] == wanted[l]
  }

  function Matching(children: Children, res: Res, ns: string, labels: map<string, string>): set<Key> {
    set key | key in children && key.res == res && key.ns == ns && Carries(children[key].labels, labels)
  }

  /** One call that nothing goes wrong with, except that a bulk deletion spares some keys. */
  function Perform(st: Store, children: Children, nodes: seq<Node>, call: Call, spared: set<Key>): Effect {
    match call
    case ListCrs => Effect(st, children, Crs(st.crs))
    case UpdateStatus(cr, condition) =>
      var (st', reply) := Write(st, cr, condition, cr.finalizer);
      Effect(st', children, reply)
    case UpdateFinalizer(cr, finalizer) =>
      var (st', reply) := Write(st, cr, cr.condition, finalizer);
      Effect(st', children, reply)
    case GetChild(key) => Effect(st, children, if key in children then Done else Failed(NotFound))
    case CreateChild(child) =>
      if child.key in children then Effect(st, children, Failed(AlreadyExists))
      else Effect(st, children[child.key := child], Done)
    case DeleteChild(key) =>
      if key in children then Effect(st, children - {key}, Done) else Effect(st, children, Failed(NotFound))
    case DeleteAllOf(res, ns, labels) =>
      Effect(st, children - (Matching(children, res, ns, labels) - spared), Done)
    case ListNodes => Effect(st, children, Nodes(nodes))
  }

  function Exec(st: Store, children: Children, nodes: seq<Node>, call: Call, fault: Fault): Effect {
    match fault
    case Fine => Perform(st, children, nodes, call, {})
    case Refused => Effect(st, children, Failed(Other))
    case Lost(spared) =>
      var e := Perform(st, children, nodes, call, spared);
      Effect(e.store, e.children, Failed(Other))
  }
}
