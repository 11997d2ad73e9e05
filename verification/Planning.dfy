/** From node labels to Modules: which kernels and CUDA driver versions the nodes report, and
    which selector and kernel patterns a Module gets for them. */
module Planning {
  import opened Strings
  import opened Api

  const KERNEL_MAJOR := "feature.node.kubernetes.io/kernel-version.major"
  const KERNEL_MINOR := "feature.node.kubernetes.io/kernel-version.minor"
  const DEV_COUNT := "feature.node.kubernetes.io/fms.io.dev.count"
  const EFA_PRESENT := "feature.node.kubernetes.io/fms.io.efa.present"
  const CUDA_MAJOR := "nvidia.com/cuda.driver.major"
  const CUDA_MINOR := "nvidia.com/cuda.driver.minor"
  const CUDA_REV := "nvidia.com/cuda.driver.rev"
  const GPU_PRESENT := "nvidia.com/gpu.present"

  // ----- what the node list says -----

  /** Node feature discovery has labelled the node with its kernel version. */
  predicate HasKernel(n: Node) {
    KERNEL_MAJOR in n && KERNEL_MINOR in n
  }

  function KernelVersion(n: Node): string
    requires HasKernel(n)
  {
    n[KERNEL_MAJOR] + "." + n[KERNEL_MINOR]
  }

  /** The node has a kernel version but the device-count rule has not reached it yet. */
  predicate Undiscovered(n: Node) {
    HasKernel(n) && DEV_COUNT !in n
  }

  predicate HasEfa(n: Node) {
    HasKernel(n) && DEV_COUNT in n && EFA_PRESENT in n
  }

  predicate HasCuda(n: Node) {
    HasKernel(n) && CUDA_MAJOR in n && CUDA_MINOR in n && CUDA_REV in n
  }

  function CudaVersion(n: Node): string
    requires HasCuda(n)
  {
    n[CUDA_MAJOR] + "." + n[CUDA_MINOR] + "." + n[CUDA_REV]
  }

  predicate SomeUndiscovered(nodes: seq<Node>) {
    exists n :: n in nodes && Undiscovered(n)
  }

  function EfaKernels(nodes: seq<Node>): set<string> {
    set n | n in nodes && HasEfa(n) :: KernelVersion(n)
  }

  function CudaKernels(nodes: seq<Node>, version: string): set<string> {
    set n | n in nodes && HasCuda(n) && CudaVersion(n) == version :: KernelVersion(n)
  }

  function CudaVersions(nodes: seq<Node>): map<string, set<string>> {
    var versions := set n | n in nodes && HasCuda(n) :: CudaVersion(n);
    map v | v in versions :: CudaKernels(nodes, v)
  }

  // ----- what goes into a Module -----

  function ModName(k: Kind): string {
    match k case Efa => "efa" case Gdrdrv => "gdrdrv"
  }

  function Selector(k: Kind, spec: Spec, version: string): map<string, string> {
    match k
    case Efa => spec.nodeSelector[EFA_PRESENT := "true"]
    case Gdrdrv =>
      var parts := Split(version, '.');
      var s0 := spec.nodeSelector[GPU_PRESENT := "true"];
      var s1 := s0[CUDA_MAJOR := parts[0]];
      var s2 := if |parts| > 1 then s1[CUDA_MINOR := parts[1]] else s1;
      if |parts| > 2 then s2[CUDA_REV := parts[2]] else s2
  }

  /** The label keys that a controller sets in a selector itself. */
  function OwnKeys(k: Kind): set<string> {
    match k case Efa => {EFA_PRESENT} case Gdrdrv => {GPU_PRESENT, CUDA_MAJOR, CUDA_MINOR, CUDA_REV}
  }

  /** The kernel pattern of one Module mapping, such as 4.18 followed by anything, then .x86_64. */
  function KernelPattern(k: Kind, kernel: string): seq<Piece> {
    var parts := Split(kernel, '.');
    [Text(parts[0])]
    + (if |parts| > 1 then [Text("." + parts[1])] else if k.Efa? then [Text("."), Digits] else [])
    + [Anything, Text(".x86_64")]
  }

  const REGISTRY := "image-registry.openshift-image-registry.svc:5000/openshift-kmm/"

  function KernelMapping(k: Kind, name: string, version: string, kernel: string): Mapping {
    var image := REGISTRY + name + "-" + ModName(k) + "-kmm:linux-" + kernel;
    Mapping(KernelPattern(k, kernel), if k.Efa? then image else image + "-cudadrv-" + version)
  }

  function KernelMappings(k: Kind, name: string, version: string, kernels: set<string>): set<Mapping> {
    set kernel | kernel in kernels :: KernelMapping(k, name, version, kernel)
  }

  // ----- the loops that compute them -----

  lemma EfaKernelsGrow(nodes: seq<Node>, n: Node)
    ensures EfaKernels(nodes + [n]) == EfaKernels(nodes) + (if HasEfa(n) then {KernelVersion(n)} else {})
  {
    forall v | v in EfaKernels(nodes + [n])
      ensures v in EfaKernels(nodes) || (HasEfa(n) && v == KernelVersion(n))
    {
      var m :| m in nodes + [n] && HasEfa(m) && v == KernelVersion(m);
      assert m in nodes || m == n;
    }
    assert forall m :: m in nodes ==> m in nodes + [n];
    assert n in nodes + [n];
  }

  /** EfaDriverReconciler.GetNodeStatus behind the node list: it asks for a requeue exactly when
      some node with a kernel version lacks its device count, and otherwise reports exactly the
      kernels of the nodes with an EFA device. */
  method EfaNodeStatus(nodes: seq<Node>) returns (requeue: bool, kernels: set<string>)
    ensures requeue <==> exists n :: n in nodes && KERNEL_MAJOR in n && KERNEL_MINOR in n && DEV_COUNT !in n
    ensures requeue <==> SomeUndiscovered(nodes)
    ensures kernels == if requeue then {} else EfaKernels(nodes)
    ensures !requeue ==> forall v :: v in kernels <==>
              exists n :: n in nodes && KERNEL_MAJOR in n && KERNEL_MINOR in n && EFA_PRESENT in n
                          && v == n[KERNEL_MAJOR] + "." + n[KERNEL_MINOR]
  {
    kernels := {};
    var waitingCount, completeCount := 0, 0;
    for i := 0 to |nodes|
      invariant waitingCount >= 0
      invariant waitingCount > 0 <==> SomeUndiscovered(nodes[..i])
      invariant kernels == EfaKernels(nodes[..i])
    {
      var labels := nodes[i];
      EfaKernelsGrow(nodes[..i], labels);
      assert nodes[..i + 1] == nodes[..i] + [labels];
      if !(KERNEL_MAJOR in labels && KERNEL_MINOR in labels) {
        continue;
      }
      if DEV_COUNT !in labels {
        assert labels in nodes[..i + 1] && Undiscovered(labels);
        waitingCount := waitingCount + 1;
        continue;
      }
      completeCount := completeCount + 1;
      var kernel := labels[KERNEL_MAJOR] + "." + labels[KERNEL_MINOR];
      if EFA_PRESENT in labels {
        kernels := kernels + {kernel};
      }
    }
    assert nodes[..|nodes|] == nodes;
    if waitingCount > 0 {
      return true, {};
    }
    return false, kernels;
  }

  /** GdrdrvDriverReconciler.GetNodeStatus behind the node list: it never asks for a requeue, and
      its nested map holds exactly the driver and kernel versions seen together on some node. */
  method CudaNodeStatus(nodes: seq<Node>) returns (requeue: bool, versions: map<string, set<string>>)
    ensures !requeue
    ensures versions == CudaVersions(nodes)
  {
    versions := map[];
    for i := 0 to |nodes|
      invariant forall v :: v in versions <==> exists n :: n in nodes[..i] && HasCuda(n) && CudaVersion(n) == v
      invariant forall v :: v in versions ==> versions[v] == CudaKernels(nodes[..i], v)
    {
      var labels := nodes[i];
      assert nodes[..i + 1] == nodes[..i] + [labels];
      if !(KERNEL_MAJOR in labels && KERNEL_MINOR in labels) {
        continue;
      }
      var kernel := labels[KERNEL_MAJOR] + "." + labels[KERNEL_MINOR];
      if CUDA_MAJOR in labels && CUDA_MINOR in labels && CUDA_REV in labels {
        var version := labels[CUDA_MAJOR] + "." + labels[CUDA_MINOR] + "." + labels[CUDA_REV];
        assert HasCuda(labels) && CudaVersion(labels) == version && KernelVersion(labels) == kernel;
        if version !in versions {
          assert CudaKernels(nodes[..i], version) == {};
          versions := versions[version := {}];
        }
        versions := versions[version := versions[version] + {kernel}];
        assert versions[version] == CudaKernels(nodes[..i + 1], version);
      }
    }
    assert nodes[..|nodes|] == nodes;
    return false, versions;
  }

  /** The selector loop of CreateKmm: a copy of the resource's node selector, with the entries
      that tie the Module to its devices and driver on top. Whatever else the user asked for is kept. */
  method BuildSelector(k: Kind, spec: Spec, version: string) returns (selector: map<string, string>)
    ensures selector == Selector(k, spec, version)
    ensures selector - OwnKeys(k) == spec.nodeSelector - OwnKeys(k)
  {
    selector := map[];
    var todo := spec.nodeSelector;
    while todo != map[]
      invariant selector.Keys + todo.Keys == spec.nodeSelector.Keys && selector.Keys !! todo.Keys
      invariant forall key :: key in selector ==> selector[key] == spec.nodeSelector[key]
      invariant forall key :: key in todo ==> todo[key] == spec.nodeSelector[key]
      decreases todo.Keys
    {
      var key :| key in todo;
      selector := selector[key := todo[key]];
      todo := todo - {key};
    }
    assert selector == spec.nodeSelector;
    match k {
      case Efa => selector := selector[EFA_PRESENT := "true"];
      case Gdrdrv =>
        selector := selector[GPU_PRESENT := "true"];
        var parts := Split(version, '.');
        if |parts| > 0 { selector := selector[CUDA_MAJOR := parts[0]]; }
        if |parts| > 1 { selector := selector[CUDA_MINOR := parts[1]]; }
        if |parts| > 2 { selector := selector[CUDA_REV := parts[2]]; }
    }
  }

  /** The mapping loop of CreateKmm goes over the kernels in any order; it adds one mapping each. */
  method BuildMappings(k: Kind, name: string, version: string, kernels: set<string>) returns (mappings: seq<Mapping>)
    ensures |mappings| == |kernels|
    ensures (set m | m in mappings) == KernelMappings(k, name, version, kernels)
  {
    mappings := [];
    var todo := kernels;
    while todo != {}
      invariant todo <= kernels && |mappings| + |todo| == |kernels|
      invariant forall m :: m in mappings <==> m in KernelMappings(k, name, version, kernels - todo)
      decreases todo
    {
      var kernel :| kernel in todo;
      var parts := Split(kernel, '.');
      var pattern := [Text(parts[0])];
      if |parts| > 1 {
        pattern := pattern + [Text("." + parts[1])];
      } else if k.Efa? {
        pattern := pattern + [Text("."), Digits];
      }
      pattern := pattern + [Anything, Text(".x86_64")];
      var image := REGISTRY + name + "-" + ModName(k) + "-kmm:linux-" + kernel;
      if k.Gdrdrv? {
        image := image + "-cudadrv-" + version;
      }
      assert Mapping(pattern, image) == KernelMapping(k, name, version, kernel);
      assert kernels - (todo - {kernel}) == (kernels - todo) + {kernel};
      mappings := mappings + [Mapping(pattern, image)];
      todo := todo - {kernel};
    }
    assert kernels - todo == kernels;
  }
}
