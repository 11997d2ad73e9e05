/** What a resource needs, object by object: which keys, which labels, and what a Module says, in terms
    of the spec and the nodes alone; and that the controllers' plans bring just that. */
module Inventory {
  import opened Options
  import opened Api
  import opened Planning
  import opened Protocol
  import opened Modules

  // ----- the objects -----

  /** A resource of kind k needs an object of this key while the cluster has these nodes. */
  ghost predicate Needs(ns: string, k: Kind, cr: Cr, nodes: seq<Node>, key: Key) {
    match key.res
    case NodeFeatureRule => k.Efa? && key.ns == ns && key.name == cr.name
    case ConfigMap =>
      key.ns == cr.spec.kmmNamespace
      && (if k.Efa? then key.name == cr.name + "-efa-kmm-dockerfile"
          else exists n :: n in nodes && HasCuda(n) && key.name == cr.name + "-gdrdrv-kmm-dockerfile-cudadrv-" + CudaVersion(n))
    case Module =>
      key.ns == cr.spec.kmmNamespace
      && (if k.Efa? then key.name == cr.name + "-efa" && exists n :: n in nodes && HasEfa(n)
          else exists n :: n in nodes && HasCuda(n) && key.name == cr.name + "-gdrdrv-cudadrv-" + CudaVersion(n))
    case Scc => cr.spec.openShift == Some(true) && key.ns == "" && key.name == cr.name + "-" + cr.spec.serviceAccount
    case DaemonSet =>
      key.ns == ns && key.name == cr.name + (if k.Efa? then "-efa-device-plugin" else "-gdrdrv-device-plugin")
  }

  /** The Module for the nodes with an EFA device: it names its ConfigMap, selects the nodes with the
      device that the user allows, and covers just the kernels of the nodes seen. */
  ghost predicate LoadsEfa(cr: Cr, nodes: seq<Node>, kmm: Child) {
    && kmm.body.Kmm? && kmm.body.dockerfile == cr.name + "-efa-kmm-dockerfile"
    && (forall n :: Carries(n, kmm.body.selector) <==> Respects(Efa, cr.spec, n) && Has(n, EFA_PRESENT, "true"))
    && (KernelLabelsPlain(nodes) ==>
          forall release :: Covering(kmm.body.mappings, release) <==> SomeContributes(Efa, nodes, "", release))
  }

  /** The node has a GPU and the same driver version labels as another. */
  predicate SameDriver(n: Node, seen: Node)
    requires HasCuda(seen)
  {
    && Has(n, GPU_PRESENT, "true") && Has(n, CUDA_MAJOR, seen[CUDA_MAJOR])
    && Has(n, CUDA_MINOR, seen[CUDA_MINOR]) && Has(n, CUDA_REV, seen[CUDA_REV])
  }

  /** The same for the driver version that node `seen` reports. */
  ghost predicate LoadsGdrdrv(cr: Cr, nodes: seq<Node>, seen: Node, kmm: Child)
    requires HasCuda(seen)
  {
    && kmm.body.Kmm? && kmm.body.dockerfile == cr.name + "-gdrdrv-kmm-dockerfile-cudadrv-" + CudaVersion(seen)
    && kmm.key.name == cr.name + "-gdrdrv-cudadrv-" + CudaVersion(seen)
    && (CudaPlain(seen) ==>
          forall n :: Carries(n, kmm.body.selector) <==> Respects(Gdrdrv, cr.spec, n) && SameDriver(n, seen))
    && (KernelLabelsPlain(nodes) ==>
          forall release :: Covering(kmm.body.mappings, release) <==> SomeContributes(Gdrdrv, nodes, CudaVersion(seen), release))
  }

  /** An object the way it is made for the resource: owned by it, labelled with its name and, where it
      is to be found by label, with its module; and a Module as described above. */
  ghost predicate Intended(k: Kind, cr: Cr, nodes: seq<Node>, child: Child) {
    && child.owner == Some(Owner(k, cr.name, cr.uid))
    && child.labels == (if child.key.res.ConfigMap? || child.key.res.Module?
                        then map["ocp-efa-operator.fms.io" := cr.name, "modName" := if k.Efa? then "efa" else "gdrdrv"]
                        else map["ocp-efa-operator.fms.io" := cr.name])
    && (child.key.res.Module? ==>
          match k
          case Efa => LoadsEfa(cr, nodes, child)
          case Gdrdrv => exists seen :: seen in nodes && HasCuda(seen) && LoadsGdrdrv(cr, nodes, seen, child))
  }

  /** Exactly what was missing has been added, each object the way it is meant to be, and what was there
      has been left alone. */
  ghost predicate Restored(ns: string, k: Kind, cr: Cr, nodes: seq<Node>, before: Children, children: Children) {
    && (forall key :: key in children <==> key in before || Needs(ns, k, cr, nodes, key))
    && (forall key :: key in before && key in children ==> children[key] == before[key])
    && (forall key :: key in children && key !in before ==> children[key].key == key && Intended(k, cr, nodes, children[key]))
  }

  /** The teardown of the resource takes this object: a device plugin, constraints or a rule by its name,
      a ConfigMap or Module by its namespace and labels, whatever its name. */
  predicate Goes(ns: string, k: Kind, cr: Cr, child: Child) {
    match child.key.res
    case NodeFeatureRule => k.Efa? && child.key.ns == ns && child.key.name == cr.name
    case Scc => cr.spec.openShift == Some(true) && child.key.ns == "" && child.key.name == cr.name + "-" + cr.spec.serviceAccount
    case DaemonSet =>
      child.key.ns == ns && child.key.name == cr.name + (if k.Efa? then "-efa-device-plugin" else "-gdrdrv-device-plugin")
    case _ =>
      && child.key.ns == cr.spec.kmmNamespace
      && Has(child.labels, "ocp-efa-operator.fms.io", cr.name)
      && Has(child.labels, "modName", if k.Efa? then "efa" else "gdrdrv")
  }

  /** Just those are gone, and the others have been left alone. */
  ghost predicate Cleared(ns: string, k: Kind, cr: Cr, before: Children, children: Children) {
    && (forall key :: key in children <==> key in before && !Goes(ns, k, cr, before[key]))
    && (forall key :: key in children && key in before ==> children[key] == before[key])
  }

  // ----- the plans bring just these -----

  ghost predicate InPairs(k: Kind, cr: Cr, versions: map<string, set<string>>, child: Child) {
    exists v :: v in versions && child in CudaPair(k, cr, v, versions[v])
  }

  /** The children a resource has when everything is there, as the controllers plan them. */
  ghost predicate Wanted(ns: string, k: Kind, cr: Cr, nodes: seq<Node>, child: Child) {
    || child in Tail(ns, k, cr)
    || (match k
        case Efa => child in EfaHead(ns, cr) || child in EfaKmm(cr, EfaKernels(nodes))
        case Gdrdrv => InPairs(k, cr, CudaVersions(nodes), child))
  }

  lemma Joined(name: string, mod: string, suffix: string, whole: string)
    requires whole == "-" + mod + suffix
    ensures name + "-" + mod + suffix == name + whole
  {
  }

  /** The names as the controllers put them together. */
  lemma EfaSpelled(name: string, version: string)
    ensures DockerfileName(Efa, name, version) == name + "-efa-kmm-dockerfile"
    ensures KmmName(Efa, name, version) == name + "-efa"
    ensures PluginName(Efa, name) == name + "-efa-device-plugin"
  {
    Joined(name, "efa", "-kmm-dockerfile", "-efa-kmm-dockerfile");
    Joined(name, "efa", "", "-efa");
    Joined(name, "efa", "-device-plugin", "-efa-device-plugin");
  }

  lemma Behind(name: string, mod: string, suffix: string, whole: string, version: string)
    requires whole == "-" + mod + suffix + "-cudadrv-"
    ensures name + "-" + mod + suffix + ("-cudadrv-" + version) == name + whole + version
  {
    assert name + whole + version == name + (whole + version);
  }

  lemma CudaDockerfileSpelled(name: string, version: string)
    ensures DockerfileName(Gdrdrv, name, version) == name + "-gdrdrv-kmm-dockerfile-cudadrv-" + version
  {
    Behind(name, "gdrdrv", "-kmm-dockerfile", "-gdrdrv-kmm-dockerfile-cudadrv-", version);
  }

  lemma CudaModuleSpelled(name: string, version: string)
    ensures KmmName(Gdrdrv, name, version) == name + "-gdrdrv-cudadrv-" + version
  {
    Behind(name, "gdrdrv", "", "-gdrdrv-cudadrv-", version);
  }

  lemma GdrdrvSpelled(name: string, version: string)
    ensures DockerfileName(Gdrdrv, name, version) == name + "-gdrdrv-kmm-dockerfile-cudadrv-" + version
    ensures KmmName(Gdrdrv, name, version) == name + "-gdrdrv-cudadrv-" + version
    ensures PluginName(Gdrdrv, name) == name + "-gdrdrv-device-plugin"
  {
    CudaDockerfileSpelled(name, version);
    CudaModuleSpelled(name, version);
    Joined(name, "gdrdrv", "-device-plugin", "-gdrdrv-device-plugin");
  }

  lemma EfaKmmIntended(cr: Cr, nodes: seq<Node>)
    ensures LoadsEfa(cr, nodes, KmmChild(Efa, cr, "", EfaKernels(nodes)))
  {
    var kmm := KmmChild(Efa, cr, "", EfaKernels(nodes));
    EfaSpelled(cr.name, "");
    forall n ensures Carries(n, kmm.body.selector) <==> Respects(Efa, cr.spec, n) && Has(n, EFA_PRESENT, "true") {
      SelectsIff(Efa, cr.spec, "", "", "", n);
    }
    if KernelLabelsPlain(nodes) {
      forall release ensures Covering(kmm.body.mappings, release) <==> SomeContributes(Efa, nodes, "", release) {
        ModuleCoversIff(Efa, cr.name, nodes, "", release);
      }
    }
  }

  lemma GdrdrvKmmIntended(cr: Cr, nodes: seq<Node>, seen: Node)
    requires seen in nodes && HasCuda(seen)
    ensures LoadsGdrdrv(cr, nodes, seen, KmmChild(Gdrdrv, cr, CudaVersion(seen), CudaKernels(nodes, CudaVersion(seen))))
  {
    var version := CudaVersion(seen);
    var kmm := KmmChild(Gdrdrv, cr, version, CudaKernels(nodes, version));
    GdrdrvSpelled(cr.name, version);
    if CudaPlain(seen) {
      forall n ensures Carries(n, kmm.body.selector) <==> Respects(Gdrdrv, cr.spec, n) && SameDriver(n, seen) {
        SelectsIff(Gdrdrv, cr.spec, seen[CUDA_MAJOR], seen[CUDA_MINOR], seen[CUDA_REV], n);
      }
    }
    if KernelLabelsPlain(nodes) {
      forall release ensures Covering(kmm.body.mappings, release) <==> SomeContributes(Gdrdrv, nodes, version, release) {
        ModuleCoversIff(Gdrdrv, cr.name, nodes, version, release);
      }
    }
  }

  lemma TailIsNeeded(ns: string, k: Kind, cr: Cr, nodes: seq<Node>, child: Child)
    requires child in Tail(ns, k, cr)
    ensures Needs(ns, k, cr, nodes, child.key) && Intended(k, cr, nodes, child)
  {
    if k.Efa? { EfaSpelled(cr.name, ""); } else { GdrdrvSpelled(cr.name, ""); }
  }

  lemma EfaIsNeeded(ns: string, cr: Cr, nodes: seq<Node>, child: Child)
    requires child in EfaHead(ns, cr) || child in EfaKmm(cr, EfaKernels(nodes))
    ensures Needs(ns, Efa, cr, nodes, child.key) && Intended(Efa, cr, nodes, child)
  {
    EfaSpelled(cr.name, "");
    if child in EfaKmm(cr, EfaKernels(nodes)) {
      var kernel :| kernel in EfaKernels(nodes);
      EfaKmmIntended(cr, nodes);
    }
  }

  lemma PairIsNeeded(ns: string, cr: Cr, nodes: seq<Node>, seen: Node)
    requires seen in nodes && HasCuda(seen)
    ensures var version := CudaVersion(seen);
            forall child :: child in CudaPair(Gdrdrv, cr, version, CudaKernels(nodes, version)) ==>
              Needs(ns, Gdrdrv, cr, nodes, child.key) && Intended(Gdrdrv, cr, nodes, child)
  {
    GdrdrvSpelled(cr.name, CudaVersion(seen));
    GdrdrvKmmIntended(cr, nodes, seen);
  }

  /** Every planned child is needed, and is the way it is meant to be. */
  lemma WantedIsNeeded(ns: string, k: Kind, cr: Cr, nodes: seq<Node>, child: Child)
    requires Wanted(ns, k, cr, nodes, child)
    ensures Needs(ns, k, cr, nodes, child.key) && Intended(k, cr, nodes, child)
  {
    if child in Tail(ns, k, cr) {
      TailIsNeeded(ns, k, cr, nodes, child);
    } else if k.Efa? {
      EfaIsNeeded(ns, cr, nodes, child);
    } else {
      var v :| v in CudaVersions(nodes) && child in CudaPair(Gdrdrv, cr, v, CudaVersions(nodes)[v]);
      var seen :| seen in nodes && HasCuda(seen) && CudaVersion(seen) == v;
      PairIsNeeded(ns, cr, nodes, seen);
    }
  }

  lemma VersionIsWanted(ns: string, cr: Cr, nodes: seq<Node>, n: Node, i: nat) returns (child: Child)
    requires n in nodes && HasCuda(n) && i < 2
    ensures Wanted(ns, Gdrdrv, cr, nodes, child)
    ensures child.key == if i == 0 then Key(ConfigMap, cr.spec.kmmNamespace, cr.name + "-gdrdrv-kmm-dockerfile-cudadrv-" + CudaVersion(n))
                         else Key(Module, cr.spec.kmmNamespace, cr.name + "-gdrdrv-cudadrv-" + CudaVersion(n))
  {
    var version := CudaVersion(n);
    GdrdrvSpelled(cr.name, version);
    assert version in CudaVersions(nodes);
    child := CudaPair(Gdrdrv, cr, version, CudaVersions(nodes)[version])[i];
    assert InPairs(Gdrdrv, cr, CudaVersions(nodes), child);
  }

  /** And everything needed is planned. */
  lemma NeededIsWanted(ns: string, k: Kind, cr: Cr, nodes: seq<Node>, key: Key) returns (child: Child)
    requires Needs(ns, k, cr, nodes, key)
    ensures Wanted(ns, k, cr, nodes, child) && child.key == key
  {
    if k.Efa? { EfaSpelled(cr.name, ""); } else { GdrdrvSpelled(cr.name, ""); }
    match key.res {
      case NodeFeatureRule => child := NfrChild(ns, k, cr);
      case Scc => child := SccChild(k, cr);
      case DaemonSet => child := PluginChild(ns, k, cr);
      case ConfigMap =>
        if k.Efa? {
          child := DockerfileChild(k, cr, "");
        } else {
          var n :| n in nodes && HasCuda(n) && key.name == cr.name + "-gdrdrv-kmm-dockerfile-cudadrv-" + CudaVersion(n);
          child := VersionIsWanted(ns, cr, nodes, n, 0);
        }
      case Module =>
        if k.Efa? {
          var n :| n in nodes && HasEfa(n);
          assert KernelVersion(n) in EfaKernels(nodes);
          child := KmmChild(k, cr, "", EfaKernels(nodes));
        } else {
          var n :| n in nodes && HasCuda(n) && key.name == cr.name + "-gdrdrv-cudadrv-" + CudaVersion(n);
          child := VersionIsWanted(ns, cr, nodes, n, 1);
        }
    }
  }
}
