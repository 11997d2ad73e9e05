/** What the Modules mean: which releases a kernel mapping matches, and which nodes a Module
    selects. Every observed kernel is covered; mappings overlap only when one minor version is a
    prefix of another; and the Modules of distinct driver versions partition the GPU nodes. */
module Modules {
  import opened Strings
  import opened Api
  import opened Planning

  // ----- kernel patterns -----

  /** The pattern matches the whole release. */
  ghost predicate Matches(pattern: seq<Piece>, release: string)
    decreases |pattern|
  {
    if pattern == [] then release == "" else
      match pattern[0]
      case Text(t) => t <= release && Matches(pattern[1..], release[|t|..])
      case Digits => exists i :: 1 <= i <= |release| && AllDigits(release[..i]) && Matches(pattern[1..], release[i..])
      case Anything => exists i :: 0 <= i <= |release| && Matches(pattern[1..], release[i..])
  }

  const ARCHITECTURE := ".x86_64"

  /** The release starts with the version and, behind it, ends with the architecture. */
  predicate ReleaseOf(version: string, release: string) {
    && |version| + |ARCHITECTURE| <= |release|
    && version <= release
    && release[|release| - |ARCHITECTURE|..] == ARCHITECTURE
  }

  datatype Kernel = Kernel(major: string, minor: string)

  predicate Plain(v: Kernel) {
    Free(v.major, '.') && Free(v.minor, '.')
  }

  function Version(v: Kernel): string {
    v.major + "." + v.minor
  }

  lemma PatternPieces(k: Kind, v: Kernel)
    requires Plain(v)
    ensures KernelPattern(k, Version(v)) == [Text(v.major), Text("." + v.minor), Anything, Text(ARCHITECTURE)]
  {
    SplitHead(v.major, '.', v.minor);
    SplitFree(v.minor, '.');
  }

  lemma PeelText(t: string, others: seq<Piece>, release: string)
    ensures Matches([Text(t)] + others, release) <==> t <= release && Matches(others, release[|t|..])
  {
    assert ([Text(t)] + others)[1..] == others;
  }

  lemma LastText(t: string, release: string)
    ensures Matches([Text(t)], release) <==> release == t
  {
    PeelText(t, [], release);
    assert [Text(t)] + [] == [Text(t)];
  }

  lemma TailMatches(release: string)
    ensures Matches([Anything, Text(ARCHITECTURE)], release) <==> ReleaseOf("", release)
  {
    assert [Anything, Text(ARCHITECTURE)][1..] == [Text(ARCHITECTURE)];
    forall i | 0 <= i <= |release|
      ensures Matches([Text(ARCHITECTURE)], release[i..]) <==> release[i..] == ARCHITECTURE
    {
      LastText(ARCHITECTURE, release[i..]);
    }
  }

  lemma TailOf(version: string, release: string)
    requires version <= release
    ensures ReleaseOf(version, release) <==> ReleaseOf("", release[|version|..])
  {
    var rest := release[|version|..];
    if |ARCHITECTURE| <= |rest| {
      assert rest[|rest| - |ARCHITECTURE|..] == release[|release| - |ARCHITECTURE|..];
    }
  }

  lemma PrefixInSteps(a: string, b: string, s: string)
    requires a <= s
    ensures a + b <= s <==> b <= s[|a|..]
  {
    if b <= s[|a|..] {
      assert s == a + s[|a|..];
      assert s[..|a| + |b|] == a + s[|a|..][..|b|];
    }
    if a + b <= s {
      assert s[|a|..][..|b|] == (a + b)[|a|..];
    }
  }

  /** The mapping of kernel M.m matches exactly the releases M.m, anything, .x86_64. */
  lemma PatternMeaning(k: Kind, v: Kernel, release: string)
    requires Plain(v)
    ensures Matches(KernelPattern(k, Version(v)), release) <==> ReleaseOf(Version(v), release)
  {
    var tail := [Anything, Text(ARCHITECTURE)];
    var minor := "." + v.minor;
    assert KernelPattern(k, Version(v)) == [Text(v.major)] + ([Text(minor)] + tail) by { PatternPieces(k, v); }
    assert Version(v) == v.major + minor;
    PeelText(v.major, [Text(minor)] + tail, release);
    if v.major <= release {
      var r1 := release[|v.major|..];
      PeelText(minor, tail, r1);
      PrefixInSteps(v.major, minor, release);
      if minor <= r1 {
        TailMatches(r1[|minor|..]);
        assert r1[|minor|..] == release[|Version(v)|..];
        TailOf(Version(v), release);
      }
    }
  }

  /** One minor version is a prefix of the other, of the same major, as with 4.1 and 4.18. */
  predicate Nested(v: Kernel, w: Kernel) {
    v.major == w.major && (v.minor <= w.minor || w.minor <= v.minor)
  }

  lemma BehindVersion(v: Kernel, release: string)
    requires Version(v) <= release
    ensures release == v.major + ['.'] + (v.minor + release[|Version(v)|..])
  {
    var rest := release[|Version(v)|..];
    assert release == Version(v) + rest;
    assert v.major + "." + v.minor + rest == v.major + "." + (v.minor + rest);
  }

  lemma HeadsNest(a: string, x: string, b: string, y: string)
    requires a + x == b + y
    ensures a <= b || b <= a
  {
    assert (a + x)[..|a|] == a && (b + y)[..|b|] == b;
  }

  lemma VersionsNest(v: Kernel, w: Kernel, release: string)
    requires Plain(v) && Plain(w) && Version(v) <= release && Version(w) <= release
    ensures Nested(v, w)
  {
    var x, y := release[|Version(v)|..], release[|Version(w)|..];
    BehindVersion(v, release);
    BehindVersion(w, release);
    JoinInjective(v.major, w.major, '.', v.minor + x, w.minor + y);
    HeadsNest(v.minor, x, w.minor, y);
  }

  lemma SameKernel(k: Kind, v: Kernel, w: Kernel, release: string)
    requires Plain(v) && Plain(w)
    requires Matches(KernelPattern(k, Version(v)), release) && Matches(KernelPattern(k, Version(w)), release)
    ensures Nested(v, w)
  {
    PatternMeaning(k, v, release);
    PatternMeaning(k, w, release);
    VersionsNest(v, w, release);
  }

  lemma CommonRelease(k: Kind, v: Kernel, w: Kernel) returns (release: string)
    requires Plain(v) && Plain(w) && v.major == w.major && v.minor <= w.minor
    ensures Matches(KernelPattern(k, Version(v)), release) && Matches(KernelPattern(k, Version(w)), release)
  {
    release := Version(w) + ARCHITECTURE;
    assert Version(w) == Version(v) + w.minor[|v.minor|..];
    PatternMeaning(k, v, release);
    PatternMeaning(k, w, release);
  }

  // ----- the mappings of a Module -----

  /** Distinct kernels get distinct mappings, since each names its image after its kernel. */
  lemma MappingInjective(k: Kind, name: string, version: string, a: string, b: string)
    requires KernelMapping(k, name, version, a) == KernelMapping(k, name, version, b)
    ensures a == b
  {
    var head := REGISTRY + name + "-" + ModName(k) + "-kmm:linux-";
    var tail := if k.Efa? then "" else "-cudadrv-" + version;
    var x, y := head + a + tail, head + b + tail;
    assert KernelMapping(k, name, version, a).image == x && KernelMapping(k, name, version, b).image == y;
    assert |a| == |b|;
    assert x[|head|..|head| + |a|] == a && y[|head|..|head| + |b|] == b;
  }

  /** One mapping for each observed kernel. */
  lemma {:induction false} MappingCount(k: Kind, name: string, version: string, kernels: set<string>)
    ensures |KernelMappings(k, name, version, kernels)| == |kernels|
    decreases kernels
  {
    if kernels != {} {
      var a :| a in kernels;
      MappingCount(k, name, version, kernels - {a});
      var m, rest := KernelMapping(k, name, version, a), KernelMappings(k, name, version, kernels - {a});
      if m in rest {
        var b :| b in kernels - {a} && KernelMapping(k, name, version, b) == m;
        MappingInjective(k, name, version, a, b);
        assert false;
      }
      assert KernelMappings(k, name, version, kernels) == rest + {m};
    }
  }

  /** No observed minor of a major is a proper prefix of another. */
  ghost predicate PrefixFree(kernels: set<Kernel>) {
    forall v, w :: v in kernels && w in kernels && v.major == w.major && v.minor <= w.minor ==> v == w
  }

  ghost predicate AtMostOneMatches(mappings: set<Mapping>) {
    forall m, n, r :: m in mappings && n in mappings && Matches(m.pattern, r) && Matches(n.pattern, r) ==> m == n
  }

  function Versions(kernels: set<Kernel>): set<string> {
    set v | v in kernels :: Version(v)
  }

  lemma OneMapping(k: Kind, name: string, version: string, kernels: set<Kernel>, m: Mapping, n: Mapping, r: string)
    requires (forall v :: v in kernels ==> Plain(v)) && PrefixFree(kernels)
    requires m in KernelMappings(k, name, version, Versions(kernels)) && n in KernelMappings(k, name, version, Versions(kernels))
    requires Matches(m.pattern, r) && Matches(n.pattern, r)
    ensures m == n
  {
    var v :| v in kernels && m == KernelMapping(k, name, version, Version(v));
    var w :| w in kernels && n == KernelMapping(k, name, version, Version(w));
    SameKernel(k, v, w, r);
  }

  lemma PrefixFreeMatchesOnce(k: Kind, name: string, version: string, kernels: set<Kernel>)
    requires (forall v :: v in kernels ==> Plain(v)) && PrefixFree(kernels)
    ensures AtMostOneMatches(KernelMappings(k, name, version, Versions(kernels)))
  {
    var mappings := KernelMappings(k, name, version, Versions(kernels));
    forall m, n, r | m in mappings && n in mappings && Matches(m.pattern, r) && Matches(n.pattern, r) ensures m == n {
      OneMapping(k, name, version, kernels, m, n, r);
    }
  }

  lemma NestedMatchTwice(k: Kind, name: string, version: string, kernels: set<Kernel>, v: Kernel, w: Kernel)
    requires v in kernels && w in kernels && Plain(v) && Plain(w)
    requires v.major == w.major && v.minor <= w.minor && v != w
    ensures !AtMostOneMatches(KernelMappings(k, name, version, Versions(kernels)))
  {
    var r := CommonRelease(k, v, w);
    var m, n := KernelMapping(k, name, version, Version(v)), KernelMapping(k, name, version, Version(w));
    if m == n {
      MappingInjective(k, name, version, Version(v), Version(w));
      JoinInjective(v.major, w.major, '.', v.minor, w.minor);
    }
    assert Version(v) in Versions(kernels) && Version(w) in Versions(kernels);
    var mappings := KernelMappings(k, name, version, Versions(kernels));
    assert m in mappings && n in mappings && Matches(m.pattern, r) && Matches(n.pattern, r);
  }

  /** A release matches at most one mapping of the Module exactly when, among the observed kernels,
      no minor is a proper prefix of another of its major. */
  lemma AtMostOneMappingIff(k: Kind, name: string, version: string, kernels: set<Kernel>)
    requires forall v :: v in kernels ==> Plain(v)
    ensures PrefixFree(kernels) <==> AtMostOneMatches(KernelMappings(k, name, version, Versions(kernels)))
  {
    if PrefixFree(kernels) {
      PrefixFreeMatchesOnce(k, name, version, kernels);
    } else {
      var v, w :| v in kernels && w in kernels && v.major == w.major && v.minor <= w.minor && v != w;
      NestedMatchTwice(k, name, version, kernels, v, w);
    }
  }

  // ----- images -----

  lemma HeadParts(name: string, mod: string, part: string, rest: string)
    requires part == "-" + mod + "-kmm"
    ensures REGISTRY + name + "-" + mod + "-kmm:linux-" + rest == REGISTRY + ((name + part) + [':'] + ("linux-" + rest))
  {
    assert "-kmm:linux-" == "-kmm" + [':'] + "linux-";
  }

  /** Behind the registry, an image is named by two texts, one on either side of a fixed part. */
  lemma ImageParts(k: Kind, name: string, version: string, kernel: string)
    ensures KernelMapping(k, name, version, kernel).image
            == REGISTRY + ((name + (if k.Efa? then "-efa-kmm" else "-gdrdrv-kmm")) + [':']
                           + ("linux-" + (kernel + (if k.Efa? then "" else "-cudadrv-" + version))))
  {
    if k.Efa? {
      HeadParts(name, "efa", "-efa-kmm", kernel);
      assert kernel + "" == kernel;
    } else {
      HeadParts(name, "gdrdrv", "-gdrdrv-kmm", kernel + ("-cudadrv-" + version));
      var head := REGISTRY + name + "-" + "gdrdrv" + "-kmm:linux-";
      assert head + kernel + ("-cudadrv-" + version) == head + (kernel + ("-cudadrv-" + version));
    }
  }

  lemma HeadTells(k: Kind, name: string, l: Kind, other: string)
    requires name + (if k.Efa? then "-efa-kmm" else "-gdrdrv-kmm") == other + (if l.Efa? then "-efa-kmm" else "-gdrdrv-kmm")
    ensures k == l && name == other
  {
    var a, b := if k.Efa? then "-efa-kmm" else "-gdrdrv-kmm", if l.Efa? then "-efa-kmm" else "-gdrdrv-kmm";
    assert (name + a)[|name + a| - 5] == a[|a| - 5] && (other + b)[|other + b| - 5] == b[|b| - 5];
    assert (name + a)[..|name|] == name && (other + b)[..|other|] == other;
  }

  lemma TailTells(a: string, v: string, b: string, w: string)
    requires Free(a, '-') && Free(b, '-')
    requires a + ("-cudadrv-" + v) == b + ("-cudadrv-" + w)
    ensures a == b && v == w
  {
    assert "-cudadrv-" + v == ['-'] + ("cudadrv-" + v) && "-cudadrv-" + w == ['-'] + ("cudadrv-" + w);
    assert a + ("-cudadrv-" + v) == a + ['-'] + ("cudadrv-" + v);
    assert b + ("-cudadrv-" + w) == b + ['-'] + ("cudadrv-" + w);
    JoinInjective(a, b, '-', "cudadrv-" + v, "cudadrv-" + w);
    assert ("cudadrv-" + v)[8..] == v && ("cudadrv-" + w)[8..] == w;
  }

  /** An image is built for one resource, one kernel and, for gdrdrv, one driver version: it tells all of
      them. Resource names have no colon, and kernel versions no dash. */
  lemma ImageTells(k: Kind, name: string, v: string, a: string, l: Kind, other: string, w: string, b: string)
    requires Free(name, ':') && Free(other, ':') && Free(a, '-') && Free(b, '-')
    requires KernelMapping(k, name, v, a).image == KernelMapping(l, other, w, b).image
    ensures k == l && name == other && a == b && (k.Gdrdrv? ==> v == w)
  {
    ImageParts(k, name, v, a);
    ImageParts(l, other, w, b);
    var head := name + (if k.Efa? then "-efa-kmm" else "-gdrdrv-kmm");
    var head2 := other + (if l.Efa? then "-efa-kmm" else "-gdrdrv-kmm");
    var tail := a + (if k.Efa? then "" else "-cudadrv-" + v);
    var tail2 := b + (if l.Efa? then "" else "-cudadrv-" + w);
    var x, y := head + [':'] + ("linux-" + tail), head2 + [':'] + ("linux-" + tail2);
    assert (REGISTRY + x)[|REGISTRY|..] == x && (REGISTRY + y)[|REGISTRY|..] == y;
    JoinInjective(head, head2, ':', "linux-" + tail, "linux-" + tail2);
    HeadTells(k, name, l, other);
    assert ("linux-" + tail)[6..] == tail && ("linux-" + tail2)[6..] == tail2;
    if k.Gdrdrv? {
      TailTells(a, v, b, w);
    } else {
      assert a + "" == a && b + "" == b;
    }
  }

  ghost predicate Dashless(nodes: seq<Node>) {
    forall n :: n in nodes && HasKernel(n) ==> Free(n[KERNEL_MAJOR], '-') && Free(n[KERNEL_MINOR], '-')
  }

  lemma KernelsDashless(nodes: seq<Node>, version: string, kernel: string)
    requires Dashless(nodes) && kernel in CudaKernels(nodes, version)
    ensures Free(kernel, '-')
  {
    var n :| n in nodes && HasCuda(n) && CudaVersion(n) == version && kernel == KernelVersion(n);
  }

  /** So the Modules of two driver versions on one node list share no image: no build for one driver
      serves the nodes of another. */
  lemma ModulesShareNoImage(name: string, nodes: seq<Node>, v: string, w: string, m: Mapping, n: Mapping)
    requires Free(name, ':') && Dashless(nodes) && v in CudaVersions(nodes) && w in CudaVersions(nodes) && v != w
    requires m in KernelMappings(Gdrdrv, name, v, CudaVersions(nodes)[v])
    requires n in KernelMappings(Gdrdrv, name, w, CudaVersions(nodes)[w])
    ensures m.image != n.image
  {
    var a :| a in CudaKernels(nodes, v) && m == KernelMapping(Gdrdrv, name, v, a);
    var b :| b in CudaKernels(nodes, w) && n == KernelMapping(Gdrdrv, name, w, b);
    KernelsDashless(nodes, v, a);
    KernelsDashless(nodes, w, b);
    if m.image == n.image {
      ImageTells(Gdrdrv, name, v, a, Gdrdrv, name, w, b);
      assert false;
    }
  }

  // ----- selectors -----

  lemma SplitCuda(a: string, b: string, c: string)
    requires Free(a, '.') && Free(b, '.') && Free(c, '.')
    ensures Split(a + "." + b + "." + c, '.') == [a, b, c]
  {
    assert a + "." + b + "." + c == a + ['.'] + (b + "." + c);
    SplitHead(a, '.', b + "." + c);
    SplitHead(b, '.', c);
    SplitFree(c, '.');
  }

  /** The label keys a selector sets are four different ones. */
  lemma LabelsDiffer()
    ensures CUDA_MAJOR != CUDA_MINOR && CUDA_MAJOR != CUDA_REV && CUDA_MINOR != CUDA_REV
    ensures GPU_PRESENT !in {CUDA_MAJOR, CUDA_MINOR, CUDA_REV}
  {
    assert CUDA_MAJOR[24] == 'a' && CUDA_MINOR[24] == 'i' && CUDA_MAJOR[23] == CUDA_MINOR[23] == 'm' && CUDA_REV[23] == 'r';
    assert GPU_PRESENT[11] == 'g' && CUDA_MAJOR[11] == 'c' && CUDA_MINOR[11] == 'c' && CUDA_REV[11] == 'c';
  }

  predicate Has(n: Node, key: string, value: string) {
    key in n && n[key] == value
  }

  /** The node has whatever the user asked for, but for the labels the controller sets itself. */
  predicate Respects(k: Kind, spec: Spec, n: Node) {
    forall key :: key in spec.nodeSelector && key !in OwnKeys(k) ==> Has(n, key, spec.nodeSelector[key])
  }

  /** The node has the device, and the driver of the version a.b.c. */
  predicate Equipped(k: Kind, a: string, b: string, c: string, n: Node) {
    match k
    case Efa => Has(n, EFA_PRESENT, "true")
    case Gdrdrv => Has(n, GPU_PRESENT, "true") && Has(n, CUDA_MAJOR, a) && Has(n, CUDA_MINOR, b) && Has(n, CUDA_REV, c)
  }

  lemma SelectorEntries(k: Kind, spec: Spec, a: string, b: string, c: string)
    requires Free(a, '.') && Free(b, '.') && Free(c, '.')
    ensures var selector := Selector(k, spec, a + "." + b + "." + c);
            && selector.Keys == spec.nodeSelector.Keys + OwnKeys(k)
            && (forall key :: key in spec.nodeSelector && key !in OwnKeys(k) ==> selector[key] == spec.nodeSelector[key])
            && (k.Efa? ==> selector[EFA_PRESENT] == "true")
            && (k.Gdrdrv? ==> selector[GPU_PRESENT] == "true" && selector[CUDA_MAJOR] == a
                              && selector[CUDA_MINOR] == b && selector[CUDA_REV] == c)
  {
    SplitCuda(a, b, c);
    LabelsDiffer();
  }

  /** Which nodes a Module selects, any node and any spec: those that respect the user's own selector and
      have the device, and for gdrdrv just the three version labels. */
  lemma SelectsIff(k: Kind, spec: Spec, a: string, b: string, c: string, n: Node)
    requires Free(a, '.') && Free(b, '.') && Free(c, '.')
    ensures Carries(n, Selector(k, spec, a + "." + b + "." + c)) <==> Respects(k, spec, n) && Equipped(k, a, b, c, n)
  {
    SelectorEntries(k, spec, a, b, c);
    var selector := Selector(k, spec, a + "." + b + "." + c);
    if Carries(n, selector) {
      forall key | key in spec.nodeSelector && key !in OwnKeys(k) ensures Has(n, key, spec.nodeSelector[key]) {
        assert key in selector;
      }
      assert forall key :: key in OwnKeys(k) ==> key in selector;
    } else {
      var key :| key in selector && !Has(n, key, selector[key]);
      assert key in OwnKeys(k) || key in spec.nodeSelector;
    }
  }

  predicate CudaPlain(n: Node)
    requires HasCuda(n)
  {
    Free(n[CUDA_MAJOR], '.') && Free(n[CUDA_MINOR], '.') && Free(n[CUDA_REV], '.')
  }

  lemma DotLost(n: Node)
    requires HasCuda(n) && !CudaPlain(n)
    ensures var parts := Split(CudaVersion(n), '.');
            || |parts[0]| < |n[CUDA_MAJOR]|
            || (|parts| > 1 && |parts[1]| < |n[CUDA_MINOR]|)
            || (|parts| > 2 && |parts[2]| < |n[CUDA_REV]|)
  {
    var a, b, c := n[CUDA_MAJOR], n[CUDA_MINOR], n[CUDA_REV];
    assert CudaVersion(n) == a + ['.'] + (b + "." + c) && b + "." + c == b + ['.'] + c;
    if !Free(a, '.') {
      SplitShortens(a, '.', b + "." + c);
    } else if !Free(b, '.') {
      SplitHead(a, '.', b + "." + c);
      SplitShortens(b, '.', c);
    } else {
      SplitHead(a, '.', b + "." + c);
      SplitHead(b, '.', c);
      SplitShortens(c, '.', "");
    }
  }

  /** A node that reports a driver version, has a GPU and satisfies the resource's own selector is
      matched by the Module of its version exactly when its three version labels are free of dots. */
  lemma OwnModuleIff(spec: Spec, n: Node)
    requires HasCuda(n) && Carries(n, spec.nodeSelector) && GPU_PRESENT in n && n[GPU_PRESENT] == "true"
    ensures Carries(n, Selector(Gdrdrv, spec, CudaVersion(n))) <==> CudaPlain(n)
  {
    var selector := Selector(Gdrdrv, spec, CudaVersion(n));
    var parts := Split(CudaVersion(n), '.');
    LabelsDiffer();
    if CudaPlain(n) {
      SplitCuda(n[CUDA_MAJOR], n[CUDA_MINOR], n[CUDA_REV]);
    } else {
      DotLost(n);
      assert CUDA_MAJOR in selector && selector[CUDA_MAJOR] == parts[0];
      assert |parts| > 1 ==> CUDA_MINOR in selector && selector[CUDA_MINOR] == parts[1];
      assert |parts| > 2 ==> CUDA_REV in selector && selector[CUDA_REV] == parts[2];
    }
  }

  /** All version labels of the nodes are free of dots. */
  predicate AllPlain(nodes: seq<Node>) {
    forall n :: n in nodes && HasCuda(n) ==> CudaPlain(n) && Free(n[KERNEL_MAJOR], '.') && Free(n[KERNEL_MINOR], '.')
  }

  /** The nested map holds exactly the pairs of driver and kernel version seen on some node. */
  lemma CudaVersionsExact(nodes: seq<Node>, version: string, kernel: string)
    ensures version in CudaVersions(nodes) && kernel in CudaVersions(nodes)[version]
            <==> exists n :: n in nodes && HasCuda(n) && CudaVersion(n) == version && KernelVersion(n) == kernel
  {
    if n :| n in nodes && HasCuda(n) && CudaVersion(n) == version && KernelVersion(n) == kernel {
      assert version in CudaVersions(nodes) && kernel in CudaKernels(nodes, version);
    }
  }

  /** The Modules of the observed driver versions partition the GPU nodes: no node whatever is
      selected by two of them, and each contributing node with a GPU that satisfies the resource's
      selector is selected by the Module of its own version and by no other. */
  lemma ModulesPartition(spec: Spec, nodes: seq<Node>, v: string, w: string, n: Node)
    requires AllPlain(nodes) && v in CudaVersions(nodes) && w in CudaVersions(nodes)
    ensures Carries(n, Selector(Gdrdrv, spec, v)) && Carries(n, Selector(Gdrdrv, spec, w)) ==> v == w
    ensures n in nodes && HasCuda(n) && Carries(n, spec.nodeSelector) && GPU_PRESENT in n && n[GPU_PRESENT] == "true"
            ==> CudaVersion(n) in CudaVersions(nodes) && (Carries(n, Selector(Gdrdrv, spec, v)) <==> v == CudaVersion(n))
  {
    var x :| x in nodes && HasCuda(x) && CudaVersion(x) == v;
    var y :| y in nodes && HasCuda(y) && CudaVersion(y) == w;
    if Carries(n, Selector(Gdrdrv, spec, v)) {
      SelectsIff(Gdrdrv, spec, x[CUDA_MAJOR], x[CUDA_MINOR], x[CUDA_REV], n);
      if Carries(n, Selector(Gdrdrv, spec, w)) {
        SelectsIff(Gdrdrv, spec, y[CUDA_MAJOR], y[CUDA_MINOR], y[CUDA_REV], n);
      }
    }
    if n in nodes && HasCuda(n) && Carries(n, spec.nodeSelector) && GPU_PRESENT in n && n[GPU_PRESENT] == "true" {
      OwnModuleIff(spec, n);
    }
  }

  /** The Module of a version, created from this node list, maps the kernel of each of its nodes:
      one of its mappings matches every release of that kernel. */
  lemma ModuleMapsItsKernels(name: string, nodes: seq<Node>, n: Node, release: string)
    requires AllPlain(nodes) && n in nodes && HasCuda(n) && ReleaseOf(n[KERNEL_MAJOR] + "." + n[KERNEL_MINOR], release)
    ensures var v := CudaVersion(n);
            && v in CudaVersions(nodes)
            && exists m :: m in KernelMappings(Gdrdrv, name, v, CudaVersions(nodes)[v])
                           && Matches(m.pattern, release)
  {
    var v, kernel := CudaVersion(n), KernelVersion(n);
    CudaVersionsExact(nodes, v, kernel);
    PatternMeaning(Gdrdrv, Kernel(n[KERNEL_MAJOR], n[KERNEL_MINOR]), release);
    assert KernelMapping(Gdrdrv, name, v, kernel) in KernelMappings(Gdrdrv, name, v, CudaVersions(nodes)[v]);
  }

  /** The same for the one Module of an EfaDriver and the nodes with an EFA device. */
  lemma EfaModuleMapsItsKernels(name: string, nodes: seq<Node>, n: Node, release: string)
    requires n in nodes && HasEfa(n) && Free(n[KERNEL_MAJOR], '.') && Free(n[KERNEL_MINOR], '.')
    requires ReleaseOf(n[KERNEL_MAJOR] + "." + n[KERNEL_MINOR], release)
    ensures exists m :: m in KernelMappings(Efa, name, "", EfaKernels(nodes))
                        && Matches(m.pattern, release)
  {
    PatternMeaning(Efa, Kernel(n[KERNEL_MAJOR], n[KERNEL_MINOR]), release);
    assert KernelVersion(n) in EfaKernels(nodes);
    assert KernelMapping(Efa, name, "", KernelVersion(n)) in KernelMappings(Efa, name, "", EfaKernels(nodes));
  }

  // ----- which releases a Module covers -----

  /** The kernels a Module of this version is to be made for, by a node list. */
  function KernelsOf(k: Kind, nodes: seq<Node>, version: string): set<string> {
    match k case Efa => EfaKernels(nodes) case Gdrdrv => CudaKernels(nodes, version)
  }

  ghost predicate KernelLabelsPlain(nodes: seq<Node>) {
    forall n :: n in nodes && HasKernel(n) ==> Free(n[KERNEL_MAJOR], '.') && Free(n[KERNEL_MINOR], '.')
  }

  /** The node shows the kernel of the release, on a node this Module is made for. */
  ghost predicate Contributes(k: Kind, n: Node, version: string, release: string) {
    && (if k.Efa? then HasEfa(n) else HasCuda(n) && CudaVersion(n) == version)
    && HasKernel(n) && ReleaseOf(n[KERNEL_MAJOR] + "." + n[KERNEL_MINOR], release)
  }

  ghost predicate Covering(mappings: set<Mapping>, release: string) {
    exists m :: m in mappings && Matches(m.pattern, release)
  }

  ghost predicate SomeContributes(k: Kind, nodes: seq<Node>, version: string, release: string) {
    exists n :: n in nodes && Contributes(k, n, version, release)
  }

  /** A Module covers a release exactly when a node of the list it was made from contributes its kernel:
      nodes that came later play no part, whatever reconciles there were since. */
  lemma ModuleCoversIff(k: Kind, name: string, nodes: seq<Node>, version: string, release: string)
    requires KernelLabelsPlain(nodes)
    ensures Covering(KernelMappings(k, name, version, KernelsOf(k, nodes, version)), release)
            <==> SomeContributes(k, nodes, version, release)
  {
    var mappings := KernelMappings(k, name, version, KernelsOf(k, nodes, version));
    forall n | n in nodes && HasKernel(n)
      ensures Matches(KernelPattern(k, KernelVersion(n)), release) <==> ReleaseOf(KernelVersion(n), release)
    {
      PatternMeaning(k, Kernel(n[KERNEL_MAJOR], n[KERNEL_MINOR]), release);
    }
    if m :| m in mappings && Matches(m.pattern, release) {
      var kernel :| kernel in KernelsOf(k, nodes, version) && m == KernelMapping(k, name, version, kernel);
      var n :| n in nodes && (if k.Efa? then HasEfa(n) else HasCuda(n) && CudaVersion(n) == version) && KernelVersion(n) == kernel;
      assert Contributes(k, n, version, release);
    }
    if n :| n in nodes && Contributes(k, n, version, release) {
      var m := KernelMapping(k, name, version, KernelVersion(n));
      assert KernelVersion(n) in KernelsOf(k, nodes, version);
      assert m in mappings && Matches(m.pattern, release);
    }
  }
}
