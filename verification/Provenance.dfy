/** Where a Module comes from. The operator never updates a child, so in every state a Module covers
    the kernels of one node list the cluster had before it was created, and no others. */
module Provenance {
  import opened Api
  import opened Planning
  import opened Protocol
  import opened Holding
  import opened Custody
  import opened Modules

  // ----- the node lists of a run -----

  /** Every node list the cluster had in the run. */
  ghost function Lists(s: System, run: seq<Action>): set<seq<Node>>
    decreases |run|
  {
    if run == [] then {s.nodes} else Lists(s, run[..|run| - 1]) + {Run(s, run).nodes}
  }

  /** The Module of `cr` for one driver version, with the kernels a node list shows. */
  predicate MadeFrom(k: Kind, cr: Cr, nodes: seq<Node>, version: string, child: Child) {
    && child == KmmChild(k, cr, version, KernelsOf(k, nodes, version))
    && (k.Gdrdrv? ==> version in CudaVersions(nodes))
  }

  ghost predicate FromSome(lists: set<seq<Node>>, k: Kind, cr: Cr, child: Child) {
    child.key.res == Module ==> exists nodes, version :: nodes in lists && MadeFrom(k, cr, nodes, version, child)
  }

  /** Made for a holder of the finalizer, from some node list. */
  ghost predicate HeldFrom(lists: set<seq<Node>>, k: Kind, crs: seq<Cr>, child: Child) {
    child.key.res == Module ==> exists i :: 0 <= i < |crs| && crs[i].finalizer && FromSome(lists, k, crs[i], child)
  }

  ghost predicate AllFrom(lists: set<seq<Node>>, k: Kind, crs: seq<Cr>, children: Children) {
    forall key :: key in children && OwnedBy(k, children[key]) ==> HeldFrom(lists, k, crs, children[key])
  }

  predicate VersionsOf(nodes: seq<Node>, versions: map<string, set<string>>) {
    forall v :: v in versions ==> v in CudaVersions(nodes) && versions[v] == CudaKernels(nodes, v)
  }

  /** The driver versions still to come are those of one node list, with its kernels. */
  ghost predicate VersionsFrom(lists: set<seq<Node>>, versions: map<string, set<string>>) {
    exists nodes :: nodes in lists && VersionsOf(nodes, versions)
  }

  ghost predicate RestFrom(lists: set<seq<Node>>, k: Kind, rest: Rest) {
    rest.ThenRange? ==> k.Gdrdrv? && VersionsFrom(lists, rest.versions)
  }

  ghost predicate PcFrom(lists: set<seq<Node>>, k: Kind, pc: Pc) {
    && (pc.Filling? ==> RestFrom(lists, k, pc.rest) && forall i :: 0 <= i < |pc.todo| ==> FromSome(lists, k, pc.cr, pc.todo[i]))
    && (pc.Ranging? ==> k.Gdrdrv? && VersionsFrom(lists, pc.versions))
  }

  ghost predicate KindFrom(lists: set<seq<Node>>, s: System, k: Kind) {
    AllFrom(lists, k, Side(s, k).store.crs, s.children) && PcFrom(lists, k, Side(s, k).pc)
  }

  ghost predicate ProvInv(lists: set<seq<Node>>, s: System) {
    s.nodes in lists && KindFrom(lists, s, Efa) && KindFrom(lists, s, Gdrdrv)
  }

  // ----- the plans -----

  lemma KmmFrom(lists: set<seq<Node>>, k: Kind, cr: Cr, nodes: seq<Node>, version: string, kernels: set<string>)
    requires nodes in lists && kernels == KernelsOf(k, nodes, version) && (k.Gdrdrv? ==> version in CudaVersions(nodes))
    ensures FromSome(lists, k, cr, KmmChild(k, cr, version, kernels))
  {
    assert MadeFrom(k, cr, nodes, version, KmmChild(k, cr, version, kernels));
  }

  lemma ContinueFrom(lists: set<seq<Node>>, ns: string, k: Kind, cr: Cr, todo: seq<Child>, rest: Rest)
    requires RestFrom(lists, k, rest) && forall i :: 0 <= i < |todo| ==> FromSome(lists, k, cr, todo[i])
    ensures PcFrom(lists, k, Continue(ns, k, cr, todo, rest))
  {
  }

  lemma AfterScanFrom(lists: set<seq<Node>>, ns: string, k: Kind, cr: Cr, nodes: seq<Node>)
    requires nodes in lists
    ensures PcFrom(lists, k, AfterScan(ns, k, cr, nodes))
  {
    if k.Efa? {
      var kmm, tail := EfaKmm(cr, EfaKernels(nodes)), Tail(ns, k, cr);
      KmmFrom(lists, k, cr, nodes, "", EfaKernels(nodes));
      assert forall i :: 0 <= i < |kmm + tail| ==> (kmm + tail)[i] == if i < |kmm| then kmm[i] else tail[i - |kmm|];
    } else {
      assert VersionsOf(nodes, CudaVersions(nodes));
      ContinueFrom(lists, ns, k, cr, [], ThenRange(CudaVersions(nodes)));
    }
  }

  lemma ResumeFrom(lists: set<seq<Node>>, ns: string, k: Kind, pc: Pc, reply: Reply)
    requires HasCall(pc) && PcFrom(lists, k, pc) && (reply.Nodes? ==> reply.nodes in lists)
    ensures PcFrom(lists, k, Resume(ns, k, pc, reply))
  {
    if pc.Filling? {
      ContinueFrom(lists, ns, k, pc.cr, pc.todo[1..], pc.rest);
    } else if pc.Scanning? {
      if reply.Nodes? { AfterScanFrom(lists, ns, k, pc.cr, reply.nodes); }
    } else if !pc.Tearing? {
      ResumePlans(ns, k, pc, reply);
    }
  }

  lemma FewerVersions(nodes: seq<Node>, versions: map<string, set<string>>, version: string)
    requires VersionsOf(nodes, versions)
    ensures VersionsOf(nodes, versions - {version})
  {
    var fewer := versions - {version};
    assert forall v :: v in fewer ==> v in versions && fewer[v] == versions[v];
  }

  lemma PairFrom(lists: set<seq<Node>>, cr: Cr, versions: map<string, set<string>>, version: string)
    requires version in versions && VersionsFrom(lists, versions)
    ensures VersionsFrom(lists, versions - {version})
    ensures FromSome(lists, Gdrdrv, cr, KmmChild(Gdrdrv, cr, version, versions[version]))
  {
    var nodes :| nodes in lists && VersionsOf(nodes, versions);
    FewerVersions(nodes, versions, version);
    assert versions[version] == KernelsOf(Gdrdrv, nodes, version);
    KmmFrom(lists, Gdrdrv, cr, nodes, version, versions[version]);
  }

  lemma ChooseFrom(lists: set<seq<Node>>, ns: string, k: Kind, pc: Pc, version: string)
    requires PcFrom(lists, k, pc)
    ensures PcFrom(lists, k, Choose(ns, k, pc, version))
  {
    if pc.Ranging? && version in pc.versions {
      PairFrom(lists, pc.cr, pc.versions, version);
      ContinueFrom(lists, ns, k, pc.cr, CudaPair(k, pc.cr, version, pc.versions[version]), ThenRange(pc.versions - {version}));
    }
  }

  lemma NodesReply(st: Store, children: Children, nodes: seq<Node>, call: Call, fault: Fault)
    ensures var reply := Exec(st, children, nodes, call, fault).reply; reply.Nodes? ==> reply.nodes == nodes
  {
  }

  lemma PcStepFrom(lists: set<seq<Node>>, s: System, a: Action, k: Kind)
    requires PcFrom(lists, k, Side(s, k).pc) && s.nodes in lists
    ensures PcFrom(lists, k, Side(Step(s, a), k).pc)
  {
    var c := Side(s, k);
    StepSide(s, a, k);
    if a.Api? && a.k == k && HasCall(c.pc) {
      NodesReply(c.store, s.children, s.nodes, NextCall(c.pc), a.fault);
      ResumeFrom(lists, s.ns, k, c.pc, Exec(c.store, s.children, s.nodes, NextCall(c.pc), a.fault).reply);
    } else if a.Pick? {
      ChooseFrom(lists, s.ns, k, c.pc, a.version);
    }
  }

  // ----- the children -----

  /** A Module is that of the stored resource as well as that of any copy of it. */
  lemma SameModule(lists: set<seq<Node>>, k: Kind, stored: Cr, cr: Cr, child: Child)
    requires Holds(stored, cr) && FromSome(lists, k, cr, child)
    ensures FromSome(lists, k, stored, child)
  {
    if child.key.res == Module {
      var nodes, version :| nodes in lists && MadeFrom(k, cr, nodes, version, child);
      assert MadeFrom(k, stored, nodes, version, child);
    }
  }

  lemma OldFrom(lists: set<seq<Node>>, s: System, a: Action, k: Kind, key: Key)
    requires KindInv(s.ns, k, Side(s, k), s.children) && KindFrom(lists, s, k)
    requires key in s.children && key in Step(s, a).children && Step(s, a).children[key] == s.children[key]
    requires OwnedBy(k, s.children[key]) && s.children[key].key.res == Module
    ensures HeldFrom(lists, k, Side(Step(s, a), k).store.crs, s.children[key])
  {
    var child, crs, crs' := s.children[key], Side(s, k).store.crs, Side(Step(s, a), k).store.crs;
    var i :| 0 <= i < |crs| && crs[i].finalizer && FromSome(lists, k, crs[i], child);
    assert child.owner == OwnerOf(k, crs[i]);
    if Dropped(crs', crs[i]) {
      DropLeavesNone(s, a, k, i, key);
    } else {
      var j :| 0 <= j < |crs'| && Holds(crs'[j], crs[i]);
      SameModule(lists, k, crs'[j], crs[i], child);
    }
  }

  lemma NewFrom(lists: set<seq<Node>>, s: System, a: Action, k: Kind, key: Key)
    requires CustodyInv(s) && KindFrom(lists, s, k)
    requires key in Step(s, a).children && (key in s.children ==> Step(s, a).children[key] != s.children[key])
    requires OwnedBy(k, Step(s, a).children[key])
    ensures HeldFrom(lists, k, Side(Step(s, a), k).store.crs, Step(s, a).children[key])
  {
    if a.Api? && HasCall(Side(s, a.k).pc) {
      var c := Side(s, a.k);
      ExecChildren(c, s.children, s.nodes, a.fault);
      assert c.pc.Filling? && Step(s, a).children[key] == c.pc.todo[0];
      assert MadeFor(s.ns, a.k, c.pc.cr, c.pc.todo[0]) && a.k == k;
      StepSide(s, a, k);
      ExecReads(c.store, s.children, s.nodes, NextCall(c.pc), a.fault);
      var h :| 0 <= h < |c.store.crs| && Holds(c.store.crs[h], c.pc.cr);
      SameModule(lists, k, c.store.crs[h], c.pc.cr, c.pc.todo[0]);
    }
  }

  lemma StepFrom(lists: set<seq<Node>>, s: System, a: Action, k: Kind)
    requires CustodyInv(s) && KindFrom(lists, s, k) && s.nodes in lists
    ensures KindFrom(lists, Step(s, a), k)
  {
    PcStepFrom(lists, s, a, k);
    var children := Step(s, a).children;
    forall key | key in children && OwnedBy(k, children[key])
      ensures HeldFrom(lists, k, Side(Step(s, a), k).store.crs, children[key])
    {
      if key in s.children && children[key] == s.children[key] {
        if children[key].key.res == Module { OldFrom(lists, s, a, k, key); }
      } else {
        NewFrom(lists, s, a, k, key);
      }
    }
  }

  // ----- runs -----

  /** A node list more to choose from takes nothing back. */
  lemma MoreLists(lists: set<seq<Node>>, more: set<seq<Node>>, s: System, k: Kind)
    requires KindFrom(lists, s, k) && lists <= more
    ensures KindFrom(more, s, k)
  {
    forall cr, child | FromSome(lists, k, cr, child) ensures FromSome(more, k, cr, child) {
      if child.key.res == Module {
        var nodes, version :| nodes in lists && MadeFrom(k, cr, nodes, version, child);
        assert nodes in more;
      }
    }
    forall versions | VersionsFrom(lists, versions) ensures VersionsFrom(more, versions) {
      var nodes :| nodes in lists && VersionsOf(nodes, versions);
      assert nodes in more;
    }
  }

  lemma {:induction false} RunFrom(s: System, run: seq<Action>)
    requires CustodyInv(s) && ProvInv({s.nodes}, s)
    ensures ProvInv(Lists(s, run), Run(s, run))
    decreases |run|
  {
    if run != [] {
      var r, a := run[..|run| - 1], run[|run| - 1];
      var s', lists := Run(s, r), Lists(s, r);
      RunFrom(s, r);
      RunCustody(s, r);
      StepFrom(lists, s', a, Efa);
      StepFrom(lists, s', a, Gdrdrv);
      MoreLists(lists, Lists(s, run), Step(s', a), Efa);
      MoreLists(lists, Lists(s, run), Step(s', a), Gdrdrv);
    }
  }

  /** Every node list of the run was that of some moment. */
  lemma {:induction false} ListsAreMoments(s: System, run: seq<Action>, nodes: seq<Node>) returns (n: nat)
    requires nodes in Lists(s, run)
    ensures n <= |run| && Run(s, run[..n]).nodes == nodes
    decreases |run|
  {
    if run == [] || nodes == Run(s, run).nodes {
      n := |run|;
      assert run[..n] == run;
    } else {
      n := ListsAreMoments(s, run[..|run| - 1], nodes);
      assert run[..|run| - 1][..n] == run[..n];
    }
  }

  // ----- the theorems -----

  /** No step of anyone changes a child that is there before and after. */
  lemma {:induction false} NeverUpdated(s: System, a: Action, key: Key)
    requires key in s.children && key in Step(s, a).children
    ensures Step(s, a).children[key] == s.children[key]
  {
    if a.Api? && HasCall(Side(s, a.k).pc) { ExecChildren(Side(s, a.k), s.children, s.nodes, a.fault); }
  }

  /** So a child that stays there over a run is the same at its end. */
  lemma {:induction false} RunNeverUpdates(s: System, run: seq<Action>, key: Key)
    requires forall n :: 0 <= n <= |run| ==> key in Run(s, run[..n]).children
    ensures key in s.children && key in Run(s, run).children && Run(s, run).children[key] == s.children[key]
    decreases |run|
  {
    assert run[..|run|] == run && run[..0] == [];
    if run != [] {
      var r := run[..|run| - 1];
      forall n | 0 <= n <= |r| ensures key in Run(s, r[..n]).children {
        assert r[..n] == run[..n];
      }
      RunNeverUpdates(s, r, key);
      NeverUpdated(Run(s, r), run[|run| - 1], key);
    }
  }

  /** In every state of every run a created Module is that of a listed resource with the finalizer, for
      one driver version: its selector is the one of that resource's spec, and it was made from the node
      list of one earlier moment. */
  lemma {:induction false} ModuleRemembersItsNodes(ns: string, nodes: seq<Node>, run: seq<Action>, key: Key)
    returns (i: nat, n: nat, version: string)
    requires key.res == Module
    requires var s := Run(Initial(ns, nodes), run); key in s.children && s.children[key].owner.Some?
    ensures var s := Run(Initial(ns, nodes), run);
            var k := s.children[key].owner.value.kind;
            && i < |Side(s, k).store.crs| && Side(s, k).store.crs[i].finalizer && n <= |run|
            && MadeFrom(k, Side(s, k).store.crs[i], Run(Initial(ns, nodes), run[..n]).nodes, version, s.children[key])
  {
    var s0 := Initial(ns, nodes);
    var s := Run(s0, run);
    RunFrom(s0, run);
    RunCustody(s0, run);
    var child := s.children[key];
    var k := child.owner.value.kind;
    var crs := Side(s, k).store.crs;
    assert OwnedBy(k, child) && child.key == key;
    assert HeldFrom(Lists(s0, run), k, crs, child);
    i :| 0 <= i < |crs| && crs[i].finalizer && FromSome(Lists(s0, run), k, crs[i], child);
    var listed;
    listed, version :| listed in Lists(s0, run) && MadeFrom(k, crs[i], listed, version, child);
    n := ListsAreMoments(s0, run, listed);
  }

  /** And so, in every state of every run: there is a moment of the run such that a created Module covers
      a release exactly when some node of that moment, of the Module's driver version, shows its kernel. */
  lemma {:induction false} ModuleCoversItsMoment(ns: string, nodes: seq<Node>, run: seq<Action>, key: Key)
    returns (n: nat, version: string)
    requires key.res == Module
    requires var s := Run(Initial(ns, nodes), run); key in s.children && s.children[key].owner.Some?
    ensures n <= |run|
    ensures var child := Run(Initial(ns, nodes), run).children[key];
            var k, moment := child.owner.value.kind, Run(Initial(ns, nodes), run[..n]).nodes;
            && child.body.Kmm?
            && (KernelLabelsPlain(moment) ==>
                  forall release :: Covering(child.body.mappings, release) <==> SomeContributes(k, moment, version, release))
  {
    var i;
    i, n, version := ModuleRemembersItsNodes(ns, nodes, run, key);
    var s := Run(Initial(ns, nodes), run);
    var child := s.children[key];
    var k, moment := child.owner.value.kind, Run(Initial(ns, nodes), run[..n]).nodes;
    if KernelLabelsPlain(moment) {
      forall release
        ensures Covering(child.body.mappings, release) <==> SomeContributes(k, moment, version, release)
      {
        ModuleCoversIff(k, Side(s, k).store.crs[i].name, moment, version, release);
      }
    }
  }
}
