/** At most one custom resource of a kind ever holds the finalizer, over every run whose new
    resources are listed behind the current holder; and what happens when one is not. */
module Ownership {
  import opened Api
  import opened Protocol
  import opened Holding

  // ----- the invariant -----

  /** What the order of the list adds: an Ignored resource has no finalizer, and everything listed
      before a resource with the finalizer is Ignored. */
  ghost predicate Aligned(crs: seq<Cr>) {
    && (forall i :: 0 <= i < |crs| && crs[i].condition == Ignored ==> !crs[i].finalizer)
    && (forall i, j :: 0 <= i < j < |crs| && crs[j].finalizer ==> crs[i].condition == Ignored)
  }

  ghost predicate Listed(st: Store) {
    Sane(st) && Aligned(st.crs)
  }

  /** Everything listed before the local copy is Ignored, as long as it is up to date. */
  ghost predicate Gated(crs: seq<Cr>, cr: Cr) {
    forall i, j :: 0 <= j < i < |crs| && crs[i] == cr ==> crs[j].condition == Ignored
  }

  /** What it adds to a local copy without the finalizer. */
  ghost predicate PcGated(crs: seq<Cr>, pc: Pc) {
    && (pc.Ignoring? ==> !pc.cr.finalizer)
    && (pc.Claiming? ==> Gated(crs, pc.cr))
  }

  ghost predicate OwnInv(c: Ctl) {
    SaneInv(c) && Aligned(c.store.crs) && PcGated(c.store.crs, c.pc)
  }

  // ----- what writes do -----

  /** A replaced resource keeps the list aligned if it was not the first to claim, or if it claims
      with everything before it Ignored. */
  lemma ReplaceAligned(crs: seq<Cr>, i: nat, s: Cr)
    requires Aligned(crs) && i < |crs| && (s.condition == Ignored ==> !s.finalizer)
    requires s.finalizer ==> forall j :: 0 <= j < i ==> crs[j].condition == Ignored
    requires s.condition != Ignored ==> forall j :: i < j < |crs| ==> !crs[j].finalizer
    ensures Aligned(crs[i := s])
  {
  }

  lemma RemoveAligned(crs: seq<Cr>, i: nat)
    requires Aligned(crs) && i < |crs|
    ensures Aligned(RemoveAt(crs, i))
  {
  }

  lemma WriteAligned(st: Store, cr: Cr, condition: Condition, finalizer: bool)
    requires Listed(st) && Fresh(st, cr) && cr.condition != Ignored
    requires condition == Ignored ==> !finalizer
    requires finalizer && !cr.finalizer ==> Gated(st.crs, cr)
    ensures Aligned(Write(st, cr, condition, finalizer).0.crs)
  {
    var i := WriteMeets(st, cr, condition, finalizer);
    var (st', reply) := Write(st, cr, condition, finalizer);
    if reply.Written? {
      if cr.deleting && !finalizer {
        RemoveAligned(st.crs, i);
      } else {
        ReplaceAligned(st.crs, i, reply.cr);
      }
    }
  }

  // ----- calls -----

  lemma {:induction false} TurnAligned(c: Ctl, children: Children, nodes: seq<Node>, fault: Fault)
    requires OwnInv(c) && HasCall(c.pc)
    ensures Aligned(Exec(c.store, children, nodes, NextCall(c.pc), fault).store.crs)
  {
    match NextCall(c.pc) {
      case UpdateStatus(cr, condition) =>
        ExecWrites(c.store, children, nodes, NextCall(c.pc), cr, condition, cr.finalizer, fault);
        WriteAligned(c.store, cr, condition, cr.finalizer);
      case UpdateFinalizer(cr, finalizer) =>
        ExecWrites(c.store, children, nodes, NextCall(c.pc), cr, cr.condition, finalizer, fault);
        WriteAligned(c.store, cr, cr.condition, finalizer);
      case _ => ExecReads(c.store, children, nodes, NextCall(c.pc), fault);
    }
  }

  /** A resource is ignored or claimed only when the list has just been read. */
  lemma GateFirst(ns: string, k: Kind, pc: Pc, reply: Reply)
    requires HasCall(pc)
    ensures Resume(ns, k, pc, reply).Ignoring? || Resume(ns, k, pc, reply).Claiming? ==> pc.Listing? && reply.Crs?
  {
  }

  lemma AfterListGated(ns: string, k: Kind, st: Store, name: string)
    requires Listed(st)
    ensures PcGated(st.crs, AfterList(ns, k, st.crs, name))
  {
    ElectFinds(st.crs, name, "");
    var i := Find(st.crs, name);
    if i < |st.crs| && st.crs[i].finalizer {
      assert forall j :: 0 <= j < i ==> st.crs[j].condition == Ignored;
    }
  }

  lemma TurnKeeps(ns: string, k: Kind, c: Ctl, children: Children, nodes: seq<Node>, fault: Fault)
    requires OwnInv(c)
    ensures OwnInv(TakeTurn(ns, k, c, children, nodes, fault).ctl)
  {
    TurnSane(ns, k, c, children, nodes, fault);
    if HasCall(c.pc) {
      var reply := Exec(c.store, children, nodes, NextCall(c.pc), fault).reply;
      TurnAligned(c, children, nodes, fault);
      GateFirst(ns, k, c.pc, reply);
      if c.pc.Listing? {
        ExecReads(c.store, children, nodes, NextCall(c.pc), fault);
        AfterListGated(ns, k, c.store, c.pc.name);
      }
    }
  }

  // ----- users -----

  lemma GatedSpares(crs: seq<Cr>, i: nat, cr: Cr)
    requires Gated(crs, cr) && i < |crs|
    ensures Gated(RemoveAt(crs, i), cr)
  {
    var fewer := RemoveAt(crs, i);
    forall m, j | 0 <= j < m < |fewer| && fewer[m] == cr ensures fewer[j].condition == Ignored {
      assert crs[if m < i then m else m + 1] == cr;
      assert crs[if j < i then j else j + 1] == fewer[j];
    }
  }

  lemma MarkKeeps(c: Ctl, name: string)
    requires OwnInv(c)
    ensures OwnInv(c.(store := MarkDeleted(c.store, name)))
  {
    var st, i := c.store, Find(c.store.crs, name);
    MarkSane(c, name);
    if i < |st.crs| && !st.crs[i].deleting {
      if st.crs[i].finalizer {
        ReplaceAligned(st.crs, i, st.crs[i].(deleting := true, version := st.tick));
      } else {
        RemoveAligned(st.crs, i);
        if c.pc.Claiming? { GatedSpares(st.crs, i, c.pc.cr); }
      }
    }
  }

  /** A new resource goes behind every holder of the finalizer, and behind the resource whose
      claim is under way. */
  ghost predicate InsertOk(c: Ctl, pos: nat) {
    forall i :: pos <= i < |c.store.crs|
                ==> !c.store.crs[i].finalizer && !(c.pc.Claiming? && c.store.crs[i] == c.pc.cr)
  }

  lemma InsertAligned(crs: seq<Cr>, cr: Cr, pos: nat)
    requires Aligned(crs) && pos <= |crs| && !cr.finalizer && forall i :: pos <= i < |crs| ==> !crs[i].finalizer
    ensures Aligned(InsertAt(crs, pos, cr))
  {
    InsertShifts(crs, pos, cr);
  }

  lemma InsertGated(crs: seq<Cr>, cr: Cr, pos: nat, claim: Cr)
    requires pos <= |crs| && Gated(crs, claim) && cr != claim && forall i :: pos <= i < |crs| ==> crs[i] != claim
    ensures Gated(InsertAt(crs, pos, cr), claim)
  {
    InsertShifts(crs, pos, cr);
  }

  lemma InsertKeeps(c: Ctl, cr: Cr, pos: nat)
    requires OwnInv(c) && pos <= |c.store.crs| && InsertOk(c, pos)
    requires cr.name != "" && Find(c.store.crs, cr.name) == |c.store.crs|
    requires cr.version == c.store.tick && cr.uid == c.store.tick && !cr.finalizer && !cr.deleting
    ensures OwnInv(c.(store := Store(InsertAt(c.store.crs, pos, cr), c.store.tick + 1)))
  {
    InsertSane(c, cr, pos);
    InsertAligned(c.store.crs, cr, pos);
    if c.pc.Claiming? { InsertGated(c.store.crs, cr, pos, c.pc.cr); }
  }

  lemma InsertBreaks(c: Ctl, cr: Cr, pos: nat)
    requires pos <= |c.store.crs| && !InsertOk(c, pos) && cr.condition != Ignored
    ensures !OwnInv(c.(store := Store(InsertAt(c.store.crs, pos, cr), c.store.tick + 1)))
  {
    var i :| pos <= i < |c.store.crs| && (c.store.crs[i].finalizer || (c.pc.Claiming? && c.store.crs[i] == c.pc.cr));
    InsertShifts(c.store.crs, pos, cr);
    var crs := InsertAt(c.store.crs, pos, cr);
    assert crs[i + 1] == c.store.crs[i] && crs[pos].condition != Ignored;
  }

  /** Creating a resource keeps the invariant exactly when it is listed behind the holder. */
  lemma InsertKeepsIff(c: Ctl, name: string, spec: Spec, pos: nat)
    requires OwnInv(c)
    requires name != "" && Find(c.store.crs, name) == |c.store.crs| && pos <= |c.store.crs|
    ensures OwnInv(c.(store := AddCr(c.store, name, spec, pos))) <==> InsertOk(c, pos)
  {
    var cr := Cr(name, c.store.tick, c.store.tick, spec, Unset, false, false);
    if InsertOk(c, pos) {
      InsertKeeps(c, cr, pos);
    } else {
      InsertBreaks(c, cr, pos);
    }
  }

  ghost predicate Allowed(s: System, a: Action) {
    a.CreateCr? ==> InsertOk(Side(s, a.k), a.pos)
  }

  lemma StepKeeps(s: System, a: Action, k: Kind)
    requires OwnInv(Side(s, k)) && Allowed(s, a)
    ensures OwnInv(Side(Step(s, a), k))
  {
    var c := Side(s, k);
    StepSide(s, a, k);
    match a {
      case Api(k', fault) => TurnKeeps(s.ns, k, c, s.children, s.nodes, fault);
      case CreateCr(k', name, spec, pos) =>
        if k' == k && name != "" && Find(c.store.crs, name) == |c.store.crs| && pos <= |c.store.crs| {
          InsertKeepsIff(c, name, spec, pos);
        }
      case RequestDelete(k', name) => MarkKeeps(c, name);
      case Pick(k', version) => ChooseSane(s.ns, k, c, version);
      case _ =>
    }
  }

  /** Every creation of the run is allowed where it happens. */
  ghost predicate Ordered(s: System, run: seq<Action>)
    decreases |run|
  {
    run == [] || (Ordered(s, run[..|run| - 1]) && Allowed(Run(s, run[..|run| - 1]), run[|run| - 1]))
  }

  lemma {:induction false} RunKeeps(s: System, run: seq<Action>, k: Kind)
    requires OwnInv(Side(s, k)) && Ordered(s, run)
    ensures OwnInv(Side(Run(s, run), k))
    decreases |run|
  {
    if run != [] {
      RunKeeps(s, run[..|run| - 1], k);
      StepKeeps(Run(s, run[..|run| - 1]), run[|run| - 1], k);
    }
  }

  lemma {:induction false} NoneCreatedIsOrdered(s: System, run: seq<Action>)
    requires forall i :: 0 <= i < |run| ==> !run[i].CreateCr?
    ensures Ordered(s, run)
    decreases |run|
  {
    if run != [] { NoneCreatedIsOrdered(s, run[..|run| - 1]); }
  }

  // ----- the theorems -----

  /** In every state of every run, whatever fails and whenever the operator crashes, at most one
      resource of a kind has the finalizer, everything listed before it is Ignored, and no
      Ignored resource has it. */
  lemma {:induction false} SingleOwner(ns: string, nodes: seq<Node>, run: seq<Action>, k: Kind, i: nat, j: nat)
    requires Ordered(Initial(ns, nodes), run)
    requires var crs := Side(Run(Initial(ns, nodes), run), k).store.crs;
             i < |crs| && j < |crs| && crs[j].finalizer
    ensures var crs := Side(Run(Initial(ns, nodes), run), k).store.crs;
            && (crs[i].finalizer ==> i == j)
            && (i < j ==> crs[i].condition == Ignored)
            && (crs[i].condition == Ignored ==> !crs[i].finalizer)
  {
    RunKeeps(Initial(ns, nodes), run, k);
  }

  /** Appending new resources is always allowed. */
  lemma {:induction false} AppendIsOrdered(s: System, run: seq<Action>)
    requires forall n :: 0 <= n < |run| && run[n].CreateCr?
                         ==> run[n].pos >= |Side(Run(s, run[..n]), run[n].k).store.crs|
    ensures Ordered(s, run)
    decreases |run|
  {
    if run != [] {
      var r := run[..|run| - 1];
      forall n | 0 <= n < |r| && r[n].CreateCr?
        ensures r[n].pos >= |Side(Run(s, r[..n]), r[n].k).store.crs|
      {
        assert r[..n] == run[..n];
      }
      AppendIsOrdered(s, r);
    }
  }
}
