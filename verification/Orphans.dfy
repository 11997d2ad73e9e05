/** What the list order is needed for: a resource created ahead of the holder of the finalizer
    makes the holder Ignored, and an Ignored resource is never cleaned up again. */
module Orphans {
  import opened Options
  import opened Api
  import opened Protocol
  import opened Holding
  import opened Ownership

  function Lookup(crs: seq<Cr>, name: string): Option<Cr> {
    var i := Find(crs, name);
    if i < |crs| then Some(crs[i]) else None
  }

  lemma LookupAt(crs: seq<Cr>, i: nat, name: string)
    requires i < |crs| && crs[i].name == name && forall j :: 0 <= j < i ==> crs[j].name != name
    ensures Lookup(crs, name) == Some(crs[i])
  {
  }

  lemma LookupSurvives(crs: seq<Cr>, name: string, i: nat, cr: Cr)
    requires Lookup(crs, name).Some? && cr.name != name
    ensures i < |crs| && crs[i].name != name ==>
              Lookup(crs[i := cr], name) == Lookup(RemoveAt(crs, i), name) == Lookup(crs, name)
    ensures i <= |crs| ==> Lookup(InsertAt(crs, i, cr), name) == Lookup(crs, name)
  {
    var f := Find(crs, name);
    if i < |crs| && crs[i].name != name {
      LookupAt(crs[i := cr], f, name);
      LookupAt(RemoveAt(crs, i), if f < i then f else f - 1, name);
    }
    if i <= |crs| {
      LookupAt(InsertAt(crs, i, cr), if f < i then f else f + 1, name);
    }
  }

  /** The resource is Ignored, has the finalizer, and the controller is not at work on it. */
  predicate Abandoned(c: Ctl, name: string, uid: nat) {
    && Lookup(c.store.crs, name).Some?
    && (var cr := Lookup(c.store.crs, name).value; cr.condition == Ignored && cr.finalizer && cr.uid == uid)
    && (c.pc.Idle? || c.pc.Listing? || c.pc.cr.name != name)
  }

  lemma WriteElsewhere(st: Store, cr: Cr, condition: Condition, finalizer: bool, name: string)
    requires Lookup(st.crs, name).Some? && cr.name != name
    ensures var (st', reply) := Write(st, cr, condition, finalizer);
            Lookup(st'.crs, name) == Lookup(st.crs, name) && (reply.Written? ==> reply.cr.name == cr.name)
  {
    var i := Find(st.crs, cr.name);
    if i < |st.crs| {
      LookupSurvives(st.crs, name, i, st.crs[i].(condition := condition, finalizer := finalizer, version := st.tick));
    }
  }

  lemma {:induction false} ElectedName(items: seq<Cr>, name: string, deployed: string)
    ensures Elect(items, name, deployed).found == Lookup(items, name)
  {
    if items != [] && items[0].name != name {
      ElectedName(items[1..], name, if items[0].condition != Ignored then items[0].name else deployed);
    }
  }

  /** The gate ends the reconcile of an Ignored resource. */
  lemma GateSkipsIgnored(ns: string, k: Kind, items: seq<Cr>, name: string)
    ensures var pc := AfterList(ns, k, items, name);
            pc.Idle? || (Lookup(items, name) == Some(pc.cr) && pc.cr.condition != Ignored && pc.cr.name == name)
  {
    ElectedName(items, name, "");
    ResumeSameCr(ns, k, Listing(name), Crs(items));
  }

  lemma ExecElsewhere(st: Store, children: Children, nodes: seq<Node>, call: Call, fault: Fault, name: string)
    requires Lookup(st.crs, name).Some?
    requires call.UpdateStatus? || call.UpdateFinalizer? ==> call.cr.name != name
    ensures var e := Exec(st, children, nodes, call, fault);
            && Lookup(e.store.crs, name) == Lookup(st.crs, name)
            && (e.reply.Written? ==> (call.UpdateStatus? || call.UpdateFinalizer?) && e.reply.cr.name == call.cr.name)
            && (e.reply.Crs? ==> e.reply.items == st.crs)
  {
    if call.UpdateStatus? {
      WriteElsewhere(st, call.cr, call.condition, call.cr.finalizer, name);
    } else if call.UpdateFinalizer? {
      WriteElsewhere(st, call.cr, call.cr.condition, call.finalizer, name);
    }
  }

  lemma TurnElsewhere(ns: string, k: Kind, c: Ctl, children: Children, nodes: seq<Node>, fault: Fault, name: string, uid: nat)
    requires Abandoned(c, name, uid)
    ensures Abandoned(TakeTurn(ns, k, c, children, nodes, fault).ctl, name, uid)
  {
    if HasCall(c.pc) {
      var call := NextCall(c.pc);
      var e := Exec(c.store, children, nodes, call, fault);
      ExecElsewhere(c.store, children, nodes, call, fault, name);
      ResumeSameCr(ns, k, c.pc, e.reply);
      if c.pc.Listing? && e.reply.Crs? {
        GateSkipsIgnored(ns, k, c.store.crs, c.pc.name);
      }
    }
  }

  lemma StepElsewhere(s: System, a: Action, k: Kind, name: string, uid: nat)
    requires Abandoned(Side(s, k), name, uid)
    ensures Abandoned(Side(Step(s, a), k), name, uid)
  {
    var c := Side(s, k);
    StepSide(s, a, k);
    match a {
      case Api(k', fault) => TurnElsewhere(s.ns, k, c, s.children, s.nodes, fault, name, uid);
      case CreateCr(k', n, spec, pos) =>
        if n != name {
          LookupSurvives(c.store.crs, name, pos, Cr(n, c.store.tick, c.store.tick, spec, Unset, false, false));
        }
      case RequestDelete(k', n) =>
        var i, f := Find(c.store.crs, n), Find(c.store.crs, name);
        if i < |c.store.crs| {
          var marked := c.store.crs[i].(deleting := true, version := c.store.tick);
          if n != name {
            LookupSurvives(c.store.crs, name, i, marked);
          } else {
            LookupAt(c.store.crs[i := marked], f, name);
          }
        }
      case _ =>
    }
  }

  /** Once Ignored with the finalizer, a resource stays so: in every later state of every run,
      also after its deletion was requested, it is still there, Ignored, with the finalizer. */
  lemma {:induction false} AbandonedForever(s: System, run: seq<Action>, k: Kind, name: string, uid: nat)
    requires Abandoned(Side(s, k), name, uid)
    ensures Abandoned(Side(Run(s, run), k), name, uid)
    decreases |run|
  {
    if run != [] {
      AbandonedForever(s, run[..|run| - 1], k, name, uid);
      StepElsewhere(Run(s, run[..|run| - 1]), run[|run| - 1], k, name, uid);
    }
  }

  // ----- Ignored for good -----

  /** The resource, as long as it is listed, is Ignored. */
  ghost predicate Standby(st: Store, name: string, uid: nat) {
    && uid < st.tick
    && forall i :: 0 <= i < |st.crs| && st.crs[i].name == name && st.crs[i].uid == uid ==> st.crs[i].condition == Ignored
  }

  lemma WriteStandsBy(st: Store, cr: Cr, condition: Condition, finalizer: bool, name: string, uid: nat)
    requires Sane(st) && Fresh(st, cr) && Standby(st, name, uid)
    requires condition == Ignored || cr.condition != Ignored
    ensures Standby(Write(st, cr, condition, finalizer).0, name, uid)
  {
    var i := WriteMeets(st, cr, condition, finalizer);
  }

  lemma {:induction false} TurnStandsBy(ns: string, k: Kind, c: Ctl, children: Children, nodes: seq<Node>, fault: Fault, name: string, uid: nat)
    requires SaneInv(c) && Standby(c.store, name, uid)
    ensures Standby(TakeTurn(ns, k, c, children, nodes, fault).ctl.store, name, uid)
  {
    if HasCall(c.pc) {
      match NextCall(c.pc) {
        case UpdateStatus(cr, condition) => WriteStandsBy(c.store, cr, condition, cr.finalizer, name, uid);
        case UpdateFinalizer(cr, finalizer) => WriteStandsBy(c.store, cr, cr.condition, finalizer, name, uid);
        case _ =>
      }
    }
  }

  lemma {:induction false} StepStandsBy(s: System, a: Action, k: Kind, name: string, uid: nat)
    requires SaneInv(Side(s, k)) && Standby(Side(s, k).store, name, uid)
    ensures Standby(Side(Step(s, a), k).store, name, uid)
  {
    StepSide(s, a, k);
    if a.Api? { TurnStandsBy(s.ns, k, Side(s, k), s.children, s.nodes, a.fault, name, uid); }
  }

  lemma {:induction false} RunStandsBy(s: System, run: seq<Action>, k: Kind, name: string, uid: nat)
    requires SaneInv(Side(s, k)) && Standby(Side(s, k).store, name, uid)
    ensures Standby(Side(Run(s, run), k).store, name, uid)
    decreases |run|
  {
    if run != [] {
      var r := run[..|run| - 1];
      RunStandsBy(s, r, k, name, uid);
      RunSane(s, r, k);
      StepStandsBy(Run(s, r), run[|run| - 1], k, name, uid);
    }
  }

  /** What the controller works on is not stored as Ignored. */
  ghost predicate WorksLive(st: Store, pc: Pc) {
    pc.Idle? || pc.Listing?
    || forall i :: 0 <= i < |st.crs| && st.crs[i].name == pc.cr.name && st.crs[i].uid == pc.cr.uid
                   ==> st.crs[i].condition != Ignored
  }

  lemma WriteWorks(st: Store, cr: Cr, condition: Condition, finalizer: bool)
    requires Sane(st) && Fresh(st, cr) && condition != Ignored
    ensures var (st', reply) := Write(st, cr, condition, finalizer);
            reply.Written? ==> forall i :: 0 <= i < |st'.crs| && st'.crs[i].name == reply.cr.name ==> st'.crs[i].condition != Ignored
  {
    var i := WriteMeets(st, cr, condition, finalizer);
  }

  /** A write that is not accepted ends the reconcile, and so does one that ignores or releases. */
  lemma WriteEnds(ns: string, k: Kind, pc: Pc, reply: Reply)
    requires HasCall(pc) && (NextCall(pc).UpdateStatus? || NextCall(pc).UpdateFinalizer?)
    ensures var next := Resume(ns, k, pc, reply);
            next.Idle? || (reply.Written? && !next.Listing? && next.cr == reply.cr && !pc.Ignoring? && !pc.Releasing?)
  {
  }

  lemma {:induction false} ReadWorks(ns: string, k: Kind, c: Ctl, reply: Reply)
    requires SaneInv(c) && WorksLive(c.store, c.pc) && HasCall(c.pc)
    requires c.pc.Listing? || c.pc.Filling? || c.pc.Scanning? || c.pc.Tearing?
    requires reply.Crs? ==> reply.items == c.store.crs
    requires !reply.Written?
    ensures WorksLive(c.store, Resume(ns, k, c.pc, reply))
  {
    ResumeSameCr(ns, k, c.pc, reply);
    if c.pc.Listing? && reply.Crs? {
      GateSkipsIgnored(ns, k, c.store.crs, c.pc.name);
    }
  }

  lemma {:induction false} TurnWorks(ns: string, k: Kind, c: Ctl, children: Children, nodes: seq<Node>, fault: Fault)
    requires SaneInv(c) && WorksLive(c.store, c.pc)
    ensures var c' := TakeTurn(ns, k, c, children, nodes, fault).ctl; WorksLive(c'.store, c'.pc)
  {
    if HasCall(c.pc) {
      var call := NextCall(c.pc);
      var e := Exec(c.store, children, nodes, call, fault);
      if call.UpdateStatus? || call.UpdateFinalizer? {
        WriteEnds(ns, k, c.pc, e.reply);
        if !Resume(ns, k, c.pc, e.reply).Idle? {
          var condition := if call.UpdateStatus? then call.condition else call.cr.condition;
          var finalizer := if call.UpdateStatus? then call.cr.finalizer else call.finalizer;
          ExecWrites(c.store, children, nodes, call, call.cr, condition, finalizer, fault);
          WriteWorks(c.store, call.cr, condition, finalizer);
        }
      } else {
        ExecReads(c.store, children, nodes, call, fault);
        ReadWorks(ns, k, c, e.reply);
      }
    }
  }

  lemma {:induction false} StepWorks(s: System, a: Action, k: Kind)
    requires SaneInv(Side(s, k)) && WorksLive(Side(s, k).store, Side(s, k).pc)
    ensures var c := Side(Step(s, a), k); WorksLive(c.store, c.pc)
  {
    var c := Side(s, k);
    StepSide(s, a, k);
    if a.Api? { TurnWorks(s.ns, k, c, s.children, s.nodes, a.fault); }
    if a.CreateCr? && a.k == k && AddCr(c.store, a.name, a.spec, a.pos) != c.store {
      InsertShifts(c.store.crs, a.pos, Cr(a.name, c.store.tick, c.store.tick, a.spec, Unset, false, false));
    }
  }

  lemma {:induction false} RunWorks(ns: string, nodes: seq<Node>, run: seq<Action>, k: Kind)
    ensures var c := Side(Run(Initial(ns, nodes), run), k); SaneInv(c) && WorksLive(c.store, c.pc)
    decreases |run|
  {
    RunSane(Initial(ns, nodes), run, k);
    if run != [] {
      RunWorks(ns, nodes, run[..|run| - 1], k);
      StepWorks(Run(Initial(ns, nodes), run[..|run| - 1]), run[|run| - 1], k);
    }
  }

  /** Ignored is for good: in every run, wherever new resources are listed, a resource that was Ignored
      at some moment is Ignored for as long as it is listed, with or without the finalizer and also once
      the active resource is gone; and nothing is built or torn down for it. No standby is ever taken
      up. */
  lemma {:induction false} IgnoredForever(ns: string, nodes: seq<Node>, run: seq<Action>, later: seq<Action>, k: Kind, i: nat)
    requires var crs := Side(Run(Initial(ns, nodes), run), k).store.crs; i < |crs| && crs[i].condition == Ignored
    ensures var cr, c := Side(Run(Initial(ns, nodes), run), k).store.crs[i], Side(Run(Initial(ns, nodes), run + later), k);
            && (forall j :: 0 <= j < |c.store.crs| && c.store.crs[j].name == cr.name && c.store.crs[j].uid == cr.uid
                            ==> c.store.crs[j].condition == Ignored)
            && (c.pc.Idle? || c.pc.Listing? || c.pc.Ignoring? || c.pc.Claiming?
                || c.pc.cr.name != cr.name || c.pc.cr.uid != cr.uid)
  {
    var s0 := Initial(ns, nodes);
    var s := Run(s0, run);
    var cr := Side(s, k).store.crs[i];
    RunSane(s0, run, k);
    RunStandsBy(s, later, k, cr.name, cr.uid);
    RunConcat(s0, run, later);
    RunWorks(ns, nodes, run + later, k);
  }

  // ----- how a holder becomes Ignored -----

  /** The holder is behind a resource that is not Ignored. */
  ghost predicate Outranked(st: Store, i: nat) {
    && i < |st.crs| && Find(st.crs, st.crs[i].name) == i && st.crs[i].finalizer && st.crs[i].condition != Ignored
    && (forall j :: 0 <= j < |st.crs| ==> st.crs[j].name != "")
    && exists j :: 0 <= j < i && st.crs[j].condition != Ignored
  }

  /** Listing shows the resource ahead, so the holder becomes Ignored. */
  lemma HolderLoses(ns: string, k: Kind, st: Store, i: nat, children: Children, nodes: seq<Node>)
    requires Outranked(st, i)
    ensures var holder := st.crs[i];
            && TakeTurn(ns, k, Ctl(st, Listing(holder.name)), children, nodes, Fine) == Turn(Ctl(st, Ignoring(holder)), children)
            && Abandoned(TakeTurn(ns, k, Ctl(st, Ignoring(holder)), children, nodes, Fine).ctl, holder.name, holder.uid)
  {
    var holder := st.crs[i];
    ElectFinds(st.crs, holder.name, "");
    var written := holder.(condition := Ignored, version := st.tick);
    LookupAt(st.crs[i := written], i, holder.name);
  }

  lemma IgnoreAnywhere(s: System, k: Kind, holder: Cr)
    requires Side(s, k).pc == Ignoring(holder)
    ensures Side(Step(s, Api(k, Fine)), k) == TakeTurn(s.ns, k, Side(s, k), s.children, s.nodes, Fine).ctl
  {
    StepSide(s, Api(k, Fine), k);
  }

  lemma ReconcileLoses(s: System, k: Kind, i: nat)
    requires Side(s, k).pc.Idle? && Outranked(Side(s, k).store, i)
    ensures var holder := Side(s, k).store.crs[i];
            Abandoned(Side(Step(Step(Step(s, Start(k, holder.name)), Api(k, Fine)), Api(k, Fine)), k), holder.name, holder.uid)
  {
    var st, holder := Side(s, k).store, Side(s, k).store.crs[i];
    var s2 := Step(s, Start(k, holder.name));
    StepSide(s, Start(k, holder.name), k);
    HolderLoses(s2.ns, k, st, i, s2.children, s2.nodes);
    StepSide(s2, Api(k, Fine), k);
    var s3 := Step(s2, Api(k, Fine));
    assert Side(s3, k) == Ctl(st, Ignoring(holder));
    IgnoreAnywhere(s3, k, holder);
    HolderLoses(s3.ns, k, st, i, s3.children, s3.nodes);
  }

  /** The holder moves up by one, behind a resource that is not Ignored. */
  lemma InsertedAhead(st: Store, i: nat, name: string, spec: Spec, pos: nat)
    requires Listed(st) && i < |st.crs| && pos <= i && name != "" && Find(st.crs, name) == |st.crs|
    ensures var crs := AddCr(st, name, spec, pos).crs;
            && |crs| == |st.crs| + 1 && crs[i + 1] == st.crs[i] && Find(crs, st.crs[i].name) == i + 1
            && crs[pos].condition == Unset && forall j :: 0 <= j < |crs| ==> crs[j].name != ""
  {
    var crs := AddCr(st, name, spec, pos).crs;
    assert forall j :: 0 <= j < pos ==> crs[j] == st.crs[j];
    assert forall j :: pos < j < |crs| ==> crs[j] == st.crs[j - 1];
    assert crs[pos].name == name;
  }

  lemma RunFour(s: System, a: Action, b: Action, c: Action, d: Action)
    ensures Run(s, [a, b, c, d]) == Step(Step(Step(Step(s, a), b), c), d)
  {
    RunAppend(s, [], a);
    assert [] + [a] == [a] && [a] + [b] == [a, b] && [a, b] + [c] == [a, b, c] && [a, b, c] + [d] == [a, b, c, d];
    RunAppend(s, [a], b);
    RunAppend(s, [a, b], c);
    RunAppend(s, [a, b, c], d);
  }

  /** Creating any resource ahead of the holder and reconciling the holder, with nothing going
      wrong, abandons the holder for good. */
  lemma EarlierCreationOrphans(s: System, k: Kind, i: nat, name: string, spec: Spec, pos: nat, later: seq<Action>)
    requires OwnInv(Side(s, k)) && Side(s, k).pc.Idle?
    requires var crs := Side(s, k).store.crs;
             && i < |crs| && crs[i].finalizer && pos <= i
             && name != "" && Find(crs, name) == |crs|
    ensures var holder := Side(s, k).store.crs[i];
            var run := [CreateCr(k, name, spec, pos), Start(k, holder.name), Api(k, Fine), Api(k, Fine)];
            Abandoned(Side(Run(Run(s, run), later), k), holder.name, holder.uid)
  {
    var c := Side(s, k);
    var holder, t := c.store.crs[i], Step(s, CreateCr(k, name, spec, pos));
    InsertedAhead(c.store, i, name, spec, pos);
    StepSide(s, CreateCr(k, name, spec, pos), k);
    assert Outranked(Side(t, k).store, i + 1);
    ReconcileLoses(t, k, i + 1);
    RunFour(s, CreateCr(k, name, spec, pos), Start(k, holder.name), Api(k, Fine), Api(k, Fine));
    AbandonedForever(Run(s, [CreateCr(k, name, spec, pos), Start(k, holder.name), Api(k, Fine), Api(k, Fine)]), later,
                     k, holder.name, holder.uid);
  }

  // ----- exactly which creations do harm -----

  function Restarted(k: Kind, name: string): seq<Action> {
    [Crash(k), Start(k, name), Api(k, Fine), Api(k, Fine)]
  }

  /** A restart of the operator and one reconcile abandon an outranked holder. */
  lemma OutrankedOrphans(s: System, k: Kind, i: nat)
    requires Outranked(Side(s, k).store, i)
    ensures var holder := Side(s, k).store.crs[i];
            Abandoned(Side(Run(s, Restarted(k, holder.name)), k), holder.name, holder.uid)
  {
    var holder := Side(s, k).store.crs[i];
    StepSide(s, Crash(k), k);
    ReconcileLoses(Step(s, Crash(k)), k, i);
    RunFour(s, Crash(k), Start(k, holder.name), Api(k, Fine), Api(k, Fine));
  }

  /** A claim under way goes through in spite of the newcomer. */
  lemma ClaimGoesThrough(st: Store, cr: Cr, i: nat)
    requires i < |st.crs| && st.crs[i] == cr && Find(st.crs, cr.name) == i && cr.condition != Ignored
    requires (forall j :: 0 <= j < |st.crs| ==> st.crs[j].name != "") && exists j :: 0 <= j < i && st.crs[j].condition != Ignored
    ensures var st' := Write(st, cr, cr.condition, true).0;
            Outranked(st', i) && st'.crs[i].name == cr.name && st'.crs[i].uid == cr.uid
  {
    var st' := Write(st, cr, cr.condition, true).0;
    assert forall j :: 0 <= j < |st.crs| ==> st'.crs[j].name == st.crs[j].name;
    var j :| 0 <= j < i && st.crs[j].condition != Ignored;
    assert st'.crs[j].condition != Ignored;
  }

  /** Some continuation in which every further creation is in order abandons a resource. */
  ghost predicate Abandons(s: System, k: Kind, more: seq<Action>, name: string, uid: nat) {
    Ordered(s, more) && Abandoned(Side(Run(s, more), k), name, uid)
  }

  lemma HolderAbandons(t: System, k: Kind, i: nat)
    requires Outranked(Side(t, k).store, i)
    ensures var holder := Side(t, k).store.crs[i]; Abandons(t, k, Restarted(k, holder.name), holder.name, holder.uid)
  {
    OutrankedOrphans(t, k, i);
    NoneCreatedIsOrdered(t, Restarted(k, Side(t, k).store.crs[i].name));
  }

  lemma ClaimAbandons(t: System, k: Kind, cr: Cr, i: nat)
    requires Side(t, k).pc == Claiming(cr) && i < |Side(t, k).store.crs| && Side(t, k).store.crs[i] == cr
    requires Find(Side(t, k).store.crs, cr.name) == i && cr.condition != Ignored
    requires forall j :: 0 <= j < |Side(t, k).store.crs| ==> Side(t, k).store.crs[j].name != ""
    requires exists j :: 0 <= j < i && Side(t, k).store.crs[j].condition != Ignored
    ensures Abandons(t, k, [Api(k, Fine)] + Restarted(k, cr.name), cr.name, cr.uid)
  {
    var u := Step(t, Api(k, Fine));
    ClaimGoesThrough(Side(t, k).store, cr, i);
    StepSide(t, Api(k, Fine), k);
    OutrankedOrphans(u, k, i);
    RunConcat(t, [Api(k, Fine)], Restarted(k, cr.name));
    RunAppend(t, [], Api(k, Fine));
    assert [] + [Api(k, Fine)] == [Api(k, Fine)];
    NoneCreatedIsOrdered(t, [Api(k, Fine)] + Restarted(k, cr.name));
  }

  lemma InsertAbandons(s: System, k: Kind, name: string, spec: Spec, pos: nat) returns (more: seq<Action>, holder: Cr)
    requires OwnInv(Side(s, k)) && !InsertOk(Side(s, k), pos)
    requires name != "" && Find(Side(s, k).store.crs, name) == |Side(s, k).store.crs| && pos <= |Side(s, k).store.crs|
    ensures Abandons(Step(s, CreateCr(k, name, spec, pos)), k, more, holder.name, holder.uid)
  {
    var c := Side(s, k);
    var i :| pos <= i < |c.store.crs| && (c.store.crs[i].finalizer || (c.pc.Claiming? && c.store.crs[i] == c.pc.cr));
    var t := Step(s, CreateCr(k, name, spec, pos));
    StepSide(s, CreateCr(k, name, spec, pos), k);
    holder := c.store.crs[i];
    InsertedAhead(c.store, i, name, spec, pos);
    if holder.finalizer {
      HolderAbandons(t, k, i + 1);
      more := Restarted(k, holder.name);
    } else {
      ClaimAbandons(t, k, holder, i + 1);
      more := [Api(k, Fine)] + Restarted(k, holder.name);
    }
  }

  lemma OrderAbandonsNone(s: System, k: Kind, more: seq<Action>, name: string, uid: nat)
    requires OwnInv(Side(s, k))
    ensures !Abandons(s, k, more, name, uid)
  {
    if Ordered(s, more) { RunKeeps(s, more, k); }
  }

  /** Where a new resource may be listed, in terms of what happens: at any moment of a sound history, a
      creation leads to an abandoned resource in some continuation exactly when it is listed ahead of a
      holder of the finalizer, or of the resource whose claim is under way. */
  lemma {:induction false} InsertAbandonsIff(s: System, k: Kind, name: string, spec: Spec, pos: nat)
    requires OwnInv(Side(s, k))
    requires name != "" && Find(Side(s, k).store.crs, name) == |Side(s, k).store.crs| && pos <= |Side(s, k).store.crs|
    ensures (exists more, n, uid :: Abandons(Step(s, CreateCr(k, name, spec, pos)), k, more, n, uid))
            <==> !InsertOk(Side(s, k), pos)
  {
    var t := Step(s, CreateCr(k, name, spec, pos));
    if InsertOk(Side(s, k), pos) {
      StepKeeps(s, CreateCr(k, name, spec, pos), k);
      forall more, n, uid ensures !Abandons(t, k, more, n, uid) { OrderAbandonsNone(t, k, more, n, uid); }
    } else {
      var more, holder := InsertAbandons(s, k, name, spec, pos);
    }
  }
}
