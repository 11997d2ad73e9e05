/** The condition of a custom resource as a state machine: which changes of it any step of any run can
    make, and who makes them. */
module Conditions {
  import opened Api
  import opened Protocol
  import opened Holding

  // ----- what the controller knows of the condition -----

  /** Only a resource that is being deleted is ever stored as Deleting. */
  predicate Marked(cr: Cr) {
    cr.condition == Deleting ==> cr.deleting
  }

  ghost predicate AllMarked(crs: seq<Cr>) {
    forall i :: 0 <= i < |crs| ==> Marked(crs[i])
  }

  /** Something is being built for it: it is live, and neither Error, Ignored nor Deleting. */
  predicate Buildable(cr: Cr) {
    !cr.deleting && cr.condition != Error && cr.condition != Ignored && cr.condition != Deleting
  }

  predicate PcMarked(pc: Pc) {
    match pc
    case Idle(_) => true
    case Listing(_) => true
    case Ignoring(cr) => true
    case Claiming(cr) => Marked(cr)
    case Starting(cr) => !cr.deleting && cr.condition == Unset
    case Retrying(cr) => !cr.deleting && cr.condition == Error
    case Retiring(cr) => cr.deleting && cr.condition != Deleting
    case Tearing(cr, _, _) => cr.deleting && cr.condition == Deleting
    case Releasing(cr) => cr.deleting && cr.condition == Deleting
    case Reporting(cr, condition, _) =>
      if cr.deleting then cr.condition == Deleting && condition == Error
      else Buildable(cr) && (condition == Error || condition == Ready || condition == Discovery)
    case _ => Buildable(pc.cr)
  }

  ghost predicate CondInv(c: Ctl) {
    SaneInv(c) && PcMarked(c.pc) && AllMarked(c.store.crs)
  }

  lemma BranchMarked(ns: string, k: Kind, cr: Cr)
    requires Marked(cr) && cr.condition != Ignored
    ensures PcMarked(Branch(ns, k, cr))
  {
  }

  lemma ListingMarked(ns: string, k: Kind, st: Store, name: string)
    requires Sane(st) && AllMarked(st.crs)
    ensures PcMarked(AfterList(ns, k, st.crs, name))
  {
    ElectFinds(st.crs, name, "");
    var i := Find(st.crs, name);
    if i < |st.crs| && st.crs[i].condition != Ignored { BranchMarked(ns, k, st.crs[i]); }
  }

  lemma ContinueMarked(ns: string, k: Kind, cr: Cr)
    requires Buildable(cr)
    ensures PcMarked(Build(ns, k, cr)) && PcMarked(Conclude(cr, Error)) && PcMarked(Conclude(cr, Discovery))
    ensures forall todo, rest :: PcMarked(Continue(ns, k, cr, todo, rest))
  {
  }

  lemma ReadMarked(ns: string, k: Kind, c: Ctl, reply: Reply)
    requires CondInv(c) && HasCall(c.pc) && (reply.Crs? ==> reply.items == c.store.crs)
    requires c.pc.Listing? || c.pc.Filling? || c.pc.Scanning? || c.pc.Tearing?
    ensures PcMarked(Resume(ns, k, c.pc, reply))
  {
    match c.pc {
      case Listing(name) => ListingMarked(ns, k, c.store, name);
      case Filling(cr, _, _, _) => ContinueMarked(ns, k, cr);
      case Scanning(cr) => ContinueMarked(ns, k, cr);
      case Tearing(_, _, _) =>
    }
  }

  lemma WrittenMarked(ns: string, k: Kind, pc: Pc, reply: Reply)
    requires PcMarked(pc) && HasCall(pc) && !pc.Listing? && !pc.Filling? && !pc.Scanning? && !pc.Tearing?
    requires reply.Written? && (pc.Claiming? || pc.Starting? || pc.Retrying? || pc.Retiring?) ==>
               && reply.cr.deleting == pc.cr.deleting && reply.cr.condition != Ignored
               && (if pc.Claiming? then reply.cr.condition == pc.cr.condition
                   else reply.cr.condition == if pc.Retiring? then Deleting else Creating)
    ensures PcMarked(Resume(ns, k, pc, reply))
  {
    if reply.Written? && (pc.Claiming? || pc.Starting? || pc.Retrying?) {
      BranchMarked(ns, k, reply.cr);
      if !reply.cr.deleting && reply.cr.condition == Creating { ContinueMarked(ns, k, reply.cr); }
    }
  }

  // ----- which changes there are -----

  /** The condition stays, or changes in one of these ways. */
  predicate Moves(before: Cr, after: Cr) {
    || after.condition == before.condition
    || (&& after.finalizer == before.finalizer && after.deleting == before.deleting
        && match after.condition
           case Unset => false
           case Ignored => true
           case Creating => before.finalizer && !before.deleting && (before.condition == Unset || before.condition == Error)
           case Ready => before.finalizer && Buildable(before)
           case Discovery => before.finalizer && Buildable(before)
           case Deleting => before.finalizer && before.deleting && before.condition != Ignored
           case Error => before.finalizer && if before.deleting then before.condition == Deleting else Buildable(before))
  }

  ghost predicate AllMove(crs: seq<Cr>, crs': seq<Cr>) {
    forall i, j :: 0 <= i < |crs| && 0 <= j < |crs'| && crs[i].name == crs'[j].name && crs[i].uid == crs'[j].uid
                   ==> Moves(crs[i], crs'[j])
  }

  lemma UnchangedMove(st: Store)
    requires Sane(st)
    ensures AllMove(st.crs, st.crs)
  {
  }

  lemma ReplaceMoves(st: Store, i: nat, cr: Cr)
    requires Sane(st) && i < |st.crs| && cr.name == st.crs[i].name && Moves(st.crs[i], cr)
    ensures AllMove(st.crs, st.crs[i := cr])
  {
  }

  lemma RemoveMoves(st: Store, i: nat)
    requires Sane(st) && i < |st.crs|
    ensures AllMove(st.crs, RemoveAt(st.crs, i))
    ensures AllMarked(st.crs) ==> AllMarked(RemoveAt(st.crs, i))
  {
    var crs := RemoveAt(st.crs, i);
    assert forall j :: 0 <= j < |crs| ==> crs[j] == st.crs[if j < i then j else j + 1];
  }

  lemma WriteMoves(st: Store, cr: Cr, condition: Condition, finalizer: bool)
    requires Sane(st) && AllMarked(st.crs) && Fresh(st, cr) && (condition == Deleting ==> cr.deleting)
    requires Moves(cr, cr.(condition := condition, finalizer := finalizer))
    ensures var st' := Write(st, cr, condition, finalizer).0; AllMove(st.crs, st'.crs) && AllMarked(st'.crs)
  {
    var i := WriteMeets(st, cr, condition, finalizer);
    var (st', reply) := Write(st, cr, condition, finalizer);
    UnchangedMove(st);
    if reply.Written? {
      if cr.deleting && !finalizer {
        RemoveMoves(st, i);
      } else {
        ReplaceMoves(st, i, reply.cr);
      }
    }
  }

  lemma WriteTurnMoves(c: Ctl, children: Children, nodes: seq<Node>, fault: Fault, cr: Cr, condition: Condition, finalizer: bool)
    requires CondInv(c) && HasCall(c.pc) && Fresh(c.store, cr) && (condition == Deleting ==> cr.deleting)
    requires NextCall(c.pc) == if finalizer == cr.finalizer then UpdateStatus(cr, condition) else UpdateFinalizer(cr, finalizer)
    requires finalizer == cr.finalizer || condition == cr.condition
    requires Moves(cr, cr.(condition := condition, finalizer := finalizer))
    ensures var e := Exec(c.store, children, nodes, NextCall(c.pc), fault);
            && AllMove(c.store.crs, e.store.crs) && AllMarked(e.store.crs)
            && (e.reply.Written? ==> e.reply.cr.condition == condition && e.reply.cr.deleting == cr.deleting)
  {
    UnchangedMove(c.store);
    WriteMoves(c.store, cr, condition, finalizer);
    WriteTurnSane(c, children, nodes, fault, cr, condition, finalizer);
    ExecWrites(c.store, children, nodes, NextCall(c.pc), cr, condition, finalizer, fault);
  }

  lemma {:induction false} WritingMoves(ns: string, k: Kind, c: Ctl, children: Children, nodes: seq<Node>, fault: Fault)
    requires CondInv(c) && HasCall(c.pc) && !c.pc.Listing? && !c.pc.Filling? && !c.pc.Scanning? && !c.pc.Tearing?
    ensures var e := Exec(c.store, children, nodes, NextCall(c.pc), fault);
            && AllMove(c.store.crs, e.store.crs) && AllMarked(e.store.crs) && PcMarked(Resume(ns, k, c.pc, e.reply))
  {
    match c.pc {
      case Ignoring(cr) => WriteTurnMoves(c, children, nodes, fault, cr, Ignored, cr.finalizer);
      case Claiming(cr) => WriteTurnMoves(c, children, nodes, fault, cr, cr.condition, true);
      case Starting(cr) => WriteTurnMoves(c, children, nodes, fault, cr, Creating, true);
      case Retrying(cr) => WriteTurnMoves(c, children, nodes, fault, cr, Creating, true);
      case Retiring(cr) => WriteTurnMoves(c, children, nodes, fault, cr, Deleting, true);
      case Releasing(cr) => WriteTurnMoves(c, children, nodes, fault, cr, cr.condition, false);
      case Reporting(cr, condition, _) => WriteTurnMoves(c, children, nodes, fault, cr, condition, true);
    }
    WrittenMarked(ns, k, c.pc, Exec(c.store, children, nodes, NextCall(c.pc), fault).reply);
  }

  lemma TurnMoves(ns: string, k: Kind, c: Ctl, children: Children, nodes: seq<Node>, fault: Fault)
    requires CondInv(c)
    ensures var c' := TakeTurn(ns, k, c, children, nodes, fault).ctl; CondInv(c') && AllMove(c.store.crs, c'.store.crs)
  {
    UnchangedMove(c.store);
    TurnSane(ns, k, c, children, nodes, fault);
    if HasCall(c.pc) {
      if c.pc.Listing? || c.pc.Filling? || c.pc.Scanning? || c.pc.Tearing? {
        ExecReads(c.store, children, nodes, NextCall(c.pc), fault);
        ReadMarked(ns, k, c, Exec(c.store, children, nodes, NextCall(c.pc), fault).reply);
      } else {
        WritingMoves(ns, k, c, children, nodes, fault);
      }
    }
  }

  lemma AddMoves(st: Store, name: string, spec: Spec, pos: nat)
    requires Sane(st) && AllMarked(st.crs)
    ensures var st' := AddCr(st, name, spec, pos); AllMove(st.crs, st'.crs) && AllMarked(st'.crs)
  {
    UnchangedMove(st);
    if AddCr(st, name, spec, pos) != st {
      InsertShifts(st.crs, pos, Cr(name, st.tick, st.tick, spec, Unset, false, false));
    }
  }

  lemma MarkMoves(st: Store, name: string)
    requires Sane(st) && AllMarked(st.crs)
    ensures var st' := MarkDeleted(st, name); AllMove(st.crs, st'.crs) && AllMarked(st'.crs)
  {
    var i := Find(st.crs, name);
    UnchangedMove(st);
    if i < |st.crs| && !st.crs[i].deleting {
      if st.crs[i].finalizer {
        ReplaceMoves(st, i, st.crs[i].(deleting := true, version := st.tick));
      } else {
        RemoveMoves(st, i);
      }
    }
  }

  lemma StepMoves(s: System, a: Action, k: Kind)
    requires CondInv(Side(s, k))
    ensures CondInv(Side(Step(s, a), k)) && AllMove(Side(s, k).store.crs, Side(Step(s, a), k).store.crs)
  {
    var c := Side(s, k);
    StepSide(s, a, k);
    StepSane(s, a, k);
    UnchangedMove(c.store);
    match a {
      case Api(k', fault) => TurnMoves(s.ns, k, c, s.children, s.nodes, fault);
      case CreateCr(k', name, spec, pos) => AddMoves(c.store, name, spec, pos);
      case RequestDelete(k', name) => MarkMoves(c.store, name);
      case Pick(k', version) => if c.pc.Ranging? { ContinueMarked(s.ns, k, c.pc.cr); }
      case _ =>
    }
  }

  lemma {:induction false} RunMarked(ns: string, nodes: seq<Node>, run: seq<Action>, k: Kind)
    ensures CondInv(Side(Run(Initial(ns, nodes), run), k))
    decreases |run|
  {
    if run != [] {
      RunMarked(ns, nodes, run[..|run| - 1], k);
      StepMoves(Run(Initial(ns, nodes), run[..|run| - 1]), run[|run| - 1], k);
    }
  }

  /** In every run, whatever fails and whoever interferes, a step changes the condition of a resource in
      no other way than these: to Ignored; to Creating, from nothing or from Error, while it is live; to
      Ready or DeviceDiscovery, or to Error, from none of Error, Ignored and Deleting, while it is live; to
      Deleting while it is being deleted, and from there to Error. All but the first need the finalizer. */
  lemma {:induction false} ConditionMoves(ns: string, nodes: seq<Node>, run: seq<Action>, a: Action, k: Kind)
    ensures var s := Run(Initial(ns, nodes), run); AllMove(Side(s, k).store.crs, Side(Step(s, a), k).store.crs)
  {
    RunMarked(ns, nodes, run, k);
    StepMoves(Run(Initial(ns, nodes), run), a, k);
  }

  /** And what the stored resource says agrees with what is being done: while a resource is torn down it is
      stored as Deleting or has changed since, and nothing is built for one that is stored as Error. */
  lemma {:induction false} WorkIsTold(ns: string, nodes: seq<Node>, run: seq<Action>, k: Kind, i: nat)
    requires var c := Side(Run(Initial(ns, nodes), run), k);
             && i < |c.store.crs| && (c.pc.Tearing? || c.pc.Releasing? || c.pc.Filling? || c.pc.Scanning? || c.pc.Ranging?)
             && c.store.crs[i].name == c.pc.cr.name && c.store.crs[i].version == c.pc.cr.version
    ensures var c := Side(Run(Initial(ns, nodes), run), k);
            if c.pc.Tearing? || c.pc.Releasing? then c.store.crs[i].deleting && c.store.crs[i].condition == Deleting
            else Buildable(c.store.crs[i])
  {
    RunMarked(ns, nodes, run, k);
  }
}
