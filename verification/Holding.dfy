/** What holds of the custom resources of one kind and of their controller in every run, wherever new
    resources are listed: the local copy of the resource at work is what the server had at that
    version, it is not an Ignored one, and the resource it stands for is listed and has the finalizer. */
module Holding {
  import opened Options
  import opened Api
  import opened Protocol

  // ----- the invariant -----

  predicate Sound(s: Cr, tick: nat) {
    s.name != "" && s.version < tick && s.uid < tick && (s.deleting ==> s.finalizer)
  }

  ghost predicate Sane(st: Store) {
    && (forall i :: 0 <= i < |st.crs| ==> Sound(st.crs[i], st.tick))
    && (forall i, j :: 0 <= i < j < |st.crs| ==> st.crs[i].name != st.crs[j].name)
  }

  /** The local copy is what the server had at that version. */
  ghost predicate Fresh(st: Store, cr: Cr) {
    && Sound(cr, st.tick)
    && forall i :: 0 <= i < |st.crs| && st.crs[i].name == cr.name && st.crs[i].version == cr.version
                   ==> st.crs[i] == cr
  }

  /** `s` is the stored form of the local copy, and it holds the finalizer. */
  predicate Holds(s: Cr, cr: Cr) {
    s.name == cr.name && s.uid == cr.uid && s.spec == cr.spec && s.finalizer
  }

  ghost predicate Held(st: Store, cr: Cr) {
    && Fresh(st, cr) && cr.finalizer
    && exists i :: 0 <= i < |st.crs| && Holds(st.crs[i], cr)
  }

  /** The resource at work, once it has the finalizer. */
  ghost predicate AtWork(st: Store, cr: Cr) {
    Held(st, cr) && cr.condition != Ignored
  }

  ghost predicate PcSane(st: Store, pc: Pc) {
    match pc
    case Idle(_) => true
    case Listing(_) => true
    case Ignoring(cr) => Fresh(st, cr) && cr.condition != Ignored
    case Claiming(cr) => Fresh(st, cr) && cr.condition != Ignored && !cr.finalizer
    case Retiring(cr) => AtWork(st, cr) && cr.deleting
    case Tearing(cr, _, _) => AtWork(st, cr) && cr.deleting
    case Releasing(cr) => AtWork(st, cr) && cr.deleting
    case Reporting(cr, condition, _) => AtWork(st, cr) && condition != Ignored
    case _ => AtWork(st, pc.cr)
  }

  ghost predicate SaneInv(c: Ctl) {
    Sane(c.store) && PcSane(c.store, c.pc)
  }

  // ----- what writes do -----

  /** A versioned write fails without effect, or it meets the stored form of the local copy. */
  lemma WriteMeets(st: Store, cr: Cr, condition: Condition, finalizer: bool) returns (i: nat)
    requires Sane(st) && Fresh(st, cr)
    ensures var (st', reply) := Write(st, cr, condition, finalizer);
            if reply.Written? then
              && i < |st.crs| && st.crs[i] == cr && st'.tick == st.tick + 1
              && reply.cr == cr.(condition := condition, finalizer := finalizer, version := st.tick)
              && st'.crs == (if cr.deleting && !finalizer then RemoveAt(st.crs, i) else st.crs[i := reply.cr])
            else st' == st && reply.Failed?
  {
    i := Find(st.crs, cr.name);
  }

  lemma ReplaceSane(st: Store, i: nat, s: Cr)
    requires Sane(st) && i < |st.crs| && s.name == st.crs[i].name && Sound(s, st.tick + 1)
    ensures Sane(Store(st.crs[i := s], st.tick + 1))
  {
  }

  lemma RemoveSane(st: Store, i: nat)
    requires Sane(st) && i < |st.crs|
    ensures Sane(Store(RemoveAt(st.crs, i), st.tick + 1))
  {
  }

  /** A write keeps the store sane, and its result is the new local copy. */
  lemma WriteSane(st: Store, cr: Cr, condition: Condition, finalizer: bool)
    requires Sane(st) && Fresh(st, cr)
    ensures var (st', reply) := Write(st, cr, condition, finalizer);
            && Sane(st')
            && (reply.Written? ==> reply.cr.condition == condition && reply.cr.deleting == cr.deleting)
            && (reply.Written? && finalizer ==> Held(st', reply.cr))
  {
    var i := WriteMeets(st, cr, condition, finalizer);
    var (st', reply) := Write(st, cr, condition, finalizer);
    if reply.Written? {
      if cr.deleting && !finalizer {
        RemoveSane(st, i);
      } else {
        ReplaceSane(st, i, reply.cr);
        if finalizer { assert st'.crs[i] == reply.cr && Holds(st'.crs[i], reply.cr); }
      }
    }
  }

  // ----- the gate -----

  /** The loop over the listed resources finds the requested one at its position and names a
      resource before it exactly when one of those is not Ignored. */
  lemma {:induction false} ElectFinds(items: seq<Cr>, name: string, deployed: string)
    requires forall i :: 0 <= i < |items| ==> items[i].name != ""
    ensures var e := Elect(items, name, deployed);
            var i := Find(items, name);
            && (e.found == if i < |items| then Some(items[i]) else None)
            && (e.deployed == "" <==> deployed == "" && forall j :: 0 <= j < i ==> items[j].condition == Ignored)
  {
    if items != [] && items[0].name != name {
      var d := if items[0].condition != Ignored then items[0].name else deployed;
      ElectFinds(items[1..], name, d);
      var i := Find(items[1..], name);
      assert forall j :: 0 <= j < i ==> items[1..][j] == items[j + 1];
      assert forall j :: 1 <= j < i + 1 ==> items[j] == items[1..][j - 1];
    }
  }

  lemma FreshItem(st: Store, i: nat)
    requires Sane(st) && i < |st.crs|
    ensures Fresh(st, st.crs[i])
    ensures st.crs[i].finalizer ==> Held(st, st.crs[i])
  {
    if st.crs[i].finalizer { assert Holds(st.crs[i], st.crs[i]); }
  }

  lemma AfterListSane(ns: string, k: Kind, st: Store, name: string)
    requires Sane(st)
    ensures PcSane(st, AfterList(ns, k, st.crs, name))
  {
    ElectFinds(st.crs, name, "");
    var i := Find(st.crs, name);
    if i < |st.crs| { FreshItem(st, i); }
  }

  // ----- calls -----

  lemma HeldContinues(ns: string, k: Kind, st: Store, cr: Cr)
    requires AtWork(st, cr)
    ensures PcSane(st, Branch(ns, k, cr)) && PcSane(st, Build(ns, k, cr))
    ensures PcSane(st, Conclude(cr, Error)) && PcSane(st, Conclude(cr, Ready)) && PcSane(st, Conclude(cr, Discovery))
    ensures forall todo, rest :: PcSane(st, Continue(ns, k, cr, todo, rest))
  {
  }

  lemma ExecReads(st: Store, children: Children, nodes: seq<Node>, call: Call, fault: Fault)
    requires !call.UpdateStatus? && !call.UpdateFinalizer?
    ensures Exec(st, children, nodes, call, fault).store == st
    ensures var reply := Exec(st, children, nodes, call, fault).reply; reply.Crs? ==> reply.items == st.crs
  {
  }

  /** A call that writes no resource leaves the store alone and keeps the local copy. */
  lemma ReadSane(ns: string, k: Kind, c: Ctl, reply: Reply)
    requires SaneInv(c) && HasCall(c.pc)
    requires c.pc.Listing? || c.pc.Filling? || c.pc.Scanning? || c.pc.Tearing?
    requires reply.Crs? ==> reply.items == c.store.crs
    ensures PcSane(c.store, Resume(ns, k, c.pc, reply))
  {
    match c.pc {
      case Listing(name) => AfterListSane(ns, k, c.store, name);
      case Filling(cr, _, _, _) => HeldContinues(ns, k, c.store, cr);
      case Scanning(cr) => HeldContinues(ns, k, c.store, cr);
      case Tearing(cr, _, _) =>
    }
  }

  lemma ExecWrites(st: Store, children: Children, nodes: seq<Node>, call: Call, cr: Cr, condition: Condition,
                   finalizer: bool, fault: Fault)
    requires call == if finalizer == cr.finalizer then UpdateStatus(cr, condition) else UpdateFinalizer(cr, finalizer)
    requires finalizer == cr.finalizer || condition == cr.condition
    ensures var e := Exec(st, children, nodes, call, fault);
            var (st', reply) := Write(st, cr, condition, finalizer);
            && (e.store == st || e.store == st')
            && (!e.reply.Failed? ==> e.reply == reply && e.store == st')
  {
  }

  lemma WriteTurnSane(c: Ctl, children: Children, nodes: seq<Node>, fault: Fault,
                      cr: Cr, condition: Condition, finalizer: bool)
    requires SaneInv(c) && HasCall(c.pc) && Fresh(c.store, cr)
    requires NextCall(c.pc) == if finalizer == cr.finalizer then UpdateStatus(cr, condition) else UpdateFinalizer(cr, finalizer)
    requires finalizer == cr.finalizer || condition == cr.condition
    ensures var e := Exec(c.store, children, nodes, NextCall(c.pc), fault);
            && Sane(e.store)
            && (e.reply.Written? ==> e.reply.cr.condition == condition && e.reply.cr.deleting == cr.deleting)
            && (e.reply.Written? && finalizer ==> Held(e.store, e.reply.cr))
  {
    WriteSane(c.store, cr, condition, finalizer);
    ExecWrites(c.store, children, nodes, NextCall(c.pc), cr, condition, finalizer, fault);
  }

  lemma WrittenContinues(ns: string, k: Kind, st: Store, pc: Pc, reply: Reply)
    requires !(pc.Listing? || pc.Filling? || pc.Scanning? || pc.Tearing?) && HasCall(pc)
    requires reply.Written? && !pc.Ignoring? && !pc.Releasing? ==> AtWork(st, reply.cr)
    requires reply.Written? && pc.Retiring? ==> reply.cr.deleting
    ensures PcSane(st, Resume(ns, k, pc, reply))
  {
    if reply.Written? && !pc.Ignoring? && !pc.Releasing? { HeldContinues(ns, k, st, reply.cr); }
  }

  /** A call that writes a resource keeps the store sane and renews the local copy. */
  lemma {:induction false} WritingSane(c: Ctl, children: Children, nodes: seq<Node>, fault: Fault)
    requires SaneInv(c) && HasCall(c.pc) && !c.pc.Listing? && !c.pc.Filling? && !c.pc.Scanning? && !c.pc.Tearing?
    ensures var e := Exec(c.store, children, nodes, NextCall(c.pc), fault);
            && Sane(e.store)
            && (e.reply.Written? && !c.pc.Ignoring? && !c.pc.Releasing? ==> AtWork(e.store, e.reply.cr))
            && (e.reply.Written? && c.pc.Retiring? ==> e.reply.cr.deleting)
  {
    match c.pc {
      case Ignoring(cr) => WriteTurnSane(c, children, nodes, fault, cr, Ignored, cr.finalizer);
      case Claiming(cr) => WriteTurnSane(c, children, nodes, fault, cr, cr.condition, true);
      case Starting(cr) => WriteTurnSane(c, children, nodes, fault, cr, Creating, true);
      case Retrying(cr) => WriteTurnSane(c, children, nodes, fault, cr, Creating, true);
      case Retiring(cr) => WriteTurnSane(c, children, nodes, fault, cr, Deleting, true);
      case Releasing(cr) => WriteTurnSane(c, children, nodes, fault, cr, cr.condition, false);
      case Reporting(cr, condition, _) => WriteTurnSane(c, children, nodes, fault, cr, condition, true);
    }
  }

  lemma TurnSane(ns: string, k: Kind, c: Ctl, children: Children, nodes: seq<Node>, fault: Fault)
    requires SaneInv(c)
    ensures SaneInv(TakeTurn(ns, k, c, children, nodes, fault).ctl)
  {
    if HasCall(c.pc) {
      var e := Exec(c.store, children, nodes, NextCall(c.pc), fault);
      if c.pc.Listing? || c.pc.Filling? || c.pc.Scanning? || c.pc.Tearing? {
        ExecReads(c.store, children, nodes, NextCall(c.pc), fault);
        ReadSane(ns, k, c, e.reply);
      } else {
        WritingSane(c, children, nodes, fault);
        WrittenContinues(ns, k, e.store, c.pc, e.reply);
      }
    }
  }

  // ----- users -----

  /** The local copies survive any change that keeps the holder and gives changed resources a
      new version. */
  lemma PcSurvives(st: Store, st': Store, pc: Pc)
    requires PcSane(st, pc) && st.tick <= st'.tick
    requires forall i :: 0 <= i < |st'.crs| ==> st'.crs[i].version >= st.tick || st'.crs[i] in st.crs
    requires forall cr :: Held(st, cr) ==> exists i :: 0 <= i < |st'.crs| && Holds(st'.crs[i], cr)
    ensures PcSane(st', pc)
  {
  }

  lemma MarkedStays(st: Store, i: nat)
    requires Sane(st) && i < |st.crs| && st.crs[i].finalizer
    ensures var st' := Store(st.crs[i := st.crs[i].(deleting := true, version := st.tick)], st.tick + 1);
            Sane(st') && forall cr :: Held(st, cr) ==> exists m :: 0 <= m < |st'.crs| && Holds(st'.crs[m], cr)
  {
    var st' := Store(st.crs[i := st.crs[i].(deleting := true, version := st.tick)], st.tick + 1);
    ReplaceSane(st, i, st'.crs[i]);
    forall cr | Held(st, cr) ensures exists m :: 0 <= m < |st'.crs| && Holds(st'.crs[m], cr) {
      var m :| 0 <= m < |st.crs| && Holds(st.crs[m], cr);
      assert Holds(st'.crs[m], cr);
    }
  }

  lemma RemovalSpares(st: Store, i: nat)
    requires Sane(st) && i < |st.crs| && !st.crs[i].finalizer
    ensures var crs := RemoveAt(st.crs, i);
            && (forall cr :: Held(st, cr) ==> exists m :: 0 <= m < |crs| && Holds(crs[m], cr))
            && (forall m :: 0 <= m < |crs| ==> crs[m] in st.crs)
  {
    var crs := RemoveAt(st.crs, i);
    forall cr | Held(st, cr) ensures exists m :: 0 <= m < |crs| && Holds(crs[m], cr) {
      var m :| 0 <= m < |st.crs| && Holds(st.crs[m], cr);
      assert Holds(crs[if m < i then m else m - 1], cr);
    }
  }

  lemma MarkSane(c: Ctl, name: string)
    requires SaneInv(c)
    ensures SaneInv(c.(store := MarkDeleted(c.store, name)))
  {
    var st, i := c.store, Find(c.store.crs, name);
    if i < |st.crs| && !st.crs[i].deleting {
      if st.crs[i].finalizer {
        MarkedStays(st, i);
      } else {
        RemoveSane(st, i);
        RemovalSpares(st, i);
      }
      PcSurvives(st, MarkDeleted(st, name), c.pc);
    }
  }

  lemma InsertShifts(crs: seq<Cr>, pos: nat, cr: Cr)
    requires pos <= |crs|
    ensures var more := InsertAt(crs, pos, cr);
            && |more| == |crs| + 1 && more[pos] == cr
            && (forall i :: 0 <= i < pos ==> more[i] == crs[i])
            && (forall i :: pos < i < |more| ==> more[i] == crs[i - 1])
  {
  }

  lemma InsertHeld(st: Store, cr: Cr, pos: nat, held: Cr)
    requires pos <= |st.crs| && Held(st, held)
    ensures var crs := InsertAt(st.crs, pos, cr); exists m :: 0 <= m < |crs| && Holds(crs[m], held)
  {
    var crs := InsertAt(st.crs, pos, cr);
    InsertShifts(st.crs, pos, cr);
    var m :| 0 <= m < |st.crs| && Holds(st.crs[m], held);
    assert Holds(crs[if m < pos then m else m + 1], held);
  }

  lemma InsertSane(c: Ctl, cr: Cr, pos: nat)
    requires SaneInv(c) && pos <= |c.store.crs|
    requires cr.name != "" && Find(c.store.crs, cr.name) == |c.store.crs|
    requires cr.version == c.store.tick && cr.uid == c.store.tick && !cr.deleting
    ensures SaneInv(c.(store := Store(InsertAt(c.store.crs, pos, cr), c.store.tick + 1)))
  {
    var st := c.store;
    var st' := Store(InsertAt(st.crs, pos, cr), st.tick + 1);
    InsertShifts(st.crs, pos, cr);
    forall held | Held(st, held) ensures exists m :: 0 <= m < |st'.crs| && Holds(st'.crs[m], held) {
      InsertHeld(st, cr, pos, held);
    }
    PcSurvives(st, st', c.pc);
  }

  lemma AddSane(c: Ctl, name: string, spec: Spec, pos: nat)
    requires SaneInv(c)
    ensures SaneInv(c.(store := AddCr(c.store, name, spec, pos)))
  {
    if AddCr(c.store, name, spec, pos) != c.store {
      InsertSane(c, Cr(name, c.store.tick, c.store.tick, spec, Unset, false, false), pos);
    }
  }

  lemma ChooseSane(ns: string, k: Kind, c: Ctl, version: string)
    requires SaneInv(c)
    ensures SaneInv(c.(pc := Choose(ns, k, c.pc, version)))
  {
    if c.pc.Ranging? { HeldContinues(ns, k, c.store, c.pc.cr); }
  }

  // ----- runs -----

  /** Only six kinds of action touch the resources of a kind or its controller. */
  lemma StepSide(s: System, a: Action, k: Kind)
    ensures var c, c' := Side(s, k), Side(Step(s, a), k);
            match a
            case Api(k', fault) => c' == if k' == k then TakeTurn(s.ns, k, c, s.children, s.nodes, fault).ctl else c
            case CreateCr(k', name, spec, pos) => c' == if k' == k then c.(store := AddCr(c.store, name, spec, pos)) else c
            case RequestDelete(k', name) => c' == if k' == k then c.(store := MarkDeleted(c.store, name)) else c
            case Pick(k', version) => c' == if k' == k then c.(pc := Choose(s.ns, k, c.pc, version)) else c
            case Start(k', name) => c' == if k' == k && c.pc.Idle? then c.(pc := Listing(name)) else c
            case Crash(k') => c' == if k' == k then c.(pc := Idle(Nothing)) else c
            case _ => c' == c
  {
  }

  lemma StepSane(s: System, a: Action, k: Kind)
    requires SaneInv(Side(s, k))
    ensures SaneInv(Side(Step(s, a), k))
  {
    var c := Side(s, k);
    StepSide(s, a, k);
    match a {
      case Api(k', fault) => TurnSane(s.ns, k, c, s.children, s.nodes, fault);
      case CreateCr(k', name, spec, pos) => AddSane(c, name, spec, pos);
      case RequestDelete(k', name) => MarkSane(c, name);
      case Pick(k', version) => ChooseSane(s.ns, k, c, version);
      case _ =>
    }
  }

  lemma {:induction false} RunSane(s: System, run: seq<Action>, k: Kind)
    requires SaneInv(Side(s, k))
    ensures SaneInv(Side(Run(s, run), k))
    decreases |run|
  {
    if run != [] {
      RunSane(s, run[..|run| - 1], k);
      StepSane(Run(s, run[..|run| - 1]), run[|run| - 1], k);
    }
  }
}
