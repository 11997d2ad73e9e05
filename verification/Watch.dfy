/** ListAndWatch of both plugins: it watches a directory, scans it, sends what it found, and scans
    again for each event whose name passes a filter, while the directory keeps changing. No update
    is lost, and exactly because the filter passes every name the list depends on. */
module Watch {
  import opened Options

  datatype Phase = Starting | Scanning(touched: set<string>) | Sending | Waiting | Ended

  /** The directory's paths, the undelivered events, where the plugin is, what its last finished scan
      saw, and the last list it sent. While a scan runs, `touched` is what changes meanwhile. */
  datatype State<R> = State(files: set<string>, queue: seq<string>, phase: Phase, seen: set<string>, sent: Option<R>)

  datatype Action =
    | Create(path: string) | Remove(path: string) | Touch(path: string)
    | StartWatch | FinishScan(snapshot: set<string>) | Send | Receive
    | Fail | Stop

  /** A scan reads the entries that were there all along, none that was absent all along, and any
      of those that came or went meanwhile. */
  ghost predicate ScanMaySee(touched: set<string>, files: set<string>, snapshot: set<string>) {
    forall x :: x !in touched ==> (x in snapshot <==> x in files)
  }

  /** A change of the directory; each queues its event once the watch is on. */
  function Changed<R>(s: State<R>, path: string, files: set<string>): State<R> {
    var queue := if s.phase.Starting? || s.phase.Ended? then s.queue else s.queue + [path];
    var phase := if s.phase.Scanning? then Scanning(s.phase.touched + {path}) else s.phase;
    s.(files := files, queue := queue, phase := phase)
  }

  ghost predicate Enabled<R>(s: State<R>, a: Action) {
    match a
    case Create(_) => true
    case Remove(_) => true
    case Touch(_) => true
    case StartWatch => s.phase.Starting?
    case FinishScan(snapshot) => s.phase.Scanning? && ScanMaySee(s.phase.touched, s.files, snapshot)
    case Send => s.phase.Sending?
    case Receive => s.phase.Waiting? && s.queue != []
    case Fail => s.phase.Starting? || s.phase.Sending?
    case Stop => s.phase.Waiting?
  }

  /** One step; an action that is not enabled changes nothing. */
  ghost function Step<R>(report: set<string> -> R, relevant: string -> bool, s: State<R>, a: Action): State<R> {
    if !Enabled(s, a) then s else
      match a
      case Create(path) => Changed(s, path, s.files + {path})
      case Remove(path) => Changed(s, path, s.files - {path})
      case Touch(path) => Changed(s, path, s.files)
      case StartWatch => s.(phase := Scanning({}))
      case FinishScan(snapshot) => s.(phase := Sending, seen := snapshot)
      case Send => s.(phase := Waiting, sent := Some(report(s.seen)))
      case Receive =>
        s.(queue := s.queue[1..], phase := if relevant(s.queue[0]) then Scanning({}) else Waiting)
      case Fail => s.(phase := Ended)
      case Stop => s.(phase := Ended)
  }

  ghost function Run<R>(report: set<string> -> R, relevant: string -> bool, s: State<R>, actions: seq<Action>): State<R> {
    if actions == [] then s
    else Step(report, relevant, Run(report, relevant, s, actions[..|actions| - 1]), actions[|actions| - 1])
  }

  ghost predicate Initial<R>(s: State<R>) {
    s.phase.Starting? && s.queue == [] && s.sent == None
  }

  /** Neither a scan nor an event that would start one is outstanding. */
  ghost predicate Settled<R>(relevant: string -> bool, s: State<R>) {
    s.phase.Waiting? && forall x :: x in s.queue ==> !relevant(x)
  }

  // ----- no update is lost -----

  /** What was last seen is right but for the names with an event pending. */
  ghost predicate SeenBut<R>(relevant: string -> bool, s: State<R>) {
    forall x :: relevant(x) && x !in s.queue ==> (x in s.seen <==> x in s.files)
  }

  ghost predicate WatchInv<R>(report: set<string> -> R, relevant: string -> bool, s: State<R>) {
    match s.phase
    case Starting => s.queue == []
    case Scanning(touched) => forall x :: x in touched ==> x in s.queue
    case Sending => SeenBut(relevant, s)
    case Waiting => SeenBut(relevant, s) && s.sent == Some(report(s.seen))
    case Ended => true
  }

  lemma StepKeeps<R>(report: set<string> -> R, relevant: string -> bool, s: State<R>, a: Action)
    requires WatchInv(report, relevant, s)
    ensures WatchInv(report, relevant, Step(report, relevant, s, a))
  {
    var t := Step(report, relevant, s, a);
    if Enabled(s, a) && a.Receive? && !relevant(s.queue[0]) {
      forall x | relevant(x) && x !in t.queue ensures x in t.seen <==> x in t.files {
        assert s.queue == [s.queue[0]] + t.queue;
      }
    }
  }

  lemma {:induction false} RunKeeps<R>(report: set<string> -> R, relevant: string -> bool, s: State<R>, actions: seq<Action>)
    requires Initial(s)
    ensures WatchInv(report, relevant, Run(report, relevant, s, actions))
  {
    if actions != [] {
      var before := actions[..|actions| - 1];
      RunKeeps(report, relevant, s, before);
      StepKeeps(report, relevant, Run(report, relevant, s, before), actions[|actions| - 1]);
    }
  }

  ghost predicate AgreeOn(relevant: string -> bool, a: set<string>, b: set<string>) {
    forall x :: relevant(x) ==> (x in a <==> x in b)
  }

  /** The list depends only on names that pass the filter. */
  ghost predicate DependsOn<R(!new)>(report: set<string> -> R, relevant: string -> bool) {
    forall a, b :: AgreeOn(relevant, a, b) ==> report(a) == report(b)
  }

  ghost predicate Current<R>(report: set<string> -> R, relevant: string -> bool, s: State<R>) {
    Settled(relevant, s) ==> s.sent == Some(report(s.files))
  }

  /** In every interleaving of directory changes, deliveries and plugin steps, whenever things are
      settled the last list sent is that of the present directory. */
  lemma NoLostUpdate<R(!new)>(report: set<string> -> R, relevant: string -> bool, s: State<R>, actions: seq<Action>)
    requires Initial(s) && DependsOn(report, relevant)
    ensures Current(report, relevant, Run(report, relevant, s, actions))
  {
    RunKeeps(report, relevant, s, actions);
    var t := Run(report, relevant, s, actions);
    if Settled(relevant, t) {
      assert AgreeOn(relevant, t.seen, t.files);
    }
  }

  // ----- and only because of the filter -----

  lemma RunSnoc<R>(report: set<string> -> R, relevant: string -> bool, s: State<R>, actions: seq<Action>, a: Action)
    ensures Run(report, relevant, s, actions + [a]) == Step(report, relevant, Run(report, relevant, s, actions), a)
  {
    assert (actions + [a])[..|actions|] == actions;
  }

  lemma {:induction false} RunConcat<R>(report: set<string> -> R, relevant: string -> bool, s: State<R>, first: seq<Action>, second: seq<Action>)
    ensures Run(report, relevant, s, first + second) == Run(report, relevant, Run(report, relevant, s, first), second)
  {
    if second == [] {
      assert first + second == first;
    } else {
      var last := |second| - 1;
      RunConcat(report, relevant, s, first, second[..last]);
      RunSnoc(report, relevant, s, first + second[..last], second[last]);
      assert first + second == first + second[..last] + [second[last]];
    }
  }

  lemma ChangeStep<R>(report: set<string> -> R, relevant: string -> bool, s: State<R>, x: string, target: set<string>)
    requires Settled(relevant, s) && !relevant(x)
    requires s.files == (if x in s.files then target + {x} else target - {x})
    ensures var u := Step(report, relevant, s, if x in target then Create(x) else Remove(x));
            Settled(relevant, u) && u.files == target && u.sent == s.sent
  {
    assert Changed(s, x, target).queue == s.queue + [x];
  }

  /** From a settled state, changing names that do not pass the filter leaves it settled and sends nothing. */
  lemma {:induction false} ChangeUnnoticed<R>(report: set<string> -> R, relevant: string -> bool, s: State<R>,
                                              target: set<string>, todo: set<string>)
    returns (actions: seq<Action>)
    requires Settled(relevant, s) && forall x :: x !in todo ==> (x in s.files <==> x in target)
    requires forall x :: x in todo ==> !relevant(x)
    ensures var u := Run(report, relevant, s, actions);
            Settled(relevant, u) && u.files == target && u.sent == s.sent
    decreases todo
  {
    if todo == {} {
      actions := [];
    } else {
      var x :| x in todo;
      var between := if x in s.files then target + {x} else target - {x};
      var before := ChangeUnnoticed(report, relevant, s, between, todo - {x});
      ChangeStep(report, relevant, Run(report, relevant, s, before), x, target);
      var a := if x in target then Create(x) else Remove(x);
      RunSnoc(report, relevant, s, before, a);
      actions := before + [a];
    }
  }

  /** If the list depends on a name the filter drops, some run settles on a list that is not current. */
  lemma StaleRun<R(!new)>(report: set<string> -> R, relevant: string -> bool, a: set<string>, b: set<string>)
    returns (actions: seq<Action>)
    requires AgreeOn(relevant, a, b) && report(a) != report(b)
    ensures !Current(report, relevant, Run(report, relevant, State(a, [], Starting, {}, None), actions))
  {
    var s: State<R> := State(a, [], Starting, {}, None);
    var start := [StartWatch, FinishScan(a), Send];
    var t := Run(report, relevant, s, start);
    assert t == State(a, [], Waiting, a, Some(report(a))) by {
      RunSnoc(report, relevant, s, [], StartWatch);
      RunSnoc(report, relevant, s, [StartWatch], FinishScan(a));
      RunSnoc(report, relevant, s, [StartWatch, FinishScan(a)], Send);
      assert [] + [StartWatch] == [StartWatch];
      assert [StartWatch] + [FinishScan(a)] == [StartWatch, FinishScan(a)];
      assert [StartWatch, FinishScan(a)] + [Send] == start;
    }
    var changes := ChangeUnnoticed(report, relevant, t, b, (a - b) + (b - a));
    RunConcat(report, relevant, s, start, changes);
    actions := start + changes;
  }

  /** The list is current in every settled state of every run exactly when it depends only on names
      that pass the filter. */
  lemma CurrentIff<R(!new)>(report: set<string> -> R, relevant: string -> bool)
    ensures DependsOn(report, relevant)
            <==> forall s: State<R>, actions :: Initial(s) ==> Current(report, relevant, Run(report, relevant, s, actions))
  {
    if DependsOn(report, relevant) {
      forall s: State<R>, actions | Initial(s) ensures Current(report, relevant, Run(report, relevant, s, actions)) {
        NoLostUpdate(report, relevant, s, actions);
      }
    } else {
      var a, b :| AgreeOn(relevant, a, b) && report(a) != report(b);
      var actions := StaleRun(report, relevant, a, b);
      var s: State<R> := State(a, [], Starting, {}, None);
      assert Initial(s) && !Current(report, relevant, Run(report, relevant, s, actions));
    }
  }

  // ----- catching up -----

  /** The steps the plugin takes when nothing fails and nobody stops it. */
  predicate Working(a: Action) {
    a.StartWatch? || a.FinishScan? || a.Send? || a.Receive?
  }

  function Left<R>(s: State<R>): nat {
    3 * |s.queue| + match s.phase
                    case Starting => 3
                    case Scanning(_) => 2
                    case Sending => 1
                    case Waiting => 0
                    case Ended => 0
  }

  lemma WorkShrinks<R>(report: set<string> -> R, relevant: string -> bool, s: State<R>, a: Action)
    requires Working(a) && Enabled(s, a)
    ensures Left(Step(report, relevant, s, a)) < Left(s) && Step(report, relevant, s, a).files == s.files
  {
  }

  ghost predicate AllEnabled<R>(report: set<string> -> R, relevant: string -> bool, s: State<R>, actions: seq<Action>) {
    forall i :: 0 <= i < |actions| ==> Working(actions[i]) && Enabled(Run(report, relevant, s, actions[..i]), actions[i])
  }

  lemma {:induction false} WorkEnds<R>(report: set<string> -> R, relevant: string -> bool, s: State<R>, actions: seq<Action>)
    requires AllEnabled(report, relevant, s, actions)
    ensures Left(Run(report, relevant, s, actions)) + |actions| <= Left(s)
    ensures Run(report, relevant, s, actions).files == s.files
  {
    if actions != [] {
      var last := |actions| - 1;
      forall i | 0 <= i < last
        ensures Working(actions[..last][i]) && Enabled(Run(report, relevant, s, actions[..last][..i]), actions[..last][i])
      {
        assert actions[..last][..i] == actions[..i];
      }
      WorkEnds(report, relevant, s, actions[..last]);
      WorkShrinks(report, relevant, Run(report, relevant, s, actions[..last]), actions[last]);
    }
  }

  /** Once the directory stops changing, a plugin that has not ended works at most three steps for
      each pending event and three more, and when it has nothing left to do the last list it sent is
      that of the directory. */
  lemma CatchesUp<R(!new)>(report: set<string> -> R, relevant: string -> bool, s: State<R>, history: seq<Action>, work: seq<Action>)
    requires Initial(s) && DependsOn(report, relevant)
    requires AllEnabled(report, relevant, Run(report, relevant, s, history), work)
    ensures var t := Run(report, relevant, s, history);
            var u := Run(report, relevant, t, work);
            && |work| <= 3 * |t.queue| + 3
            && (!u.phase.Ended? && (forall a :: Working(a) ==> !Enabled(u, a)) ==> u.sent == Some(report(t.files)))
  {
    var t := Run(report, relevant, s, history);
    var u := Run(report, relevant, t, work);
    WorkEnds(report, relevant, t, work);
    if !u.phase.Ended? && forall a :: Working(a) ==> !Enabled(u, a) {
      assert !Enabled(u, StartWatch) && !Enabled(u, FinishScan(u.files)) && !Enabled(u, Send) && !Enabled(u, Receive);
      assert u.phase.Waiting? && u.queue == [];
      RunConcat(report, relevant, s, history, work);
      NoLostUpdate(report, relevant, s, history + work);
    }
  }
}

/** The two plugins' scans and filters fit together. */
module WatchedLists {
  import opened Options
  import opened Api
  import opened DeviceIds
  import opened EfaPlugin
  import opened GdrdrvPlugin
  import opened Watch

  // ----- EFA -----

  /** IsDeviceName of the EFA plugin, on the full path an event carries. */
  function EfaFilter(dir: string): string -> bool {
    path => dir + "/" + UVERBS <= path
  }

  /** The filter passes exactly the names the scan reads. */
  lemma EfaFilterExact(dir: string, name: string)
    ensures EfaFilter(dir)(FileOf(dir, name)) <==> IsUverbs(name)
  {
    var head, path := dir + "/", FileOf(dir, name);
    assert path[|head|..] == name && path[..|head|] == head;
    if IsUverbs(name) {
      assert path[..|head + UVERBS|] == head + UVERBS;
    }
    if head + UVERBS <= path {
      assert path[|head|..|head + UVERBS|] == UVERBS;
    }
  }

  ghost predicate InDir(dir: string, path: string) {
    dir + "/" <= path
  }

  /** The uverbs entries among the paths. */
  ghost function Entries(dir: string, files: set<string>): set<string> {
    set path | path in files && InDir(dir, path) && IsUverbs(path[|dir| + 1..]) :: path[|dir| + 1..]
  }

  /** What the EFA scan reports: nothing if there is no entry or one without a number, else their ids. */
  ghost function EfaReport(host: string, entries: set<string>): Option<set<string>> {
    if entries == {} || exists e :: e in entries && !(IsUverbs(e) && EntryIndex(e).Some?) then None
    else Some(set e | e in entries :: GetDeviceId(Efa, host, EntryIndex(e).value))
  }

  ghost function EfaList(host: string, dir: string): set<string> -> Option<set<string>> {
    files => EfaReport(host, Entries(dir, files))
  }

  lemma EntryPath(dir: string, files: set<string>, e: string)
    ensures e in Entries(dir, files) <==> FileOf(dir, e) in files && IsUverbs(e)
  {
    if e in Entries(dir, files) {
      var path :| path in files && InDir(dir, path) && IsUverbs(path[|dir| + 1..]) && e == path[|dir| + 1..];
      assert path == dir + "/" + path[|dir| + 1..];
    }
    if FileOf(dir, e) in files && IsUverbs(e) {
      assert InDir(dir, FileOf(dir, e)) && FileOf(dir, e)[|dir| + 1..] == e;
    }
  }

  ghost predicate Lists(dir: string, names: seq<string>, files: set<string>) {
    forall path :: path in files <==> exists name :: name in names && path == FileOf(dir, name)
  }

  lemma EntriesAreRead(dir: string, names: seq<string>, files: set<string>, e: string)
    requires Lists(dir, names, files)
    ensures e in Entries(dir, files) <==> e in Uverbs(names)
  {
    EntryPath(dir, files, e);
    if FileOf(dir, e) in files {
      var name :| name in names && FileOf(dir, e) == FileOf(dir, name);
      SameFile(dir, e, name);
    }
  }

  lemma ReportIsIds(host: string, entries: set<string>, read: seq<string>)
    requires AllNumbered(read) && read != [] && forall e :: e in entries <==> e in read
    ensures EfaReport(host, entries) == Some(set id | id in Ids(host, read))
  {
    assert read[0] in entries;
    var ids := Ids(host, read);
    var shown := set e | e in entries :: GetDeviceId(Efa, host, EntryIndex(e).value);
    assert shown == (set id | id in ids) by {
      forall id | id in ids ensures id in shown {
        var i :| 0 <= i < |ids| && ids[i] == id;
        assert read[i] in entries;
      }
      forall id | id in shown ensures id in ids {
        var e :| e in entries && id == GetDeviceId(Efa, host, EntryIndex(e).value);
        var i :| 0 <= i < |read| && read[i] == e;
        assert ids[i] == id;
      }
    }
  }

  /** It is what GetDevices returns for a listing of the directory, as a set. */
  lemma EfaListIsGetDevices(host: string, dir: string, names: seq<string>, files: set<string>)
    requires Lists(dir, names, files)
    ensures EfaList(host, dir)(files)
            == if Uverbs(names) != [] && AllNumbered(Uverbs(names)) then Some(set id | id in Ids(host, Uverbs(names))) else None
  {
    var entries, read := Entries(dir, files), Uverbs(names);
    forall e ensures e in entries <==> e in read {
      EntriesAreRead(dir, names, files, e);
    }
    if read == [] {
      assert entries == {};
    } else if AllNumbered(read) {
      ReportIsIds(host, entries, read);
    }
  }

  lemma {:induction false} EfaDepends(host: string, dir: string)
    ensures DependsOn(EfaList(host, dir), EfaFilter(dir))
  {
    forall a, b | AgreeOn(EfaFilter(dir), a, b) ensures EfaList(host, dir)(a) == EfaList(host, dir)(b) {
      forall e ensures e in Entries(dir, a) <==> e in Entries(dir, b) {
        var path := FileOf(dir, e);
        EfaFilterExact(dir, e);
        EntryPath(dir, a, e);
        EntryPath(dir, b, e);
      }
      assert Entries(dir, a) == Entries(dir, b);
    }
  }

  /** The EFA plugin loses no update. */
  lemma EfaListIsCurrent(host: string, dir: string, s: State<Option<set<string>>>, actions: seq<Action>)
    requires Initial(s)
    ensures Current(EfaList(host, dir), EfaFilter(dir), Run(EfaList(host, dir), EfaFilter(dir), s, actions))
  {
    EfaDepends(host, dir);
    NoLostUpdate(EfaList(host, dir), EfaFilter(dir), s, actions);
  }

  // ----- gdrdrv -----

  /** IsDeviceName of the gdrdrv plugin. */
  function GdrdrvFilter(gdrdrvPath: string): string -> bool {
    path => path == gdrdrvPath
  }

  /** What the gdrdrv scan reports: the ids of all its users if the device file exists, else nothing. */
  ghost function GdrdrvList(host: string, gdrdrvPath: string): set<string> -> Option<set<string>> {
    files => if gdrdrvPath in files then Some(set id | id in UserIds(host)) else None
  }

  /** The list has the id of each of the 128 users while the device file exists, and just these. */
  lemma GdrdrvListIsUsers(host: string, gdrdrvPath: string, files: set<string>)
    ensures var list := GdrdrvList(host, gdrdrvPath)(files);
            && (list.Some? <==> gdrdrvPath in files)
            && (list.Some? ==>
                  && (forall i :: 0 <= i < 128 ==> GetDeviceId(Gdrdrv, host, i) in list.value)
                  && (forall id :: id in list.value ==> 0 <= GetIdxFromDeviceId(Gdrdrv, host, id) < 128))
  {
    UserIdsReadBack(host);
    forall i | 0 <= i < 128 ensures GetDeviceId(Gdrdrv, host, i) in UserIds(host) {
      assert UserIds(host)[i] == GetDeviceId(Gdrdrv, host, i);
    }
  }

  /** The gdrdrv plugin loses no update. */
  lemma GdrdrvListIsCurrent(host: string, gdrdrvPath: string, s: State<Option<set<string>>>, actions: seq<Action>)
    requires Initial(s)
    ensures var report, relevant := GdrdrvList(host, gdrdrvPath), GdrdrvFilter(gdrdrvPath);
            Current(report, relevant, Run(report, relevant, s, actions))
  {
    var report, relevant := GdrdrvList(host, gdrdrvPath), GdrdrvFilter(gdrdrvPath);
    forall a, b | AgreeOn(relevant, a, b) ensures report(a) == report(b) {
      assert relevant(gdrdrvPath);
    }
    NoLostUpdate(report, relevant, s, actions);
  }
}
