/** The EFA device plugin: which devices it advertises to the kubelet, and which device files it
    hands to the containers that ask for them. */
module EfaPlugin {
  import opened Options
  import opened Strings
  import opened Api
  import opened DeviceIds

  const UVERBS := "uverbs"

  predicate IsUverbs(name: string) {
    UVERBS <= name
  }

  function EntryIndex(name: string): Option<int>
    requires IsUverbs(name)
  {
    ParseInt32(name[|UVERBS|..])
  }

  /** The entries the scan looks at, in directory order. */
  function Uverbs(names: seq<string>): (entries: seq<string>)
    ensures forall e :: e in entries <==> e in names && IsUverbs(e)
  {
    if names == [] then []
    else
      var last := |names| - 1;
      assert names == names[..last] + [names[last]];
      Uverbs(names[..last]) + if IsUverbs(names[last]) then [names[last]] else []
  }

  predicate AllNumbered(entries: seq<string>) {
    forall e :: e in entries ==> IsUverbs(e) && EntryIndex(e).Some?
  }

  function Ids(host: string, entries: seq<string>): (ids: seq<string>)
    requires AllNumbered(entries)
    ensures |ids| == |entries|
  {
    seq(|entries|, i requires 0 <= i < |entries| => GetDeviceId(Efa, host, EntryIndex(entries[i]).value))
  }

  datatype DeviceSpec = DeviceSpec(containerPath: string, hostPath: string, permissions: string)

  datatype AllocateError = MalformedId(id: string) | NoDeviceFile(path: string)

  datatype Verdict = Granted(device: DeviceSpec) | Rejected(error: AllocateError)

  function Device(path: string): DeviceSpec {
    DeviceSpec(path, path, "rw")
  }

  function FileOf(dir: string, name: string): string {
    dir + "/" + name
  }

  /** What one requested id gets, given the files that exist. */
  function Judge(host: string, dir: string, present: set<string>, id: string): Verdict {
    var idx := GetIdxFromDeviceId(Efa, host, id);
    var path := FileOf(dir, UVERBS + Print(idx));
    if idx == -1 then Rejected(MalformedId(id))
    else if path !in present then Rejected(NoDeviceFile(path))
    else Granted(Device(path))
  }

  /** The device file of an index. */
  function UverbsPath(dir: string, idx: int): string {
    dir + "/uverbs" + Print(idx)
  }

  /** The id reads as an index of this host's, and the device file of that index is there. */
  predicate Servable(host: string, dir: string, present: set<string>, id: string) {
    var idx := GetIdxFromDeviceId(Efa, host, id);
    idx != -1 && UverbsPath(dir, idx) in present
  }

  /** Any id, whatever exists: it is granted exactly when it reads as an index and the file of that index
      is there, and what is granted is that file; else the error says which of the two is missing. */
  lemma GrantedIff(host: string, dir: string, present: set<string>, id: string)
    ensures var verdict, path := Judge(host, dir, present, id), UverbsPath(dir, GetIdxFromDeviceId(Efa, host, id));
            && (verdict.Granted? <==> Servable(host, dir, present, id))
            && (verdict.Granted? ==> verdict.device == DeviceSpec(path, path, "rw"))
            && (verdict.Rejected? ==>
                  verdict.error == if GetIdxFromDeviceId(Efa, host, id) == -1 then MalformedId(id) else NoDeviceFile(path))
  {
    var name := Print(GetIdxFromDeviceId(Efa, host, id));
    assert dir + "/" + (UVERBS + name) == dir + ("/" + UVERBS) + name;
    assert "/" + UVERBS == "/uverbs";
  }

  function Judgement(host: string, dir: string, present: set<string>): string -> Verdict {
    id => Judge(host, dir, present, id)
  }

  function Devices(judge: string -> Verdict, ids: seq<string>): seq<DeviceSpec> {
    if ids == [] then []
    else
      var last := |ids| - 1;
      var verdict := judge(ids[last]);
      Devices(judge, ids[..last]) + if verdict.Granted? then [verdict.device] else []
  }

  /** The devices of each container that gets any. */
  function Responses(judge: string -> Verdict, requests: seq<seq<string>>): seq<seq<DeviceSpec>> {
    if requests == [] then []
    else
      var last := |requests| - 1;
      var devices := Devices(judge, requests[last]);
      Responses(judge, requests[..last]) + if devices != [] then [devices] else []
  }

  /** The error the last rejected id of a container leaves, or the one from before. */
  function ErrorAfter(judge: string -> Verdict, ids: seq<string>, before: Option<AllocateError>): Option<AllocateError> {
    if ids == [] then before
    else
      var last := |ids| - 1;
      var verdict := judge(ids[last]);
      if verdict.Rejected? then Some(verdict.error) else ErrorAfter(judge, ids[..last], before)
  }

  function LastError(judge: string -> Verdict, requests: seq<seq<string>>): Option<AllocateError> {
    if requests == [] then None
    else
      var last := |requests| - 1;
      ErrorAfter(judge, requests[last], LastError(judge, requests[..last]))
  }

  lemma DevicesNext(judge: string -> Verdict, ids: seq<string>, j: nat, before: Option<AllocateError>)
    requires j < |ids|
    ensures var verdict := judge(ids[j]);
            && Devices(judge, ids[..j + 1]) == Devices(judge, ids[..j]) + (if verdict.Granted? then [verdict.device] else [])
            && ErrorAfter(judge, ids[..j + 1], before)
               == if verdict.Rejected? then Some(verdict.error) else ErrorAfter(judge, ids[..j], before)
  {
    assert ids[..j + 1][..j] == ids[..j];
  }

  lemma ResponsesNext(judge: string -> Verdict, requests: seq<seq<string>>, i: nat)
    requires i < |requests|
    ensures var devices := Devices(judge, requests[i]);
            && Responses(judge, requests[..i + 1]) == Responses(judge, requests[..i]) + (if devices != [] then [devices] else [])
            && LastError(judge, requests[..i + 1]) == ErrorAfter(judge, requests[i], LastError(judge, requests[..i]))
  {
    assert requests[..i + 1][..i] == requests[..i];
  }

  lemma {:induction false} DevicesComeFrom(judge: string -> Verdict, ids: seq<string>, device: DeviceSpec)
    ensures device in Devices(judge, ids) <==> exists id :: id in ids && judge(id) == Granted(device)
  {
    if ids != [] {
      var last := |ids| - 1;
      DevicesComeFrom(judge, ids[..last], device);
      assert ids == ids[..last] + [ids[last]];
    }
  }

  lemma {:induction false} ResponsesComeFrom(judge: string -> Verdict, requests: seq<seq<string>>, devices: seq<DeviceSpec>)
    ensures devices in Responses(judge, requests) <==> devices != [] && exists ids :: ids in requests && devices == Devices(judge, ids)
  {
    if requests != [] {
      var last := |requests| - 1;
      ResponsesComeFrom(judge, requests[..last], devices);
      assert requests == requests[..last] + [requests[last]];
      if ids :| ids in requests && devices == Devices(judge, ids) {
        assert ids in requests[..last] || ids == requests[last];
      }
      assert devices == Devices(judge, requests[last]) ==> requests[last] in requests;
    }
  }

  /** The device is the file of an id somebody asked for, and it exists. */
  ghost predicate Rightful(host: string, dir: string, present: set<string>, requests: seq<seq<string>>, device: DeviceSpec) {
    && device.hostPath in present && device.containerPath == device.hostPath && device.permissions == "rw"
    && exists ids, id :: ids in requests && id in ids && device.hostPath == UverbsPath(dir, GetIdxFromDeviceId(Efa, host, id))
  }

  ghost predicate SomeServable(host: string, dir: string, present: set<string>, requests: seq<seq<string>>) {
    exists ids, id :: ids in requests && id in ids && Servable(host, dir, present, id)
  }

  /** Every container in the responses gets devices, and rightful ones only. */
  lemma GrantsAreRightful(host: string, dir: string, present: set<string>, requests: seq<seq<string>>, devices: seq<DeviceSpec>)
    requires devices in Responses(Judgement(host, dir, present), requests)
    ensures devices != [] && forall d :: d in devices ==> Rightful(host, dir, present, requests, d)
  {
    var judge := Judgement(host, dir, present);
    ResponsesComeFrom(judge, requests, devices);
    var ids :| ids in requests && devices == Devices(judge, ids);
    forall d | d in devices ensures Rightful(host, dir, present, requests, d) {
      DevicesComeFrom(judge, ids, d);
      var id :| id in ids && judge(id) == Granted(d);
      GrantedIff(host, dir, present, id);
    }
  }

  /** And there are responses exactly when some requested id can be served. */
  lemma GrantsIff(host: string, dir: string, present: set<string>, requests: seq<seq<string>>)
    ensures Responses(Judgement(host, dir, present), requests) != [] <==> SomeServable(host, dir, present, requests)
  {
    var judge := Judgement(host, dir, present);
    var granted := Responses(judge, requests);
    if granted != [] {
      GrantsAreRightful(host, dir, present, requests, granted[0]);
      ResponsesComeFrom(judge, requests, granted[0]);
      var ids :| ids in requests && granted[0] == Devices(judge, ids);
      DevicesComeFrom(judge, ids, granted[0][0]);
      var id :| id in ids && judge(id) == Granted(granted[0][0]);
      GrantedIff(host, dir, present, id);
    }
    if ids, id :| ids in requests && id in ids && Servable(host, dir, present, id) {
      GrantedIff(host, dir, present, id);
      DevicesComeFrom(judge, ids, judge(id).device);
      ResponsesComeFrom(judge, requests, Devices(judge, ids));
    }
  }

  class EfaDevicePlugin {
    const hostName: string
    const efaDirPath: string

    constructor (hostName: string, efaDirPath: string)
      ensures this.hostName == hostName && this.efaDirPath == efaDirPath
    {
      this.hostName := hostName;
      this.efaDirPath := efaDirPath;
    }

    /** `listing` is what reading the directory gives, None if it fails. The result None is the
        source's nil: nothing is advertised. */
    method GetDevices(listing: Option<seq<string>>) returns (devs: Option<seq<string>>)
      ensures devs.Some? <==> listing.Some? && Uverbs(listing.value) != [] && AllNumbered(Uverbs(listing.value))
      ensures devs.Some? ==> devs.value == Ids(hostName, Uverbs(listing.value))
    {
      if listing.None? { return None; }
      var names, ids := listing.value, [];
      for i := 0 to |names|
        invariant AllNumbered(Uverbs(names[..i])) && ids == Ids(hostName, Uverbs(names[..i]))
      {
        assert names[..i + 1][..i] == names[..i];
        var name := names[i];
        if !IsUverbs(name) { continue; }
        var idx := EntryIndex(name);
        if idx.None? {
          assert name in Uverbs(names);
          return None;
        }
        ids := ids + [GetDeviceId(Efa, hostName, idx.value)];
        assert Uverbs(names[..i + 1]) == Uverbs(names[..i]) + [name];
      }
      assert names[..|names|] == names;
      devs := if |ids| == 0 then None else Some(ids);
    }

    /** `present` holds the paths that exist. Nothing is handed out that does not exist or was not asked
        for, and there is an answer exactly when some requested id can be served. */
    method Allocate(requests: seq<seq<string>>, present: set<string>)
      returns (responses: Option<seq<seq<DeviceSpec>>>, err: Option<AllocateError>)
      ensures responses.Some? <==> SomeServable(hostName, efaDirPath, present, requests)
      ensures responses.Some? ==> forall devices :: devices in responses.value ==>
                devices != [] && forall d :: d in devices ==> Rightful(hostName, efaDirPath, present, requests, d)
      ensures var granted := Responses(Judgement(hostName, efaDirPath, present), requests);
              && (granted != [] ==> responses == Some(granted) && err == None)
              && (granted == [] ==> responses == None && err == LastError(Judgement(hostName, efaDirPath, present), requests))
    {
      var granted, lastErr := [], None;
      ghost var judge := Judgement(hostName, efaDirPath, present);
      for i := 0 to |requests|
        invariant granted == Responses(judge, requests[..i])
        invariant lastErr == LastError(judge, requests[..i])
      {
        var ids, devices := requests[i], [];
        ghost var before := lastErr;
        for j := 0 to |ids|
          invariant devices == Devices(judge, ids[..j])
          invariant lastErr == ErrorAfter(judge, ids[..j], before)
        {
          DevicesNext(judge, ids, j, before);
          var idx := GetIdxFromDeviceId(Efa, hostName, ids[j]);
          if idx == -1 {
            lastErr := Some(MalformedId(ids[j]));
            continue;
          }
          var path := FileOf(efaDirPath, UVERBS + Print(idx));
          if path !in present {
            lastErr := Some(NoDeviceFile(path));
            continue;
          }
          devices := devices + [DeviceSpec(path, path, "rw")];
        }
        assert ids[..|ids|] == ids;
        ResponsesNext(judge, requests, i);
        if |devices| > 0 {
          granted := granted + [devices];
        }
      }
      assert requests[..|requests|] == requests;
      GrantsIff(hostName, efaDirPath, present, requests);
      forall devices | devices in granted
        ensures devices != [] && forall d :: d in devices ==> Rightful(hostName, efaDirPath, present, requests, d)
      {
        GrantsAreRightful(hostName, efaDirPath, present, requests, devices);
      }
      if |granted| == 0 { return None, lastErr; }
      return Some(granted), None;
    }
  }

  // ----- what the allocation means -----

  lemma {:induction false} ErrorAfterIff(judge: string -> Verdict, ids: seq<string>, before: Option<AllocateError>)
    ensures ErrorAfter(judge, ids, before).Some?
            <==> before.Some? || exists id :: id in ids && judge(id).Rejected?
  {
    if ids != [] {
      var last := |ids| - 1;
      ErrorAfterIff(judge, ids[..last], before);
      assert ids == ids[..last] + [ids[last]];
    }
  }

  ghost predicate SomeRejected(judge: string -> Verdict, requests: seq<seq<string>>) {
    exists ids, id :: ids in requests && id in ids && judge(id).Rejected?
  }

  /** An error is at hand exactly when some requested id was rejected; Allocate reports it exactly
      when, besides, no container got a device. */
  lemma {:induction false} ErrorIff(judge: string -> Verdict, requests: seq<seq<string>>)
    ensures LastError(judge, requests).Some? <==> SomeRejected(judge, requests)
  {
    if requests != [] {
      var last := |requests| - 1;
      var front, ids := requests[..last], requests[last];
      ErrorIff(judge, front);
      ErrorAfterIff(judge, ids, LastError(judge, front));
      assert requests == front + [ids];
      if SomeRejected(judge, requests) {
        var c, id :| c in requests && id in c && judge(id).Rejected?;
        assert c in front || c == ids;
      }
    }
  }

  ghost predicate AllGrant(judge: string -> Verdict, ids: seq<string>) {
    forall id :: id in ids ==> judge(id).Granted?
  }

  lemma {:induction false} GrantsKeepError(judge: string -> Verdict, ids: seq<string>, before: Option<AllocateError>)
    requires AllGrant(judge, ids)
    ensures ErrorAfter(judge, ids, before) == before
  {
    if ids != [] { GrantsKeepError(judge, ids[..|ids| - 1], before); }
  }

  lemma {:induction false} ErrorOfLast(judge: string -> Verdict, ids: seq<string>, id: string, more: seq<string>, before: Option<AllocateError>)
    requires judge(id).Rejected? && AllGrant(judge, more)
    ensures ErrorAfter(judge, ids + [id] + more, before) == Some(judge(id).error)
  {
    var whole := ids + [id] + more;
    if more == [] {
      assert whole[..|whole| - 1] == ids && whole[|whole| - 1] == id;
    } else {
      ErrorOfLast(judge, ids, id, more[..|more| - 1], before);
      assert whole[..|whole| - 1] == ids + [id] + more[..|more| - 1];
    }
  }

  /** The error is that of the last rejected id: whatever was rejected before it, and whatever containers
      came with it and behind it, as long as nothing behind it was rejected. */
  lemma {:induction false} LastErrorIs(judge: string -> Verdict, front: seq<seq<string>>, ids: seq<string>, id: string,
                                       more: seq<string>, behind: seq<seq<string>>)
    requires judge(id).Rejected? && AllGrant(judge, more) && forall c :: c in behind ==> AllGrant(judge, c)
    ensures LastError(judge, front + [ids + [id] + more] + behind) == Some(judge(id).error)
    decreases |behind|
  {
    var whole := front + [ids + [id] + more] + behind;
    if behind == [] {
      assert whole[..|whole| - 1] == front && whole[|whole| - 1] == ids + [id] + more;
      ErrorOfLast(judge, ids, id, more, LastError(judge, front));
    } else {
      LastErrorIs(judge, front, ids, id, more, behind[..|behind| - 1]);
      assert whole[..|whole| - 1] == front + [ids + [id] + more] + behind[..|behind| - 1];
      GrantsKeepError(judge, behind[|behind| - 1], LastError(judge, whole[..|whole| - 1]));
    }
  }

  lemma DevicesSnoc(judge: string -> Verdict, ids: seq<string>, id: string)
    ensures var verdict := judge(id);
            Devices(judge, ids + [id])
            == Devices(judge, ids) + if verdict.Granted? then [verdict.device] else []
  {
    assert (ids + [id])[..|ids|] == ids;
  }

  /** What a container gets does not depend on what else it asks for: the devices of two lists of ids
      are the devices of the first and then those of the second. */
  lemma {:induction false} DevicesAppend(judge: string -> Verdict, ids: seq<string>, more: seq<string>)
    ensures Devices(judge, ids + more) == Devices(judge, ids) + Devices(judge, more)
  {
    if more == [] {
      assert ids + more == ids;
    } else {
      var last := |more| - 1;
      DevicesAppend(judge, ids, more[..last]);
      DevicesSnoc(judge, ids + more[..last], more[last]);
      assert ids + more == ids + more[..last] + [more[last]];
    }
  }

  /** A container is left out of the responses exactly when all its ids are rejected. */
  lemma {:induction false} NoDevicesIff(judge: string -> Verdict, ids: seq<string>)
    ensures Devices(judge, ids) == [] <==> forall id :: id in ids ==> judge(id).Rejected?
  {
    if ids != [] {
      var last := |ids| - 1;
      NoDevicesIff(judge, ids[..last]);
      assert ids == ids[..last] + [ids[last]];
    }
  }

  // ----- advertise, then allocate -----

  /** Directory order is kept. */
  lemma {:induction false} UverbsAppend(names: seq<string>, more: seq<string>)
    ensures Uverbs(names + more) == Uverbs(names) + Uverbs(more)
  {
    if more == [] {
      assert names + more == names;
    } else {
      var last := |more| - 1;
      UverbsAppend(names, more[..last]);
      assert (names + more)[..|names + more| - 1] == names + more[..last];
    }
  }

  /** The files that exist in the directory are its entries. */
  ghost predicate Mirrors(dir: string, names: seq<string>, present: set<string>) {
    forall x: string :: FileOf(dir, x) in present <==> x in names
  }

  /** The entry is named by the decimal form of its index. */
  predicate Canonical(name: string) {
    && IsUverbs(name) && EntryIndex(name).Some?
    && EntryIndex(name).value >= 0
    && name == UVERBS + Print(EntryIndex(name).value)
  }

  ghost predicate AllCanonical(entries: seq<string>) {
    forall i :: 0 <= i < |entries| ==> Canonical(entries[i])
  }

  lemma SameFile(dir: string, a: string, b: string)
    requires FileOf(dir, a) == FileOf(dir, b)
    ensures a == b
  {
    assert FileOf(dir, a)[|dir| + 1..] == a && FileOf(dir, b)[|dir| + 1..] == b;
  }

  lemma NumberRange(name: string)
    requires IsUverbs(name) && EntryIndex(name).Some?
    ensures -INT32_MAX - 1 <= EntryIndex(name).value <= INT32_MAX
  {
  }

  /** Asking for the id advertised for an entry hands out that very entry exactly when the entry is
      written in decimal form and its index is not -1, the value that stands for a malformed id. */
  lemma {:induction false} EntryServedIff(host: string, dir: string, names: seq<string>, present: set<string>, name: string)
    requires Mirrors(dir, names, present)
    requires name in names && IsUverbs(name) && EntryIndex(name).Some?
    ensures var idx := EntryIndex(name).value;
            Judge(host, dir, present, GetDeviceId(Efa, host, idx)) == Granted(Device(FileOf(dir, name)))
            <==> name == UVERBS + Print(idx) && idx != -1
  {
    var idx := EntryIndex(name).value;
    NumberRange(name);
    RoundTripIff(Efa, host, idx);
    var path := FileOf(dir, UVERBS + Print(idx));
    if path == FileOf(dir, name) { SameFile(dir, UVERBS + Print(idx), name); }
    assert FileOf(dir, name) in present;
  }

  ghost predicate Distinct(s: seq<string>) {
    forall i, j :: 0 <= i < j < |s| ==> s[i] != s[j]
  }

  lemma {:induction false} UverbsDistinct(names: seq<string>)
    requires Distinct(names)
    ensures Distinct(Uverbs(names))
  {
    if names != [] {
      var last := |names| - 1;
      UverbsDistinct(names[..last]);
      assert names[last] !in names[..last];
    }
  }

  /** In a directory whose uverbs entries are all in decimal form, distinct entries get distinct ids. */
  lemma {:induction false} AdvertisedDistinct(host: string, names: seq<string>, i: nat, j: nat)
    requires Distinct(names) && AllNumbered(Uverbs(names)) && AllCanonical(Uverbs(names))
    requires i < j < |Uverbs(names)|
    ensures Ids(host, Uverbs(names))[i] != Ids(host, Uverbs(names))[j]
  {
    var entries := Uverbs(names);
    UverbsDistinct(names);
    assert Canonical(entries[i]) && Canonical(entries[j]);
    if Ids(host, entries)[i] == Ids(host, entries)[j] {
      IdsInjective(Efa, host, EntryIndex(entries[i]).value, EntryIndex(entries[j]).value);
    }
  }

  function FileDevices(dir: string, names: seq<string>): (r: seq<DeviceSpec>)
    ensures |r| == |names|
  {
    seq(|names|, i requires 0 <= i < |names| => Device(FileOf(dir, names[i])))
  }

  lemma {:induction false} AllGranted(judge: string -> Verdict, ids: seq<string>, devices: seq<DeviceSpec>)
    requires |ids| == |devices| && forall i :: 0 <= i < |ids| ==> judge(ids[i]) == Granted(devices[i])
    ensures Devices(judge, ids) == devices
  {
    if ids != [] {
      AllGranted(judge, ids[..|ids| - 1], devices[..|ids| - 1]);
    }
  }

  predicate Within(picks: seq<nat>, bound: nat) {
    forall j :: 0 <= j < |picks| ==> picks[j] < bound
  }

  function Select(s: seq<string>, picks: seq<nat>): (r: seq<string>)
    requires Within(picks, |s|)
    ensures |r| == |picks|
  {
    seq(|picks|, j requires 0 <= j < |picks| => s[picks[j]])
  }

  lemma {:induction false} PicksServed(host: string, dir: string, names: seq<string>, present: set<string>, picks: seq<nat>)
    requires Mirrors(dir, names, present) && AllCanonical(Uverbs(names))
    requires AllNumbered(Uverbs(names)) && Within(picks, |Uverbs(names)|)
    ensures Devices(Judgement(host, dir, present), Select(Ids(host, Uverbs(names)), picks)) == FileDevices(dir, Select(Uverbs(names), picks))
  {
    var entries := Uverbs(names);
    var ids, files := Select(Ids(host, entries), picks), Select(entries, picks);
    forall j | 0 <= j < |picks|
      ensures Judge(host, dir, present, ids[j]) == Granted(Device(FileOf(dir, files[j])))
    {
      assert files[j] == entries[picks[j]] && Canonical(files[j]);
      EntryServedIff(host, dir, names, present, files[j]);
    }
    AllGranted(Judgement(host, dir, present), ids, FileDevices(dir, files));
  }

  lemma {:induction false} NoneDropped(judge: string -> Verdict, requests: seq<seq<string>>)
    requires forall c :: 0 <= c < |requests| ==> Devices(judge, requests[c]) != []
    ensures |Responses(judge, requests)| == |requests|
    ensures forall c :: 0 <= c < |requests| ==> Responses(judge, requests)[c] == Devices(judge, requests[c])
  {
    if requests != [] {
      NoneDropped(judge, requests[..|requests| - 1]);
    }
  }

  /** The containers ask for advertised devices, each for at least one. */
  ghost predicate Asks(host: string, names: seq<string>, picks: seq<seq<nat>>, requests: seq<seq<string>>)
    requires AllNumbered(Uverbs(names))
  {
    && |requests| == |picks|
    && forall c :: 0 <= c < |picks| ==>
                     picks[c] != [] && Within(picks[c], |Uverbs(names)|)
                     && requests[c] == Select(Ids(host, Uverbs(names)), picks[c])
  }

  /** Whatever advertised devices the containers ask for, Allocate hands each of them the device files
      of just the entries it picked, in order. */
  lemma {:induction false} AdvertisedIsAllocated(host: string, dir: string, names: seq<string>, present: set<string>,
                              picks: seq<seq<nat>>, requests: seq<seq<string>>)
    requires Mirrors(dir, names, present) && AllCanonical(Uverbs(names))
    requires AllNumbered(Uverbs(names)) && Asks(host, names, picks, requests)
    ensures var granted := Responses(Judgement(host, dir, present), requests);
            && |granted| == |picks|
            && forall c :: 0 <= c < |picks| ==> granted[c] == FileDevices(dir, Select(Uverbs(names), picks[c]))
  {
    forall c | 0 <= c < |picks|
      ensures Devices(Judgement(host, dir, present), requests[c]) == FileDevices(dir, Select(Uverbs(names), picks[c]))
      ensures Devices(Judgement(host, dir, present), requests[c]) != []
    {
      PicksServed(host, dir, names, present, picks[c]);
      assert |FileDevices(dir, Select(Uverbs(names), picks[c]))| == |picks[c]| > 0;
    }
    NoneDropped(Judgement(host, dir, present), requests);
  }
}
