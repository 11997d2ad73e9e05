/** The gdrdrv device plugin: one device file shared by up to 128 users, and an allocation loop
    that carries a flag from one container to the next. */
module GdrdrvPlugin {
  import opened Options
  import opened Api
  import opened DeviceIds
  import opened EfaPlugin

  const MAX_GDRDRV_USERS := 128

  /** The ids of the users the device is shared by. */
  function UserIds(host: string): (ids: seq<string>)
    ensures |ids| == MAX_GDRDRV_USERS
  {
    seq(MAX_GDRDRV_USERS, i requires 0 <= i < MAX_GDRDRV_USERS => GetDeviceId(Gdrdrv, host, i))
  }

  /** They read back, on this host, as 0 to 127 in order, so no two are the same. */
  lemma UserIdsReadBack(host: string)
    ensures forall i :: 0 <= i < MAX_GDRDRV_USERS ==> GetIdxFromDeviceId(Gdrdrv, host, UserIds(host)[i]) == i
  {
    forall i | 0 <= i < MAX_GDRDRV_USERS ensures GetIdxFromDeviceId(Gdrdrv, host, UserIds(host)[i]) == i {
      RoundTripIff(Gdrdrv, host, i);
    }
  }

  /** Which ids are this host's. */
  function Own(host: string): string -> bool {
    id => GetIdxFromDeviceId(Gdrdrv, host, id) != -1
  }

  /** The container asks for at least one of the host's own ids. */
  predicate Holds(own: string -> bool, ids: seq<string>) {
    exists id :: id in ids && own(id)
  }

  lemma HoldsMore(own: string -> bool, ids: seq<string>, j: nat)
    requires j < |ids|
    ensures Holds(own, ids[..j + 1]) <==> Holds(own, ids[..j]) || own(ids[j])
    ensures own(ids[j]) ==> Holds(own, ids)
  {
    assert ids[..j + 1] == ids[..j] + [ids[j]];
    if id :| id in ids[..j + 1] && own(id) { assert id in ids[..j] || id == ids[j]; }
    if id :| id in ids[..j] && own(id) { assert id in ids[..j + 1]; }
    assert ids[j] in ids[..j + 1] && ids[j] in ids;
  }

  /** Position of the first container that holds one of the host's own ids, or |requests|. */
  function FirstHolder(own: string -> bool, requests: seq<seq<string>>): (i: nat)
    ensures i <= |requests|
  {
    if requests == [] || Holds(own, requests[0]) then 0 else FirstHolder(own, requests[1..]) + 1
  }

  lemma {:induction false} FirstHolderMeans(own: string -> bool, requests: seq<seq<string>>)
    ensures var first := FirstHolder(own, requests);
            && (forall j :: 0 <= j < first ==> !Holds(own, requests[j]))
            && (first < |requests| ==> Holds(own, requests[first]))
  {
    if requests != [] && !Holds(own, requests[0]) {
      FirstHolderMeans(own, requests[1..]);
      assert forall j :: 0 < j < |requests| ==> requests[j] == requests[1..][j - 1];
    }
  }

  lemma FlagStep(own: string -> bool, requests: seq<seq<string>>, i: nat)
    requires i < |requests|
    ensures FirstHolder(own, requests) <= i <==> FirstHolder(own, requests) < i || Holds(own, requests[i])
  {
    FirstHolderMeans(own, requests);
  }

  /** The last id anyone asks for. */
  function LastId(requests: seq<seq<string>>): Option<string> {
    if requests == [] then None
    else
      var last := |requests| - 1;
      if requests[last] != [] then Some(requests[last][|requests[last]| - 1]) else LastId(requests[..last])
  }

  /** Whatever comes before it, and however many containers behind it ask for nothing. */
  lemma {:induction false} LastIdIs(front: seq<seq<string>>, ids: seq<string>, id: string, behind: seq<seq<string>>)
    requires forall c :: 0 <= c < |behind| ==> behind[c] == []
    ensures LastId(front + [ids + [id]] + behind) == Some(id)
    decreases |behind|
  {
    var whole := front + [ids + [id]] + behind;
    if behind == [] {
      assert whole[|whole| - 1] == ids + [id];
    } else {
      LastIdIs(front, ids, id, behind[..|behind| - 1]);
      assert whole[|whole| - 1] == [] && whole[..|whole| - 1] == front + [ids + [id]] + behind[..|behind| - 1];
    }
  }

  function Malformed(id: Option<string>): Option<AllocateError> {
    if id.None? then None else Some(MalformedId(id.value))
  }

  /** The error at hand once the first j ids of a container turned out malformed. */
  function ErrorUpTo(ids: seq<string>, j: nat, before: Option<AllocateError>): Option<AllocateError>
    requires j <= |ids|
  {
    if j == 0 then before else Some(MalformedId(ids[j - 1]))
  }

  lemma LastIdGrows(requests: seq<seq<string>>, i: nat)
    requires i < |requests|
    ensures Malformed(LastId(requests[..i + 1])) == ErrorUpTo(requests[i], |requests[i]|, Malformed(LastId(requests[..i])))
  {
    assert requests[..i + 1][..i] == requests[..i];
  }

  function Copies(n: nat, path: string): (r: seq<seq<DeviceSpec>>)
    ensures |r| == n && forall i :: 0 <= i < n ==> r[i] == [Device(path)]
  {
    seq(n, _ => [Device(path)])
  }

  class GdrdrvDevicePlugin {
    const hostName: string
    const gdrdrvPath: string

    constructor (hostName: string, gdrdrvPath: string)
      ensures this.hostName == hostName && this.gdrdrvPath == gdrdrvPath
    {
      this.hostName := hostName;
      this.gdrdrvPath := gdrdrvPath;
    }

    /** `present` holds the paths that exist. */
    method GetDevices(present: set<string>) returns (devs: Option<seq<string>>)
      ensures devs == if gdrdrvPath in present then Some(UserIds(hostName)) else None
      ensures devs.Some? ==> |devs.value| == MAX_GDRDRV_USERS
                             && forall i :: 0 <= i < MAX_GDRDRV_USERS ==> GetIdxFromDeviceId(Gdrdrv, hostName, devs.value[i]) == i
    {
      if gdrdrvPath !in present { return None; }
      var ids := [];
      for i := 0 to MAX_GDRDRV_USERS
        invariant |ids| == i && forall j :: 0 <= j < i ==> ids[j] == GetDeviceId(Gdrdrv, hostName, j)
      {
        ids := ids + [GetDeviceId(Gdrdrv, hostName, i)];
      }
      UserIdsReadBack(hostName);
      assert ids == UserIds(hostName);
      devs := Some(ids);
    }

    /** The inner loop: looks for one of the host's own ids, noting every malformed one before it. */
    method SearchIds(ids: seq<string>, before: Option<AllocateError>) returns (found: bool, lastErr: Option<AllocateError>)
      ensures found <==> Holds(Own(hostName), ids)
      ensures !found ==> lastErr == ErrorUpTo(ids, |ids|, before)
    {
      found, lastErr := false, before;
      for j := 0 to |ids|
        invariant !found && !Holds(Own(hostName), ids[..j])
        invariant lastErr == ErrorUpTo(ids, j, before)
      {
        HoldsMore(Own(hostName), ids, j);
        var idx := GetIdxFromDeviceId(Gdrdrv, hostName, ids[j]);
        if idx == -1 {
          lastErr := Some(MalformedId(ids[j]));
          continue;
        }
        return true, lastErr;
      }
      assert ids[..|ids|] == ids;
    }

    /** Every container from the first that holds an id of this host onward gets the device. */
    method Allocate(requests: seq<seq<string>>, present: set<string>)
      returns (responses: Option<seq<seq<DeviceSpec>>>, err: Option<AllocateError>)
      ensures gdrdrvPath !in present ==> responses == None && err == Some(NoDeviceFile(gdrdrvPath))
      ensures gdrdrvPath in present ==>
                var first := FirstHolder(Own(hostName), requests);
                && (first < |requests| ==> responses == Some(Copies(|requests| - first, gdrdrvPath)) && err == None)
                && (first == |requests| ==> responses == None && err == Malformed(LastId(requests)))
      ensures responses.Some? ==> gdrdrvPath in present && forall devices :: devices in responses.value ==>
                                    devices == [DeviceSpec(gdrdrvPath, gdrdrvPath, "rw")]
    {
      if gdrdrvPath !in present { return None, Some(NoDeviceFile(gdrdrvPath)); }
      var granted, lastErr: Option<AllocateError>, requestGdrdrv := [], None, false;
      ghost var own := Own(hostName);
      ghost var first := FirstHolder(own, requests);
      for i := 0 to |requests|
        invariant requestGdrdrv <==> first < i
        invariant |granted| == if first < i then i - first else 0
        invariant forall c :: 0 <= c < |granted| ==> granted[c] == [Device(gdrdrvPath)]
        invariant !requestGdrdrv ==> lastErr == Malformed(LastId(requests[..i]))
      {
        var ids, devices := requests[i], [];
        var found, errNow := SearchIds(ids, lastErr);
        requestGdrdrv, lastErr := requestGdrdrv || found, errNow;
        LastIdGrows(requests, i);
        FlagStep(own, requests, i);
        if requestGdrdrv {
          devices := devices + [DeviceSpec(gdrdrvPath, gdrdrvPath, "rw")];
          granted := granted + [devices];
        }
      }
      assert requests[..|requests|] == requests && granted == Copies(|requests| - first, gdrdrvPath);
      if |granted| == 0 { return None, lastErr; }
      return Some(granted), None;
    }
  }

  /** The per-container rule: the device goes to just the containers that hold an id of this host. */
  function PerContainer(own: string -> bool, path: string, requests: seq<seq<string>>): seq<seq<DeviceSpec>> {
    if requests == [] then []
    else (if Holds(own, requests[0]) then [[Device(path)]] else []) + PerContainer(own, path, requests[1..])
  }

  ghost predicate AllHold(own: string -> bool, requests: seq<seq<string>>) {
    forall i :: 0 <= i < |requests| ==> Holds(own, requests[i])
  }

  lemma {:induction false} FullIff(own: string -> bool, path: string, requests: seq<seq<string>>)
    ensures |PerContainer(own, path, requests)| <= |requests|
    ensures |PerContainer(own, path, requests)| == |requests| <==> AllHold(own, requests)
    ensures |PerContainer(own, path, requests)| == |requests| ==> PerContainer(own, path, requests) == Copies(|requests|, path)
  {
    if requests != [] {
      FullIff(own, path, requests[1..]);
      assert forall i :: 0 < i < |requests| ==> requests[i] == requests[1..][i - 1];
    }
  }

  lemma {:induction false} SkipToFirst(own: string -> bool, path: string, requests: seq<seq<string>>)
    ensures PerContainer(own, path, requests) == PerContainer(own, path, requests[FirstHolder(own, requests)..])
  {
    if requests != [] && !Holds(own, requests[0]) {
      SkipToFirst(own, path, requests[1..]);
      assert requests[FirstHolder(own, requests)..] == requests[1..][FirstHolder(own, requests[1..])..];
    } else {
      assert requests[0..] == requests;
    }
  }

  /** No container without an id of this host follows one that holds such an id. */
  ghost predicate Gapless(own: string -> bool, requests: seq<seq<string>>) {
    forall i, j :: 0 <= i < j < |requests| && Holds(own, requests[i]) ==> Holds(own, requests[j])
  }

  lemma {:induction false} GaplessIff(own: string -> bool, requests: seq<seq<string>>)
    ensures Gapless(own, requests) <==> AllHold(own, requests[FirstHolder(own, requests)..])
  {
    var first := FirstHolder(own, requests);
    var served := requests[first..];
    FirstHolderMeans(own, requests);
    if AllHold(own, served) {
      forall i, j | 0 <= i < j < |requests| && Holds(own, requests[i]) ensures Holds(own, requests[j]) {
        assert requests[j] == served[j - first];
      }
    }
    if Gapless(own, requests) {
      forall i | 0 <= i < |served| ensures Holds(own, served[i]) {
        assert served[i] == requests[first + i];
      }
    }
  }

  /** The loop gives what the per-container rule gives exactly when no container without an id of this
      host follows one that holds such an id; otherwise the flag, which is never reset, hands the
      device to a container that did not ask for it. */
  lemma CarriedFlagIff(own: string -> bool, path: string, requests: seq<seq<string>>)
    ensures Copies(|requests| - FirstHolder(own, requests), path) == PerContainer(own, path, requests)
            <==> Gapless(own, requests)
  {
    SkipToFirst(own, path, requests);
    FullIff(own, path, requests[FirstHolder(own, requests)..]);
    GaplessIff(own, requests);
  }
}
