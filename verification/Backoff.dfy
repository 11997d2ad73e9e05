/** The requeue backoff of a controller: one second more for every requeue of a request since it
    was last reset, kept in signed 64-bit nanoseconds. */
module Backoff {
  import opened Protocol

  const SECOND := 1_000_000_000
  const INT64_MAX := 0x7fff_ffff_ffff_ffff

  /** Go's int64 addition wraps around. */
  function Wrap64(x: int): (y: int)
    ensures -INT64_MAX - 1 <= y <= INT64_MAX
    ensures -INT64_MAX - 1 <= x <= INT64_MAX ==> y == x
  {
    (x + INT64_MAX + 1) % (2 * (INT64_MAX + 1)) - INT64_MAX - 1
  }

  type Durations = map<string, int>

  function Current(m: Durations, req: string): int {
    if req in m then m[req] else 0
  }

  /** What a reconcile of `req` with this outcome does to the stored durations. */
  function After(m: Durations, req: string, outcome: Outcome): Durations {
    match outcome
    case Requeued => m[req := Wrap64(Current(m, req) + SECOND)]
    case Finished => m - {req}
    case _ => m
  }

  /** A reconcile ends, or the operator is started anew, with an empty map. */
  datatype Event = Reconciled(req: string, outcome: Outcome) | Restarted

  function Replay(events: seq<Event>): Durations {
    if events == [] then map[]
    else
      match events[|events| - 1]
      case Reconciled(req, outcome) => After(Replay(events[..|events| - 1]), req, outcome)
      case Restarted => map[]
  }

  /** Requeues of `req` since its last reset or the last restart. */
  function Requeues(events: seq<Event>, req: string): nat {
    if events == [] || events[|events| - 1].Restarted? then 0
    else
      var e := events[|events| - 1];
      var n := Requeues(events[..|events| - 1], req);
      if e.req != req then n
      else match e.outcome
        case Requeued => n + 1
        case Finished => 0
        case _ => n
  }

  const MOST_REQUEUES := 9_223_372_036

  lemma WrapPeriod(x: int, y: int, n: int)
    requires x - y == n * 0x1_0000_0000_0000_0000
    ensures Wrap64(x) == Wrap64(y)
  {
  }

  lemma WrapAgain(x: int, y: int)
    ensures Wrap64(Wrap64(x) + y) == Wrap64(x + y)
  {
    var q := (x + INT64_MAX + 1) / 0x1_0000_0000_0000_0000;
    WrapPeriod(Wrap64(x) + y, x + y, -q);
  }

  /** Over any history, the duration stored for a request is one second times its requeues since
      its last reset or the last restart of the operator, wrapped to 64 bits: what happened to other
      requests plays no part. */
  lemma {:induction false} StoredIsRequeues(events: seq<Event>, req: string)
    ensures Current(Replay(events), req) == Wrap64(Requeues(events, req) * SECOND)
  {
    if events != [] {
      var r := events[..|events| - 1];
      StoredIsRequeues(r, req);
      WrapAgain(Requeues(r, req) * SECOND, SECOND);
    }
  }

  /** It is exactly that many seconds if and only if there were at most 9223372036 of them, some
      292 years of waiting on end. */
  lemma {:induction false} SecondsExactIff(events: seq<Event>, req: string)
    ensures Current(Replay(events), req) == Requeues(events, req) * SECOND <==> Requeues(events, req) <= MOST_REQUEUES
  {
    StoredIsRequeues(events, req);
  }

  /** How long `req` was told to wait, in all, since its last reset or the last restart. */
  function TotalWait(events: seq<Event>, req: string): int {
    if events == [] || events[|events| - 1].Restarted? then 0
    else
      var e := events[|events| - 1];
      var before := TotalWait(events[..|events| - 1], req);
      if e.req != req then before
      else match e.outcome
        case Requeued => before + Current(Replay(events), req)
        case Finished => 0
        case _ => before
  }

  /** 1 + 2 + ... + n. */
  function SumTo(n: nat): nat {
    if n == 0 then 0 else SumTo(n - 1) + n
  }

  lemma {:induction false} SumToClosed(n: nat)
    ensures 2 * SumTo(n) == n * (n + 1)
  {
    if n > 0 { SumToClosed(n - 1); }
  }

  /** In any history, whatever happens to other requests in between, the n waits of a request since
      its last reset or restart come to 1 + 2 + ... + n seconds together. */
  lemma {:induction false} ConsecutiveWaits(events: seq<Event>, req: string)
    ensures Requeues(events, req) <= MOST_REQUEUES ==> TotalWait(events, req) == SumTo(Requeues(events, req)) * SECOND
  {
    if events != [] {
      ConsecutiveWaits(events[..|events| - 1], req);
      SecondsExactIff(events, req);
    }
  }
}
