/**
  The `TimeoutManager` registry: named countdown timers behind integer
  handles, polled by the caller. Every operation that reads the clock takes
  the reading as the explicit input `now`.
 */
module Timeouts {
  import opened FixedWidth
  import opened TimeUtils
  import Decimal
  import opened OrderedKeys

  /** Per-timer state: start time, duration, active flag and name, nothing else. */
  datatype TimeoutInfo = TimeoutInfo(startTime: uint32, timeoutDuration: uint32, isActive: bool, name: string)

  /** The registry: one entry per handle, and the handle the next registration receives. */
  datatype TimeoutManager = TimeoutManager(timeouts: map<int, TimeoutInfo>, nextTimeoutId: int)

  /** Handles start at 1 and every registered handle lies below the next one to be issued. */
  predicate Valid(m: TimeoutManager)
  {
    && m.nextTimeoutId >= 1
    && forall id :: id in m.timeouts ==> 1 <= id < m.nextTimeoutId
  }

  /** The constructor: an empty registry whose first handle will be 1. */
  function NewTimeoutManager(): (m: TimeoutManager)
    ensures Valid(m) && |m.timeouts| == 0 && m.nextTimeoutId == 1
  {
    TimeoutManager(map[], 1)
  }

  /** The label given to a timer registered without a name. */
  function DefaultName(id: int): string
  {
    "Timeout_" + Decimal.IntToString(id)
  }

  /** The handle a registration returned and the registry after it. */
  datatype Added = Added(id: int, manager: TimeoutManager)

  /**
    `addTimeout`: registers an active timer starting now under the next
    handle, named by the caller or, for an empty name, by its handle, and
    advances the handle counter. Omitting the name means passing "".
   */
  function AddTimeout(m: TimeoutManager, timeoutMs: uint32, name: string, now: uint32): (r: Added)
    ensures r.id == m.nextTimeoutId && r.manager.nextTimeoutId == m.nextTimeoutId + 1
    ensures r.manager.timeouts.Keys == m.timeouts.Keys + {r.id}
    ensures r.manager.timeouts[r.id] ==
      TimeoutInfo(now, timeoutMs, true, if |name| > 0 then name else DefaultName(r.id))
    ensures forall id :: id in m.timeouts && id != r.id ==> r.manager.timeouts[id] == m.timeouts[id]
    ensures Valid(m) ==> Valid(r.manager) && r.id !in m.timeouts
  {
    var id := m.nextTimeoutId;
    var info := TimeoutInfo(now, timeoutMs, true, if |name| > 0 then name else DefaultName(id));
    Added(id, TimeoutManager(m.timeouts[id := info], id + 1))
  }

  /**
    `isTimeoutExpired`: false for an unknown or inactive handle; otherwise
    whether the timer's duration has elapsed since its start, across clock
    wrap. The registry itself is not changed.
   */
  function IsTimeoutExpired(m: TimeoutManager, id: int, now: uint32): (r: bool)
    ensures r <==>
      && id in m.timeouts
      && m.timeouts[id].isActive
      && GetTimeDiff(m.timeouts[id].startTime, now) >= m.timeouts[id].timeoutDuration
  {
    if id !in m.timeouts then false
    else
      var info := m.timeouts[id];
      if !info.isActive then false else IsTimeout(info.startTime, info.timeoutDuration, now)
  }

  /** `resetTimeout`: restarts an existing timer from now and re-arms it; an unknown handle is ignored. */
  function ResetTimeout(m: TimeoutManager, id: int, now: uint32): (r: TimeoutManager)
    ensures id !in m.timeouts ==> r == m
    ensures r.timeouts.Keys == m.timeouts.Keys && r.nextTimeoutId == m.nextTimeoutId
    ensures id in m.timeouts ==> r.timeouts[id] == m.timeouts[id].(startTime := now, isActive := true)
    ensures forall k :: k in m.timeouts && k != id ==> r.timeouts[k] == m.timeouts[k]
    ensures Valid(m) ==> Valid(r)
  {
    if id in m.timeouts then
      m.(timeouts := m.timeouts[id := m.timeouts[id].(startTime := now, isActive := true)])
    else m
  }

  /** `removeTimeout`: forgets one handle and nothing else; an unknown handle is ignored. */
  function RemoveTimeout(m: TimeoutManager, id: int): (r: TimeoutManager)
    ensures id !in m.timeouts ==> r == m
    ensures r.timeouts.Keys == m.timeouts.Keys - {id} && r.nextTimeoutId == m.nextTimeoutId
    ensures forall k :: k in r.timeouts ==> r.timeouts[k] == m.timeouts[k]
    ensures Valid(m) ==> Valid(r)
  {
    if id in m.timeouts then m.(timeouts := m.timeouts - {id}) else m
  }

  /**
    `getExpiredTimeouts`, for which src/utilities/time_utils.cpp holds no body,
    given its natural meaning (an assumption): the handles of the active timers that have
    expired, in ascending handle order.
   */
  function GetExpiredTimeouts(m: TimeoutManager, now: uint32): (r: seq<int>)
    ensures forall id :: id in r <==> IsTimeoutExpired(m, id, now)
    ensures forall i, j :: 0 <= i < j < |r| ==> r[i] < r[j]
  {
    Ascending(set id | id in m.timeouts && IsTimeoutExpired(m, id, now))
  }

  /**
    The registry `checkAllTimeouts` leaves behind, stated per handle: every
    timer that had expired is deactivated, every other entry is kept as it was.
   */
  function CheckAll(m: TimeoutManager, now: uint32): (r: TimeoutManager)
    ensures r.timeouts.Keys == m.timeouts.Keys && r.nextTimeoutId == m.nextTimeoutId
    ensures forall id :: !IsTimeoutExpired(r, id, now)
    ensures forall id :: id in m.timeouts && IsTimeoutExpired(m, id, now) ==>
      r.timeouts[id] == m.timeouts[id].(isActive := false)
    ensures forall id :: id in m.timeouts && !IsTimeoutExpired(m, id, now) ==> r.timeouts[id] == m.timeouts[id]
    ensures Valid(m) ==> Valid(r)
  {
    m.(timeouts := map id | id in m.timeouts ::
      if IsTimeoutExpired(m, id, now) then m.timeouts[id].(isActive := false) else m.timeouts[id])
  }

  /**
    `checkAllTimeouts`: collects the expired handles, then deactivates each
    of them in turn, so that a timer fires once and stays quiet until it is
    reset. Every handle it visits is a registered one.
   */
  method CheckAllTimeouts(m: TimeoutManager, now: uint32) returns (ids: seq<int>, r: TimeoutManager)
    ensures ids == GetExpiredTimeouts(m, now)
    ensures r.timeouts.Keys == m.timeouts.Keys && r.nextTimeoutId == m.nextTimeoutId
    ensures forall id :: id in m.timeouts ==>
      r.timeouts[id] == if id in ids then m.timeouts[id].(isActive := false) else m.timeouts[id]
    ensures forall id :: !IsTimeoutExpired(r, id, now)
    ensures Valid(m) ==> Valid(r)
    ensures r == CheckAll(m, now)
  {
    ids := GetExpiredTimeouts(m, now);
    var t := m.timeouts;
    var i := 0;
    while i < |ids|
      invariant 0 <= i <= |ids|
      invariant t.Keys == m.timeouts.Keys
      invariant forall id :: id in t ==>
        t[id] == if id in ids[..i] then m.timeouts[id].(isActive := false) else m.timeouts[id]
    {
      var id := ids[i];
      assert IsTimeoutExpired(m, id, now);
      assert ids[..i + 1] == ids[..i] + [id];
      t := t[id := t[id].(isActive := false)];
      i := i + 1;
    }
    assert ids[..i] == ids;
    r := m.(timeouts := t);
    assert r.timeouts == CheckAll(m, now).timeouts;
  }

  /**
    `getRemainingTime`: 0 for an unknown, inactive or expired timer,
    otherwise the part of the duration still to run.
   */
  function GetRemainingTime(m: TimeoutManager, id: int, now: uint32): (r: uint32)
    ensures r > 0 <==>
      && id in m.timeouts
      && m.timeouts[id].isActive
      && GetTimeDiff(m.timeouts[id].startTime, now) < m.timeouts[id].timeoutDuration
    ensures r > 0 ==>
      && r <= m.timeouts[id].timeoutDuration
      && r + GetTimeDiff(m.timeouts[id].startTime, now) == m.timeouts[id].timeoutDuration
  {
    if id !in m.timeouts then 0
    else
      var info := m.timeouts[id];
      if !info.isActive then 0
      else
        var elapsed := GetTimeDiff(info.startTime, now);
        if elapsed >= info.timeoutDuration then 0 else info.timeoutDuration - elapsed
  }

  /** Generated labels never collide: distinct handles get distinct default names. */
  lemma DefaultNamesDistinct(a: int, b: int)
    ensures DefaultName(a) == DefaultName(b) ==> a == b
  {
    if DefaultName(a) == DefaultName(b) {
      var prefix := "Timeout_";
      assert DefaultName(a)[|prefix|..] == Decimal.IntToString(a);
      assert DefaultName(b)[|prefix|..] == Decimal.IntToString(b);
      Decimal.IntToStringInjective(a, b);
    }
  }

  /**
    A timer registered at `start` with duration `d` and polled `e` ticks
    later (fewer than 2^32, so possibly after the clock wrapped) is expired
    exactly when `e >= d`, and until then has `d - e` left to run.
   */
  lemma ExpiryAfterElapsed(m: TimeoutManager, d: uint32, name: string, start: uint32, e: int)
    requires 0 <= e < U32_MODULUS
    ensures
      var added := AddTimeout(m, d, name, start);
      var now := (start + e) % U32_MODULUS;
      && (IsTimeoutExpired(added.manager, added.id, now) <==> e >= d)
      && GetRemainingTime(added.manager, added.id, now) == (if e < d then d - e else 0)
  {
    ElapsedAcrossWrap(start, e);
  }

  /** A reset re-arms a timer: polled `e` ticks after the reset it is expired exactly when `e` reaches its duration. */
  lemma ResetRearms(m: TimeoutManager, id: int, at: uint32, e: int)
    requires id in m.timeouts && 0 <= e < U32_MODULUS
    ensures
      IsTimeoutExpired(ResetTimeout(m, id, at), id, (at + e) % U32_MODULUS)
      <==> e >= m.timeouts[id].timeoutDuration
  {
    ElapsedAcrossWrap(at, e);
  }

  /** For a registered, active timer, time remains exactly when it has not expired. */
  lemma RemainingIffNotExpired(m: TimeoutManager, id: int, now: uint32)
    ensures IsTimeoutExpired(m, id, now) ==> GetRemainingTime(m, id, now) == 0
    ensures id in m.timeouts && m.timeouts[id].isActive ==>
      (GetRemainingTime(m, id, now) > 0 <==> !IsTimeoutExpired(m, id, now))
  {
  }

  /**
    Handles are issued in strictly increasing order and a removed handle is
    never issued again: a worked instance (add, remove, add) of
    `HandlesNeverReusedOverLifetime`.
   */
  lemma HandlesNeverReused(m: TimeoutManager, d1: uint32, n1: string, t1: uint32, d2: uint32, n2: string, t2: uint32)
    requires Valid(m)
    ensures
      var first := AddTimeout(m, d1, n1, t1);
      var second := AddTimeout(RemoveTimeout(first.manager, first.id), d2, n2, t2);
      && first.id < second.id
      && second.id !in first.manager.timeouts
  {
  }

  /** One call a client makes on the registry; the clock reading is part of the call. */
  datatype RegistryOp =
    | Add(timeoutMs: uint32, name: string, now: uint32)
    | Reset(id: int, now: uint32)
    | Remove(id: int)
    | Check(now: uint32)

  /** The registry after one call: only a registration advances the handle counter. */
  function Step(m: TimeoutManager, op: RegistryOp): (r: TimeoutManager)
    ensures r.nextTimeoutId == m.nextTimeoutId + (if op.Add? then 1 else 0)
    ensures Valid(m) ==> Valid(r)
  {
    match op
    case Add(ms, name, now) => AddTimeout(m, ms, name, now).manager
    case Reset(id, now) => ResetTimeout(m, id, now)
    case Remove(id) => RemoveTimeout(m, id)
    case Check(now) => CheckAll(m, now)
  }

  /** The registry after a sequence of calls, applied in order. */
  function Run(m: TimeoutManager, ops: seq<RegistryOp>): TimeoutManager
    decreases |ops|
  {
    if |ops| == 0 then m else Run(Step(m, ops[0]), ops[1..])
  }

  /** The handles the registrations among `ops` return, in the order they are issued. */
  function Issued(m: TimeoutManager, ops: seq<RegistryOp>): seq<int>
    decreases |ops|
  {
    if |ops| == 0 then []
    else
      var first := if ops[0].Add? then [m.nextTimeoutId] else [];
      first + Issued(Step(m, ops[0]), ops[1..])
  }

  /** Strictly increasing handles, all in `[lo, hi)`. */
  predicate IncreasingWithin(s: seq<int>, lo: int, hi: int)
  {
    && (forall i, j :: 0 <= i < j < |s| ==> s[i] < s[j])
    && (forall i :: 0 <= i < |s| ==> lo <= s[i] < hi)
  }

  /** The handles a run issues strictly increase, between the counter before it and the counter after it. */
  lemma {:induction false} IssuedIncreasing(m: TimeoutManager, ops: seq<RegistryOp>)
    ensures IncreasingWithin(Issued(m, ops), m.nextTimeoutId, Run(m, ops).nextTimeoutId)
    ensures m.nextTimeoutId <= Run(m, ops).nextTimeoutId
    decreases |ops|
  {
    if |ops| > 0 {
      var next := Step(m, ops[0]);
      IssuedIncreasing(next, ops[1..]);
      var rest := Issued(next, ops[1..]);
      var first := if ops[0].Add? then [m.nextTimeoutId] else [];
      assert Issued(m, ops) == first + rest;
      assert Run(m, ops) == Run(next, ops[1..]);
    }
  }

  /** Every registry call keeps the registry valid, so a whole run does. */
  lemma {:induction false} RunKeepsValid(m: TimeoutManager, ops: seq<RegistryOp>)
    requires Valid(m)
    ensures Valid(Run(m, ops))
    decreases |ops|
  {
    if |ops| > 0 {
      RunKeepsValid(Step(m, ops[0]), ops[1..]);
    }
  }

  /**
    Over any sequence of registrations, resets, removals and polls, the
    handles issued strictly increase, all lie at or above the counter the
    sequence started from (so none equals a handle registered before it, live
    or removed), and the registry stays valid.
   */
  lemma HandlesNeverReusedOverLifetime(m: TimeoutManager, ops: seq<RegistryOp>)
    requires Valid(m)
    ensures Valid(Run(m, ops))
    ensures IncreasingWithin(Issued(m, ops), m.nextTimeoutId, Run(m, ops).nextTimeoutId)
    ensures forall i :: 0 <= i < |Issued(m, ops)| ==> Issued(m, ops)[i] !in m.timeouts
  {
    RunKeepsValid(m, ops);
    IssuedIncreasing(m, ops);
  }
}
