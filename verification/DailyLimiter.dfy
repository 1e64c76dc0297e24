/** gateway/internal/auth/ratelimit.go, CheckDaily: one Redis counter a key and UTC day, raised by
    INCR and lowered again by a separate DECR when the limit is passed. */
module DailyLimiter {

  const DAY_SECONDS := 86400

  datatype Reply = Reply(allowed: bool, remaining: int, limit: int, retryAfter: int)

  // ---- calls in flight, as interleaved INCR and DECR steps ----

  /** Overflowed: the INCR came back above the limit and the DECR has not been executed. */
  datatype Call = Waiting | Overflowed | Refused | Admitted(remaining: int)

  /** ttlSets counts the ExpireAt commands sent; reports lists `Remaining` of each admission in order. */
  datatype State = State(counter: int, ttlSets: nat, calls: seq<Call>, reports: seq<int>)

  datatype Event = Arrive | Incr(call: nat) | Decr(call: nat)

  const START := State(0, 0, [], [])

  function Next(s: State, daily: int, e: Event): State {
    match e
    case Arrive => s.(calls := s.calls + [Waiting])
    case Incr(i) =>
      if i < |s.calls| && s.calls[i].Waiting? then
        var count := s.counter + 1;
        var ttl := s.ttlSets + if count == 1 then 1 else 0;
        if count > daily then State(count, ttl, s.calls[i := Overflowed], s.reports)
        else State(count, ttl, s.calls[i := Admitted(daily - count)], s.reports + [daily - count])
      else s
    case Decr(i) =>
      if i < |s.calls| && s.calls[i].Overflowed? then State(s.counter - 1, s.ttlSets, s.calls[i := Refused], s.reports)
      else s
  }

  function Run(s: State, daily: int, es: seq<Event>): State
    decreases |es|
  {
    if es == [] then s else Next(Run(s, daily, es[..|es| - 1]), daily, es[|es| - 1])
  }

  function Count(calls: seq<Call>, which: Call -> bool): nat {
    if calls == [] then 0
    else Count(calls[..|calls| - 1], which) + if which(calls[|calls| - 1]) then 1 else 0
  }

  function Admissions(s: State): nat { Count(s.calls, (c: Call) => c.Admitted?) }

  function Overflows(s: State): nat { Count(s.calls, (c: Call) => c.Overflowed?) }

  function Refusals(s: State): nat { Count(s.calls, (c: Call) => c.Refused?) }

  lemma {:induction false} CountUpdate(calls: seq<Call>, i: nat, c: Call, which: Call -> bool)
    requires i < |calls|
    ensures Count(calls[i := c], which)
         == Count(calls, which) + (if which(c) then 1 else 0) - if which(calls[i]) then 1 else 0
  {
    var n := |calls| - 1;
    if i < n {
      CountUpdate(calls[..n], i, c, which);
      assert calls[i := c][..n] == calls[..n][i := c];
    } else {
      assert calls[i := c][..n] == calls[..n];
    }
  }

  lemma CountAppend(calls: seq<Call>, c: Call, which: Call -> bool)
    ensures Count(calls + [c], which) == Count(calls, which) + if which(c) then 1 else 0
  {
    assert (calls + [c])[..|calls|] == calls;
  }

  ghost predicate Invariant(s: State, daily: int) {
    && s.counter == Admissions(s) + Overflows(s)
    && Admissions(s) <= daily
    && (Overflows(s) + Refusals(s) > 0 ==> Admissions(s) == daily)
    && s.ttlSets == (if Admissions(s) > 0 then 1 else 0)
    && |s.reports| == Admissions(s)
    && forall k :: 0 <= k < |s.reports| ==> s.reports[k] == daily - 1 - k
  }

  lemma StepKeeps(s: State, daily: int, e: Event)
    requires 0 < daily && Invariant(s, daily)
    ensures Invariant(Next(s, daily, e), daily)
  {
    match e
    case Arrive =>
      CountAppend(s.calls, Waiting, (c: Call) => c.Admitted?);
      CountAppend(s.calls, Waiting, (c: Call) => c.Overflowed?);
      CountAppend(s.calls, Waiting, (c: Call) => c.Refused?);
    case Incr(i) =>
      if i < |s.calls| {
        var c := if s.counter + 1 > daily then Overflowed else Admitted(daily - s.counter - 1);
        CountUpdate(s.calls, i, c, (c: Call) => c.Admitted?);
        CountUpdate(s.calls, i, c, (c: Call) => c.Overflowed?);
        CountUpdate(s.calls, i, c, (c: Call) => c.Refused?);
      }
    case Decr(i) =>
      if i < |s.calls| {
        CountUpdate(s.calls, i, Refused, (c: Call) => c.Admitted?);
        CountUpdate(s.calls, i, Refused, (c: Call) => c.Overflowed?);
        CountUpdate(s.calls, i, Refused, (c: Call) => c.Refused?);
      }
  }

  /** In every interleaving, with DECRs delayed for any time or never executed: at most `daily` calls
      are admitted, the k-th of them being told daily - k remain; a call is turned away only once
      exactly `daily` have been admitted; and the expiry is set once, by the first admission. */
  lemma {:induction false} EveryInterleaving(daily: int, es: seq<Event>)
    requires 0 < daily
    ensures Invariant(Run(START, daily, es), daily)
  {
    if es != [] {
      EveryInterleaving(daily, es[..|es| - 1]);
      StepKeeps(Run(START, daily, es[..|es| - 1]), daily, es[|es| - 1]);
    }
  }

  /** The converse: at any moment the next INCR is admitted iff fewer than `daily` have been. */
  lemma AdmittedIffRoomLeft(daily: int, es: seq<Event>, i: nat)
    requires 0 < daily
    requires var s := Run(START, daily, es); i < |s.calls| && s.calls[i].Waiting?
    ensures var s := Run(START, daily, es);
            Next(s, daily, Incr(i)).calls[i].Admitted? <==> Admissions(s) < daily
  {
    EveryInterleaving(daily, es);
  }

  // ---- one uninterrupted call ----

  /** The counter of one key and day; expireAt is 0 until set. */
  class DayKey {
    var counter: int
    var expireAt: int

    constructor ()
      ensures counter == 0 && expireAt == 0
    {
      counter, expireAt := 0, 0;
    }

    method CheckDaily(daily: int, now: int) returns (r: Reply)
      modifies this
      ensures daily <= 0 ==> r == Reply(true, -1, 0, 0) && unchanged(this)
      ensures daily > 0 ==> (r.allowed <==> old(counter) < daily) && r.limit == daily
      ensures daily > 0 ==> counter == old(counter) + if r.allowed then 1 else 0
      ensures daily > 0 && r.allowed ==> r.remaining == daily - counter && r.retryAfter == 0
      ensures !r.allowed ==>
                r.remaining == 0 && 0 < r.retryAfter <= DAY_SECONDS && (now + r.retryAfter) % DAY_SECONDS == 0
      ensures daily > 0 && old(counter) == 0 ==> now < expireAt <= now + DAY_SECONDS && expireAt % DAY_SECONDS == 0
      ensures old(counter) != 0 ==> expireAt == old(expireAt)
    {
      if daily <= 0 {
        return Reply(true, -1, 0, 0);
      }
      var nextDay := now - now % DAY_SECONDS + DAY_SECONDS;
      NextMidnight(now);
      counter := counter + 1;
      var count := counter;
      if count == 1 {
        expireAt := nextDay;
      }
      if count > daily {
        counter := counter - 1;
        return Reply(false, 0, daily, nextDay - now);
      }
      return Reply(true, daily - count, daily, 0);
    }
  }

  lemma NextMidnight(now: int)
    ensures (now - now % DAY_SECONDS + DAY_SECONDS) % DAY_SECONDS == 0
  {
    assert now - now % DAY_SECONDS + DAY_SECONDS == DAY_SECONDS * (now / DAY_SECONDS + 1);
  }
}
