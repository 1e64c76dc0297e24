/** gateway/internal/gateway/usage_handler.go: the ring of sixty one-second buckets
    behind the realtime dashboard, proved against the unbounded log it compresses. */
module UsageRing {

  const MAX_INT64 := 0x7fff_ffff_ffff_ffff

  datatype Bucket = Bucket(requests: int, errors: int, latencySum: int, latencyMax: int, latencyMin: int)

  const EMPTY := Bucket(0, 0, 0, 0, 0)

  datatype Stats = Stats(qpm: int, qps: int, errors: int, avgLatency: real, maxLatency: int, minLatency: int)

  /** One recorded call. `at` is the handler's clock when it was recorded; `slot` is the second
      whose bucket it was put in, which differs from `at` only before the first advance. */
  datatype Event =
    | Request(at: int, slot: int, latency: int)
    | Failure(at: int, slot: int)

  type Log = seq<Event>
  type Selector = Event -> bool

  // ---- the specification: questions about the whole log ----

  function Last(log: Log): Event
    requires log != []
  {
    log[|log| - 1]
  }

  function Init(log: Log): Log
    requires log != []
  {
    log[..|log| - 1]
  }

  function Requests(log: Log, sel: Selector): nat {
    if log == [] then 0 else Requests(Init(log), sel) + if Last(log).Request? && sel(Last(log)) then 1 else 0
  }

  function Errors(log: Log, sel: Selector): nat {
    if log == [] then 0 else Errors(Init(log), sel) + if Last(log).Failure? && sel(Last(log)) then 1 else 0
  }

  function LatencySum(log: Log, sel: Selector): int {
    if log == [] then 0
    else LatencySum(Init(log), sel) + if Last(log).Request? && sel(Last(log)) then Last(log).latency else 0
  }

  /** The largest selected latency, never below zero. */
  function MaxLatency(log: Log, sel: Selector): int {
    if log == [] then 0
    else
      var m := MaxLatency(Init(log), sel);
      if Last(log).Request? && sel(Last(log)) then Max(m, Last(log).latency) else m
  }

  /** What `latencyMin` of one second's bucket holds: zero doubles as "unset". */
  function MinMark(log: Log, s: int): int {
    if log == [] then 0
    else
      var m := MinMark(Init(log), s);
      var e := Last(log);
      if e.Request? && e.slot == s && (m == 0 || e.latency < m) then e.latency else m
  }

  function Max(a: int, b: int): int { if a < b then b else a }

  function Second(s: int): Selector { (e: Event) => e.slot == s }

  /** The sixty seconds that end with second `t`. */
  function Minute(t: int): Selector { (e: Event) => t - 60 < e.slot <= t }

  /** Those of them kept in buckets 0 to r - 1. */
  function Below(t: int, r: int): Selector { (e: Event) => t - 60 < e.slot <= t && e.slot % 60 < r }

  /** The one second of the minute ending at t that bucket j stands for. */
  function SecondOf(t: int, j: int): int { t - (t - j) % 60 }

  ghost predicate Summarises(b: Bucket, log: Log, s: int) {
    && b.requests == Requests(log, Second(s))
    && b.errors == Errors(log, Second(s))
    && b.latencySum == LatencySum(log, Second(s))
    && b.latencyMax == MaxLatency(log, Second(s))
    && b.latencyMin == MinMark(log, s)
  }

  /** A request that still determines its second's minimum: positive, and not followed
      by a zero latency in the same second. */
  ghost predicate Live(log: Log, t: int, i: int) {
    && 0 <= i < |log| && log[i].Request? && t - 60 < log[i].slot <= t && log[i].latency > 0
    && forall k :: i < k < |log| && log[k].Request? && log[k].slot == log[i].slot ==> log[k].latency != 0
  }

  /** m is the least latency of the live requests of the minute ending at t; 0 when there is none. */
  ghost predicate LeastLive(log: Log, t: int, m: int) {
    if m == 0 then forall i :: !Live(log, t, i)
    else (exists i :: Live(log, t, i) && log[i].latency == m) && forall i :: Live(log, t, i) ==> m <= log[i].latency
  }

  ghost predicate Nonnegative(log: Log) {
    forall e <- log :: e.Request? ==> 0 <= e.latency < MAX_INT64
  }

  // ---- arithmetic of the ring ----

  lemma SecondOfIs(t: int, j: int, s: int)
    requires 0 <= j < 60
    ensures s == SecondOf(t, j) <==> t - 60 < s <= t && s % 60 == j
  {
    var d := (t - j) % 60;
    assert t - j == 60 * ((t - j) / 60) + d;
    if t - 60 < s <= t && s % 60 == j {
      var q, p := s / 60, (t - j) / 60;
      assert s == 60 * q + j;
      assert t == 60 * p + d + j;
      assert -60 < 60 * q - 60 * p - d <= 0;
    }
    assert SecondOf(t, j) == 60 * ((t - j) / 60) + j;
  }

  lemma SecondOfNext(t: int, j: int)
    requires 0 <= j < 60
    ensures SecondOf(t + 1, j) == if j == (t + 1) % 60 then t + 1 else SecondOf(t, j)
  {
    SecondOfIs(t, j, SecondOf(t, j));
    SecondOfIs(t + 1, j, t + 1);
    SecondOfIs(t + 1, j, SecondOf(t, j));
  }

  /** One second on, the ring has the bucket of that second empty and the others as they were. */
  lemma StepOver(b: Bucket, log: Log, t: int, j: int)
    requires 0 <= j < 60 && Summarises(b, log, SecondOf(t, j))
    requires forall e <- log :: e.slot <= t
    ensures Summarises(if j == (t + 1) % 60 then EMPTY else b, log, SecondOf(t + 1, j))
  {
    SecondOfNext(t, j);
    NothingSelected(log, t + 1);
  }

  /** A gap cut off at sixty leaves the ring as the whole gap would: all empty. */
  lemma LandsOn(b: Bucket, log: Log, last: int, gap: int, now: int, j: int)
    requires 0 <= j < 60 && gap == (if now - last > 60 then 60 else now - last)
    requires forall e <- log :: e.slot <= last
    requires Summarises(b, log, SecondOf(last + gap, j))
    ensures Summarises(b, log, SecondOf(now, j))
  {
    if gap < now - last {
      SecondOfIs(last + gap, j, SecondOf(last + gap, j));
      SecondOfIs(now, j, SecondOf(now, j));
      NothingSelected(log, SecondOf(last + gap, j));
      NothingSelected(log, SecondOf(now, j));
    }
  }

  // ---- lemmas about selections ----

  lemma {:induction false} Congruent(log: Log, a: Selector, b: Selector)
    requires forall e <- log :: a(e) == b(e)
    ensures Requests(log, a) == Requests(log, b) && Errors(log, a) == Errors(log, b)
    ensures LatencySum(log, a) == LatencySum(log, b) && MaxLatency(log, a) == MaxLatency(log, b)
  {
    if log != [] {
      assert Last(log) in log;
      Congruent(Init(log), a, b);
    }
  }

  /** Every total over a minute splits into the totals of its seconds. */
  lemma {:induction false} Split(log: Log, a: Selector, b: Selector, c: Selector)
    requires forall e <- log :: c(e) == (a(e) || b(e)) && !(a(e) && b(e))
    ensures Requests(log, c) == Requests(log, a) + Requests(log, b)
    ensures Errors(log, c) == Errors(log, a) + Errors(log, b)
    ensures LatencySum(log, c) == LatencySum(log, a) + LatencySum(log, b)
    ensures MaxLatency(log, c) == Max(MaxLatency(log, a), MaxLatency(log, b))
  {
    if log != [] {
      assert Last(log) in log;
      Split(Init(log), a, b, c);
    }
  }

  lemma {:induction false} NothingSelected(log: Log, s: int)
    requires forall e <- log :: e.slot != s
    ensures Summarises(EMPTY, log, s)
  {
    if log != [] {
      assert Last(log) in log;
      NothingSelected(Init(log), s);
    }
  }

  lemma OthersUnchanged(b: Bucket, log: Log, e: Event, s: int)
    requires e.slot != s && Summarises(b, log, s)
    ensures Summarises(b, log + [e], s)
  {
    assert Init(log + [e]) == log;
  }

  /** What one more event does to its second's figures. */
  lemma OneMore(log: Log, e: Event)
    ensures var n, s := log + [e], Second(e.slot);
            && Requests(n, s) == Requests(log, s) + (if e.Request? then 1 else 0)
            && Errors(n, s) == Errors(log, s) + (if e.Failure? then 1 else 0)
            && LatencySum(n, s) == LatencySum(log, s) + (if e.Request? then e.latency else 0)
            && MaxLatency(n, s) == (if e.Request? then Max(MaxLatency(log, s), e.latency) else MaxLatency(log, s))
            && MinMark(n, e.slot) == if e.Request? && (MinMark(log, e.slot) == 0 || e.latency < MinMark(log, e.slot))
                                     then e.latency else MinMark(log, e.slot)
  {
    assert Init(log + [e]) == log;
  }

  lemma {:induction false} NoneBelowZero(log: Log, t: int)
    ensures Requests(log, Below(t, 0)) == Errors(log, Below(t, 0)) == 0
    ensures LatencySum(log, Below(t, 0)) == MaxLatency(log, Below(t, 0)) == 0
  {
    if log != [] {
      NoneBelowZero(Init(log), t);
    }
  }

  lemma PeelBucket(log: Log, t: int, r: int)
    requires 0 <= r < 60
    ensures Requests(log, Below(t, r + 1)) == Requests(log, Below(t, r)) + Requests(log, Second(SecondOf(t, r)))
    ensures Errors(log, Below(t, r + 1)) == Errors(log, Below(t, r)) + Errors(log, Second(SecondOf(t, r)))
    ensures LatencySum(log, Below(t, r + 1)) == LatencySum(log, Below(t, r)) + LatencySum(log, Second(SecondOf(t, r)))
    ensures MaxLatency(log, Below(t, r + 1))
         == Max(MaxLatency(log, Below(t, r)), MaxLatency(log, Second(SecondOf(t, r))))
  {
    forall e <- log
      ensures Below(t, r + 1)(e) == (Below(t, r)(e) || Second(SecondOf(t, r))(e))
      ensures !(Below(t, r)(e) && Second(SecondOf(t, r))(e))
    {
      SecondOfIs(t, r, e.slot);
    }
    Split(log, Below(t, r), Second(SecondOf(t, r)), Below(t, r + 1));
  }

  /** MaxLatency is what its name says. */
  lemma {:induction false} MaxLatencyIsLargest(log: Log, sel: Selector)
    ensures 0 <= MaxLatency(log, sel)
    ensures forall e <- log :: e.Request? && sel(e) ==> e.latency <= MaxLatency(log, sel)
    ensures MaxLatency(log, sel) == 0
         || exists e <- log :: e.Request? && sel(e) && e.latency == MaxLatency(log, sel)
  {
    if log != [] {
      MaxLatencyIsLargest(Init(log), sel);
      assert log == Init(log) + [Last(log)];
    }
  }

  // ---- the minimum and its zero mark ----

  ghost predicate LiveIn(log: Log, s: int, i: int) {
    && 0 <= i < |log| && log[i].Request? && log[i].slot == s && log[i].latency > 0
    && forall k :: i < k < |log| && log[k].Request? && log[k].slot == s ==> log[k].latency != 0
  }

  /** A later zero latency is all that ends a request's life. */
  lemma LiveShift(log: Log, s: int, i: int)
    requires log != [] && i < |log| - 1
    ensures LiveIn(log, s, i)
       <==> LiveIn(Init(log), s, i) && !(Last(log).Request? && Last(log).slot == s && Last(log).latency == 0)
  {
    var front := Init(log);
    assert forall k :: 0 <= k < |front| ==> front[k] == log[k];
  }

  lemma {:induction false} MinMarkBelowLive(log: Log, s: int, i: int)
    requires Nonnegative(log)
    ensures 0 <= MinMark(log, s) < MAX_INT64
    ensures LiveIn(log, s, i) ==> 0 < MinMark(log, s) <= log[i].latency
  {
    if log != [] {
      assert Last(log) in log && forall x <- Init(log) :: x in log;
      MinMarkBelowLive(Init(log), s, i);
      if i < |log| - 1 {
        LiveShift(log, s, i);
      }
    }
  }

  lemma {:induction false} MinMarkIsAttained(log: Log, s: int)
    requires Nonnegative(log) && MinMark(log, s) > 0
    ensures exists i :: LiveIn(log, s, i) && log[i].latency == MinMark(log, s)
  {
    var front, e, n := Init(log), Last(log), |log| - 1;
    assert e in log && forall x <- front :: x in log;
    MinMarkBelowLive(front, s, 0);
    if e.Request? && e.slot == s && e.latency == MinMark(log, s) {
      assert LiveIn(log, s, n);
    } else {
      MinMarkIsAttained(front, s);
      var i :| LiveIn(front, s, i) && front[i].latency == MinMark(front, s);
      LiveShift(log, s, i);
    }
  }

  // ---- the handler ----

  class UsageHandler {
    const buckets: array<Bucket>
    var bucketIdx: int
    var lastTick: int
    ghost const born: int
    ghost var log: Log

    /** The second whose bucket `bucketIdx % 60` is. */
    ghost function Slot(): int
      reads this
    {
      SlotAt(born, lastTick)
    }

    ghost predicate Valid()
      reads this, buckets
    {
      && buckets.Length == 60
      && 0 <= born <= lastTick
      && bucketIdx == (if lastTick == born then 0 else lastTick)
      && Stamped(log, born, lastTick)
      && forall j :: 0 <= j < 60 ==> Summarises(buckets[j], log, SecondOf(lastTick, j))
    }

    constructor (now: int)
      requires 0 <= now
      ensures Valid() && fresh(buckets) && born == lastTick == now && log == []
    {
      buckets := new Bucket[60](_ => EMPTY);
      bucketIdx, lastTick, born, log := 0, now, now, [];
      new;
      forall j | 0 <= j < 60
        ensures Summarises(buckets[j], log, SecondOf(lastTick, j))
      {
        NothingSelected(log, SecondOf(lastTick, j));
      }
    }

    /** Moves the ring to second `now`, clearing the buckets of the seconds passed over. */
    method Advance(now: int)
      requires Valid()
      modifies this`bucketIdx, this`lastTick, buckets
      ensures Valid() && lastTick == Max(old(lastTick), now)
    {
      var last := lastTick;
      if now <= last {
        return;
      }
      lastTick := now;
      var gap := now - last;
      if gap > 60 {
        gap := 60;
      }
      Clear(last, gap);
      bucketIdx := now;
      forall j | 0 <= j < 60
        ensures Summarises(buckets[j], log, SecondOf(now, j))
      {
        LandsOn(buckets[j], log, last, gap, now, j);
      }
    }

    /** The clearing loop: after i turns the ring stands at second last + i. */
    method Clear(last: int, gap: int)
      requires buckets.Length == 60 && 0 <= last && 1 <= gap <= 60
      requires forall e <- log :: e.slot <= last
      requires forall j :: 0 <= j < 60 ==> Summarises(buckets[j], log, SecondOf(last, j))
      modifies buckets
      ensures forall j :: 0 <= j < 60 ==> Summarises(buckets[j], log, SecondOf(last + gap, j))
    {
      var oldIdx := last % 60;
      ghost var t := last;
      var i := 1;
      while i <= gap
        invariant 1 <= i <= gap + 1 && t == last + i - 1
        invariant forall j :: 0 <= j < 60 ==> Summarises(buckets[j], log, SecondOf(t, j))
      {
        var idx := (oldIdx + i) % 60;
        assert idx == (t + 1) % 60;
        ghost var before := buckets[..];
        buckets[idx] := EMPTY;
        forall j | 0 <= j < 60
          ensures Summarises(buckets[j], log, SecondOf(t + 1, j))
        {
          assert Summarises(before[j], log, SecondOf(t, j));
          StepOver(before[j], log, t, j);
        }
        t := t + 1;
        i := i + 1;
      }
    }

    method RecordRequest(now: int, latencyMs: int)
      requires Valid()
      modifies this, buckets
      ensures Valid() && lastTick == Max(old(lastTick), now)
      ensures log == old(log) + [Request(lastTick, Slot(), latencyMs)]
    {
      Advance(now);
      var idx := bucketIdx % 60;
      var b := buckets[idx];
      OneMore(log, Request(lastTick, Slot(), latencyMs));
      SecondOfIs(lastTick, idx, Slot());
      b := b.(requests := b.requests + 1);
      b := b.(latencySum := b.latencySum + latencyMs);
      if !(latencyMs <= b.latencyMax) {
        b := b.(latencyMax := latencyMs);
      }
      if !(b.latencyMin != 0 && latencyMs >= b.latencyMin) {
        b := b.(latencyMin := latencyMs);
      }
      Append(Request(lastTick, Slot(), latencyMs), idx, b);
    }

    method RecordError(now: int)
      requires Valid()
      modifies this, buckets
      ensures Valid() && lastTick == Max(old(lastTick), now)
      ensures log == old(log) + [Failure(lastTick, Slot())]
    {
      Advance(now);
      var idx := bucketIdx % 60;
      var b := buckets[idx];
      OneMore(log, Failure(lastTick, Slot()));
      SecondOfIs(lastTick, idx, Slot());
      b := b.(errors := b.errors + 1);
      Append(Failure(lastTick, Slot()), idx, b);
    }

    /** Stores the updated bucket and extends the ghost log. */
    method Append(ghost e: Event, idx: int, b: Bucket)
      requires Valid() && idx == bucketIdx % 60
      requires e.at == lastTick && e.slot == Slot() && Summarises(b, log + [e], Slot())
      modifies this`log, buckets
      ensures Valid() && log == old(log) + [e]
    {
      forall j | 0 <= j < 60
        ensures j != idx ==> Summarises(buckets[j], log + [e], SecondOf(lastTick, j))
        ensures j == idx ==> SecondOf(lastTick, j) == Slot()
      {
        SecondOfIs(lastTick, j, Slot());
        if j != idx {
          OthersUnchanged(buckets[j], log, e, SecondOf(lastTick, j));
        }
      }
      buckets[idx] := b;
      log := log + [e];
    }

    /** The minute's figures, as questions about the log. */
    method ComputeStats(now: int) returns (st: Stats)
      requires Valid()
      modifies this`bucketIdx, this`lastTick, buckets
      ensures Valid() && lastTick == Max(old(lastTick), now)
      ensures st.qpm == Requests(log, Minute(lastTick))
      ensures st.qps == if lastTick == born then 0 else Requests(log, Second(lastTick - 1))
      ensures st.errors == Errors(log, Minute(lastTick))
      ensures st.avgLatency == Average(LatencySum(log, Minute(lastTick)), Requests(log, Minute(lastTick)))
      ensures st.maxLatency == MaxLatency(log, Minute(lastTick))
      ensures Nonnegative(log) ==> LeastLive(log, lastTick, st.minLatency)
    {
      Advance(now);
      st := Collect();
    }

    /** The part of ComputeStats after the advance. */
    method Collect() returns (st: Stats)
      requires Valid()
      ensures st.qpm == Requests(log, Minute(lastTick))
      ensures st.qps == if lastTick == born then 0 else Requests(log, Second(lastTick - 1))
      ensures st.errors == Errors(log, Minute(lastTick))
      ensures st.avgLatency == Average(LatencySum(log, Minute(lastTick)), Requests(log, Minute(lastTick)))
      ensures st.maxLatency == MaxLatency(log, Minute(lastTick))
      ensures Nonnegative(log) ==> LeastLive(log, lastTick, st.minLatency)
    {
      var totalReq, totalErr, totalLat, maxLat := 0, 0, 0, 0;
      var minLat := MAX_INT64;
      var prevIdx := (bucketIdx - 1 + 60) % 60;
      var lastSecReq := 0;
      ghost var t := lastTick;
      NoneBelowZero(log, t);
      var i := 0;
      while i < 60
        invariant 0 <= i <= 60
        invariant TotalsBelow(log, t, i, totalReq, totalErr, totalLat, maxLat, minLat)
        invariant lastSecReq == if prevIdx < i then Requests(log, Second(SecondOf(t, prevIdx))) else 0
      {
        NextBucket(log, t, i, totalReq, totalErr, totalLat, maxLat, minLat, buckets[i]);
        var req := buckets[i].requests;
        totalReq := totalReq + req;
        totalErr := totalErr + buckets[i].errors;
        totalLat := totalLat + buckets[i].latencySum;
        var mx := buckets[i].latencyMax;
        if mx > maxLat {
          maxLat := mx;
        }
        var mn := buckets[i].latencyMin;
        if mn > 0 && mn < minLat {
          minLat := mn;
        }
        if i == prevIdx {
          lastSecReq := req;
        }
        i := i + 1;
      }
      Congruent(log, Below(t, 60), Minute(t));
      PreviousSecond(log, born, t, prevIdx);
      if Nonnegative(log) {
        LeastOverSeconds(log, t, minLat);
      }
      if minLat == MAX_INT64 {
        minLat := 0;
      }
      var avg := 0.0;
      if totalReq > 0 {
        avg := totalLat as real / totalReq as real;
      }
      st := Stats(totalReq, lastSecReq, totalErr, avg, maxLat, minLat);
    }
  }

  /** The second recorded into when the handler, born at `born`, has its clock at t. */
  function SlotAt(born: int, t: int): int { if t == born then born - born % 60 else t }

  ghost predicate Stamped(log: Log, born: int, t: int) {
    forall e <- log :: born <= e.at <= t && e.slot == SlotAt(born, e.at)
  }

  lemma PreviousSecond(log: Log, born: int, t: int, prevIdx: int)
    requires 0 <= born <= t && Stamped(log, born, t)
    requires prevIdx == ((if t == born then 0 else t) - 1 + 60) % 60
    ensures Requests(log, Second(SecondOf(t, prevIdx))) == if t == born then 0 else Requests(log, Second(t - 1))
  {
    SecondOfIs(t, prevIdx, t - 1);
    SecondOfIs(t, prevIdx, SecondOf(t, prevIdx));
    if t == born {
      NothingSelected(log, SecondOf(t, prevIdx));
    }
  }

  /** The least positive mark of buckets 0 to r - 1; the largest int64 when there is none. */
  ghost predicate LeastMark(log: Log, t: int, r: int, m: int) {
    && 0 < m <= MAX_INT64
    && (m < MAX_INT64 ==> exists j :: 0 <= j < r && MinMark(log, SecondOf(t, j)) == m)
    && forall j :: 0 <= j < r && MinMark(log, SecondOf(t, j)) > 0 ==> m <= MinMark(log, SecondOf(t, j))
  }

  /** The five running totals over buckets 0 to r - 1. */
  ghost predicate TotalsBelow(log: Log, t: int, r: int, requests: int, errors: int, latency: int,
                               largest: int, least: int) {
    && requests == Requests(log, Below(t, r))
    && errors == Errors(log, Below(t, r))
    && latency == LatencySum(log, Below(t, r))
    && largest == MaxLatency(log, Below(t, r))
    && LeastMark(log, t, r, least)
  }

  lemma NextBucket(log: Log, t: int, r: int, requests: int, errors: int, latency: int,
                   largest: int, least: int, b: Bucket)
    requires 0 <= r < 60 && TotalsBelow(log, t, r, requests, errors, latency, largest, least)
    requires Summarises(b, log, SecondOf(t, r))
    ensures TotalsBelow(log, t, r + 1, requests + b.requests, errors + b.errors, latency + b.latencySum,
                        Max(largest, b.latencyMax), if 0 < b.latencyMin < least then b.latencyMin else least)
  {
    PeelBucket(log, t, r);
    NextMark(log, t, r, least);
  }

  lemma NextMark(log: Log, t: int, r: int, m: int)
    requires 0 <= r && LeastMark(log, t, r, m)
    ensures var mark := MinMark(log, SecondOf(t, r));
            LeastMark(log, t, r + 1, if 0 < mark < m then mark else m)
  {}

  function Average(total: int, n: int): real {
    if n > 0 then total as real / n as real else 0.0
  }

  lemma LeastOverSeconds(log: Log, t: int, m: int)
    requires Nonnegative(log) && LeastMark(log, t, 60, m)
    ensures LeastLive(log, t, if m == MAX_INT64 then 0 else m)
  {
    forall i | Live(log, t, i)
      ensures m < MAX_INT64 && m <= log[i].latency
    {
      var s, j := log[i].slot, log[i].slot % 60;
      SecondOfIs(t, j, s);
      MinMarkBelowLive(log, s, i);
      assert LiveIn(log, s, i);
      assert MinMark(log, SecondOf(t, j)) == MinMark(log, s);
    }
    if m < MAX_INT64 {
      var j :| 0 <= j < 60 && MinMark(log, SecondOf(t, j)) == m;
      var s := SecondOf(t, j);
      SecondOfIs(t, j, s);
      MinMarkIsAttained(log, s);
      var i :| LiveIn(log, s, i) && log[i].latency == m;
      assert Live(log, t, i);
    }
  }

  /** The reported minimum is the least positive latency of the minute exactly when some request with
      that latency was not followed by a zero latency in its second. */
  lemma MinLatencyIsTrueIff(log: Log, t: int, m: int, least: int)
    requires Nonnegative(log) && LeastLive(log, t, m)
    requires exists i :: InMinute(log, t, i) && log[i].latency == least
    requires forall i :: InMinute(log, t, i) ==> least <= log[i].latency
    ensures m == least <==> exists i :: Live(log, t, i) && log[i].latency == least
  {
    assert forall i :: Live(log, t, i) ==> InMinute(log, t, i);
  }

  ghost predicate InMinute(log: Log, t: int, i: int) {
    0 <= i < |log| && log[i].Request? && t - 60 < log[i].slot <= t && log[i].latency > 0
  }

  // ---- the ring against the true log ----

  /** The sixty seconds ending at t by the time a call was made, whatever bucket it went to. */
  function TrueMinute(t: int): Selector { (e: Event) => t - 60 < e.at <= t }

  function MadeAt(s: int): Selector { (e: Event) => e.at == s }

  /** The calls made in the birth second, if the minute ending at t takes the second s for theirs. */
  function BirthPart(born: int, t: int, s: int): Selector { (e: Event) => e.at == born && t - 60 < s }

  function Later(born: int, t: int): Selector { (e: Event) => e.at != born && t - 60 < e.at <= t }

  /** Ring and truth differ only in whether the calls of the birth second are still in the minute: the ring
      files them under bucket 0. */
  lemma MinuteSplits(log: Log, born: int, t: int)
    requires 0 <= born <= t && Stamped(log, born, t)
    ensures Requests(log, Minute(t))
         == Requests(log, Later(born, t)) + Requests(log, BirthPart(born, t, born - born % 60))
    ensures Requests(log, TrueMinute(t)) == Requests(log, Later(born, t)) + Requests(log, BirthPart(born, t, born))
    ensures Errors(log, Minute(t)) == Errors(log, Later(born, t)) + Errors(log, BirthPart(born, t, born - born % 60))
    ensures Errors(log, TrueMinute(t)) == Errors(log, Later(born, t)) + Errors(log, BirthPart(born, t, born))
    ensures LatencySum(log, Minute(t))
         == LatencySum(log, Later(born, t)) + LatencySum(log, BirthPart(born, t, born - born % 60))
    ensures LatencySum(log, TrueMinute(t))
         == LatencySum(log, Later(born, t)) + LatencySum(log, BirthPart(born, t, born))
    ensures MaxLatency(log, Minute(t))
         == Max(MaxLatency(log, Later(born, t)), MaxLatency(log, BirthPart(born, t, born - born % 60)))
    ensures MaxLatency(log, TrueMinute(t))
         == Max(MaxLatency(log, Later(born, t)), MaxLatency(log, BirthPart(born, t, born)))
  {
    Split(log, Later(born, t), BirthPart(born, t, born - born % 60), Minute(t));
    Split(log, Later(born, t), BirthPart(born, t, born), TrueMinute(t));
  }

  lemma BirthPartIs(log: Log, born: int, t: int, s: int)
    ensures Requests(log, BirthPart(born, t, s)) == if t - 60 < s then Requests(log, MadeAt(born)) else 0
    ensures Errors(log, BirthPart(born, t, s)) == if t - 60 < s then Errors(log, MadeAt(born)) else 0
    ensures LatencySum(log, BirthPart(born, t, s)) == if t - 60 < s then LatencySum(log, MadeAt(born)) else 0
    ensures MaxLatency(log, BirthPart(born, t, s)) == if t - 60 < s then MaxLatency(log, MadeAt(born)) else 0
  {
    if t - 60 < s {
      Congruent(log, BirthPart(born, t, s), MadeAt(born));
    } else {
      Congruent(log, BirthPart(born, t, s), (e: Event) => false);
      Nothing(log);
    }
  }

  lemma {:induction false} Nothing(log: Log)
    ensures Requests(log, (e: Event) => false) == Errors(log, (e: Event) => false) == 0
    ensures LatencySum(log, (e: Event) => false) == MaxLatency(log, (e: Event) => false) == 0
  {
    if log != [] {
      Nothing(Init(log));
    }
  }

  /** Bucket 0 has not come round since the birth, or the birth second has left the minute anyway. */
  predicate Aligned(born: int, t: int) { t < born - born % 60 + 60 || born + 60 <= t }

  /** Each figure of the minute is the true one exactly when ring and truth treat the birth second alike, or
      its calls leave no trace in that figure; so is the previous second's count, when it is not the birth
      second or that was bucket 0's own. */
  lemma RingIsTrueIff(log: Log, born: int, t: int)
    requires 0 <= born <= t && Stamped(log, born, t)
    ensures Requests(log, Minute(t)) == Requests(log, TrueMinute(t))
       <==> Aligned(born, t) || Requests(log, MadeAt(born)) == 0
    ensures Errors(log, Minute(t)) == Errors(log, TrueMinute(t))
       <==> Aligned(born, t) || Errors(log, MadeAt(born)) == 0
    ensures LatencySum(log, Minute(t)) == LatencySum(log, TrueMinute(t))
       <==> Aligned(born, t) || LatencySum(log, MadeAt(born)) == 0
    ensures MaxLatency(log, Minute(t)) == MaxLatency(log, TrueMinute(t))
       <==> Aligned(born, t) || MaxLatency(log, MadeAt(born)) <= MaxLatency(log, Later(born, t))
  {
    MinuteSplits(log, born, t);
    BirthPartIs(log, born, t, born);
    BirthPartIs(log, born, t, born - born % 60);
    MaxLatencyIsLargest(log, MadeAt(born));
    MaxLatencyIsLargest(log, Later(born, t));
  }

  /** What ComputeStats reports as the previous second's count is the true one iff that second is not the birth
      second, or the birth second is bucket 0's own, or nothing was recorded in it. */
  lemma QpsIsTrueIff(log: Log, born: int, t: int)
    requires 0 <= born <= t && Stamped(log, born, t)
    ensures (if t == born then 0 else Requests(log, Second(t - 1))) == Requests(log, MadeAt(t - 1))
       <==> t != born + 1 || born % 60 == 0 || Requests(log, MadeAt(born)) == 0
  {
    if t == born {
      Congruent(log, MadeAt(t - 1), (e: Event) => false);
      Nothing(log);
    } else if t == born + 1 && born % 60 != 0 {
      Congruent(log, Second(t - 1), (e: Event) => false);
      Nothing(log);
    } else {
      Congruent(log, Second(t - 1), MadeAt(t - 1));
    }
  }

  /** A request in the true minute that still determines its second's minimum. */
  ghost predicate TrueLive(log: Log, t: int, i: int) {
    && 0 <= i < |log| && log[i].Request? && t - 60 < log[i].at <= t && log[i].latency > 0
    && forall k :: i < k < |log| && log[k].Request? && log[k].at == log[i].at ==> log[k].latency != 0
  }

  ghost predicate TrueLeast(log: Log, t: int, m: int) {
    if m == 0 then forall i :: !TrueLive(log, t, i)
    else (exists i :: TrueLive(log, t, i) && log[i].latency == m)
         && forall i :: TrueLive(log, t, i) ==> m <= log[i].latency
  }

  // the average

  lemma {:induction false} NoneNoSum(log: Log, sel: Selector)
    ensures Requests(log, sel) == 0 ==> LatencySum(log, sel) == 0
  {
    if log != [] {
      NoneNoSum(Init(log), sel);
    }
  }

  lemma SameRatio(a: int, n: nat, b: int, m: nat)
    requires 0 < n
    ensures a as real / n as real == (a + b) as real / (n + m) as real <==> a * m == b * n
  {
    var x, y := a as real / n as real, (a + b) as real / (n + m) as real;
    assert x * n as real == a as real && y * (n + m) as real == (a + b) as real;
    assert (a * (n + m)) as real == x * n as real * (n + m) as real;
    assert ((a + b) * n) as real == y * (n + m) as real * n as real;
    assert (n * (n + m)) as real > 0.0;
    if a * m == b * n {
      assert a * (n + m) == (a + b) * n;
      SameFactor(x, y, n as real * (n + m) as real);
    }
    if x == y {
      assert (a * (n + m)) as real == ((a + b) * n) as real;
      assert a * (n + m) == (a + b) * n;
    }
  }

  lemma SameFactor(x: real, y: real, f: real)
    requires x * f == y * f && f != 0.0
    ensures x == y
  {
    assert (x - y) * f == 0.0;
  }

  lemma AverageAlikeIff(sum: int, n: nat, extra: int, m: nat)
    requires (n == 0 ==> sum == 0) && (m == 0 ==> extra == 0)
    ensures Average(sum, n) == Average(sum + extra, n + m) <==> sum * m == extra * n && (n == 0 ==> extra == 0)
  {
    if n > 0 {
      SameRatio(sum, n, extra, m);
    } else if m > 0 {
      var x := extra as real / m as real;
      assert x * m as real == extra as real;
    }
  }

  /** The average is the true one iff ring and truth treat the birth second alike, or its calls have the average of
      the later ones, or there are none later and they took no time. */
  lemma AverageIsTrueIff(log: Log, born: int, t: int)
    requires 0 <= born <= t && Stamped(log, born, t)
    ensures var (n, sum) := (Requests(log, Later(born, t)), LatencySum(log, Later(born, t)));
            var (m, extra) := (Requests(log, MadeAt(born)), LatencySum(log, MadeAt(born)));
            Average(LatencySum(log, Minute(t)), Requests(log, Minute(t)))
              == Average(LatencySum(log, TrueMinute(t)), Requests(log, TrueMinute(t)))
            <==> Aligned(born, t) || (sum * m == extra * n && (n == 0 ==> extra == 0))
  {
    MinuteSplits(log, born, t);
    BirthPartIs(log, born, t, born);
    BirthPartIs(log, born, t, born - born % 60);
    NoneNoSum(log, Later(born, t));
    NoneNoSum(log, MadeAt(born));
    AverageAlikeIff(LatencySum(log, Later(born, t)), Requests(log, Later(born, t)),
                    LatencySum(log, MadeAt(born)), Requests(log, MadeAt(born)));
  }

  // the minimum

  /** A request of the birth second that still determines its minimum. */
  ghost predicate BirthLive(log: Log, born: int, i: int) {
    && 0 <= i < |log| && log[i].Request? && log[i].at == born && log[i].latency > 0
    && forall k :: i < k < |log| && log[k].Request? && log[k].at == born ==> log[k].latency != 0
  }

  lemma LiveAt(log: Log, born: int, t: int, i: int)
    requires 0 <= born <= t && Stamped(log, born, t) && 0 <= i < |log|
    ensures log[i].at == born ==> (Live(log, t, i) <==> BirthLive(log, born, i) && t - 60 < born - born % 60)
    ensures log[i].at == born ==> (TrueLive(log, t, i) <==> BirthLive(log, born, i) && t - 60 < born)
    ensures log[i].at != born ==> (Live(log, t, i) <==> TrueLive(log, t, i))
  {
    forall k | 0 <= k < |log|
      ensures log[k].slot == SlotAt(born, log[k].at) && born <= log[k].at
    {
      assert log[k] in log;
    }
  }

  /** The minimum is the true one (zeros erasing it alike) iff ring and truth treat the birth second alike, or no
      request still live there is below what is reported. */
  lemma MinimumIsTrueIff(log: Log, born: int, t: int, m: int)
    requires 0 <= born <= t && Stamped(log, born, t) && LeastLive(log, t, m)
    ensures TrueLeast(log, t, m)
       <==> Aligned(born, t) || forall i :: BirthLive(log, born, i) ==> 0 < m <= log[i].latency
  {
    forall i | 0 <= i < |log|
      ensures log[i].at == born ==> (Live(log, t, i) <==> BirthLive(log, born, i) && t - 60 < born - born % 60)
      ensures log[i].at == born ==> (TrueLive(log, t, i) <==> BirthLive(log, born, i) && t - 60 < born)
      ensures log[i].at != born ==> (Live(log, t, i) <==> TrueLive(log, t, i))
    {
      LiveAt(log, born, t, i);
    }
    if Aligned(born, t) {
      assert forall i :: Live(log, t, i) <==> TrueLive(log, t, i);
    } else {
      assert forall i :: TrueLive(log, t, i) <==> Live(log, t, i) || BirthLive(log, born, i);
    }
  }

  // all of them

  /** Once nothing was recorded before the first advance, or the handler was born on a whole minute,
      every figure is the true log's, for any gaps between calls. */
  lemma RingIsTrueLog(log: Log, born: int, t: int)
    requires 0 <= born <= t && Stamped(log, born, t)
    requires born % 60 == 0 || forall e <- log :: e.at != born
    ensures Requests(log, Minute(t)) == Requests(log, TrueMinute(t))
    ensures Errors(log, Minute(t)) == Errors(log, TrueMinute(t))
    ensures LatencySum(log, Minute(t)) == LatencySum(log, TrueMinute(t))
    ensures MaxLatency(log, Minute(t)) == MaxLatency(log, TrueMinute(t))
    ensures Requests(log, Second(t - 1)) == Requests(log, MadeAt(t - 1))
    ensures forall m :: LeastLive(log, t, m) <==> TrueLeast(log, t, m)
  {
    Congruent(log, Minute(t), TrueMinute(t));
    Congruent(log, Second(t - 1), MadeAt(t - 1));
    forall i
      ensures Live(log, t, i) == TrueLive(log, t, i)
    {
      assert forall k :: 0 <= k < |log| ==> log[k] in log;
    }
  }
}
