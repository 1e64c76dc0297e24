/** gateway/internal/auth/ratelimit.go, CheckRPM: the sliding log kept in a Redis sorted set.
    The stored set is trimmed and expires; it is proved to decide as the full log of admissions does. */
module RpmLimiter {
  import opened Common

  const WINDOW := 60

  /** A sorted-set member: the time it was admitted, and the random suffix of its name. */
  datatype Member = Member(score: int, nonce: int)

  datatype Reply = Reply(allowed: bool, remaining: int, limit: int, retryAfterMs: int)

  // ---- the specification: every admission ever made, in order ----

  type Log = seq<Member>

  function Members(log: Log): set<Member> { set m <- log }

  function Live(s: set<Member>, now: int): set<Member> { set m <- s | now - WINDOW < m.score }

  /** Would a request at `now` be admitted? */
  predicate Admits(log: Log, rpm: int, now: int) { |Live(Members(log), now)| < rpm }

  ghost predicate IsOldest(s: set<Member>, m: Member) {
    m in s && forall x <- s :: m.score <= x.score
  }

  function Front(log: Log): Log
    requires log != []
  {
    log[..|log| - 1]
  }

  function Newest(log: Log): Member
    requires log != []
  {
    log[|log| - 1]
  }

  /** Every entry was admitted, under this limit and on a clock that never runs backwards,
      given the entries before it. */
  ghost predicate Governed(log: Log, rpm: int) {
    log != [] ==>
      && Governed(Front(log), rpm)
      && Admits(Front(log), rpm, Newest(log).score)
      && forall m <- Front(log) :: m.score <= Newest(log).score
  }

  ghost predicate Distinct(log: Log) {
    log != [] ==> Distinct(Front(log)) && Newest(log) !in Front(log)
  }

  /** Admissions in the half-open window of sixty seconds from second a. */
  function InWindow(log: Log, a: int): nat {
    if log == [] then 0
    else InWindow(Front(log), a) + if a <= Newest(log).score < a + 60 then 1 else 0
  }

  /** Those of them whose member name had already been taken, so that ZADD added nothing. */
  function Repeats(log: Log, a: int): nat {
    if log == [] then 0
    else
      var front, m := Front(log), Newest(log);
      Repeats(front, a) + if a <= m.score < a + 60 && m in front then 1 else 0
  }

  function Between(s: set<Member>, a: int): set<Member> { set m <- s | a <= m.score < a + 60 }

  // ---- the bound on every window ----

  lemma {:induction false} WindowCount(log: Log, a: int)
    ensures InWindow(log, a) == |Between(Members(log), a)| + Repeats(log, a)
  {
    if log != [] {
      var front, m := Front(log), Newest(log);
      WindowCount(front, a);
      assert Members(log) == Members(front) + {m};
      if a <= m.score < a + 60 {
        assert Between(Members(log), a) == Between(Members(front), a) + {m};
        assert m in Between(Members(front), a) <==> m in front;
      } else {
        assert Between(Members(log), a) == Between(Members(front), a);
      }
    }
  }

  lemma {:induction false} NoRepeats(log: Log, a: int)
    requires Distinct(log)
    ensures Repeats(log, a) == 0
  {
    if log != [] {
      NoRepeats(Front(log), a);
    }
  }

  lemma AdmittedWindow(front: Log, m: Member, rpm: int, a: int)
    requires Admits(front, rpm, m.score) && a <= m.score < a + 60
    ensures |Between(Members(front), a) + {m}| <= rpm
  {
    SubsetSize(Between(Members(front), a), Live(Members(front), m.score));
  }

  /** Whatever the random suffixes, no window holds more than rpm distinct members. */
  lemma {:induction false} DistinctBound(log: Log, rpm: int, a: int)
    requires Governed(log, rpm) && 0 <= rpm
    ensures |Between(Members(log), a)| <= rpm
    ensures InWindow(log, a) - Repeats(log, a) <= rpm
  {
    WindowCount(log, a);
    if log == [] {
      assert Between(Members(log), a) == {};
    } else {
      var front, m := Front(log), Newest(log);
      assert Between(Members(log), a) == Between(Members(front) + {m}, a);
      if a <= m.score < a + 60 {
        AdmittedWindow(front, m, rpm, a);
        assert Between(Members(log), a) == Between(Members(front), a) + {m};
      } else {
        DistinctBound(front, rpm, a);
        assert Between(Members(log), a) == Between(Members(front), a);
      }
    }
  }

  /** Under a limit of one an admission needs an empty window, so no name can be taken twice. */
  lemma {:induction false} LimitOneIsDistinct(log: Log)
    requires Governed(log, 1)
    ensures Distinct(log)
  {
    if log != [] {
      LimitOneIsDistinct(Front(log));
      assert Newest(log) !in Live(Members(Front(log)), Newest(log).score);
    }
  }

  /** At most rpm admissions in any window of sixty seconds. */
  lemma WindowBound(log: Log, rpm: int, a: int)
    requires Governed(log, rpm) && 0 < rpm
    requires Distinct(log) || rpm == 1
    ensures InWindow(log, a) <= rpm
  {
    if rpm == 1 {
      LimitOneIsDistinct(log);
    }
    DistinctBound(log, rpm, a);
    NoRepeats(log, a);
  }

  /** Without distinct names the bound fails for every limit of two or more: calls that keep
      drawing the same suffix in the same second are admitted without end. */
  lemma {:induction false} RepeatedNameDefeatsLimit(rpm: int, t: int, n: nat)
    requires 2 <= rpm
    ensures Governed(seq(n, _ => Member(t, 0)), rpm) && InWindow(seq(n, _ => Member(t, 0)), t) == n
  {
    if n > 0 {
      var log := seq(n, _ => Member(t, 0));
      RepeatedNameDefeatsLimit(rpm, t, n - 1);
      assert Front(log) == seq(n - 1, _ => Member(t, 0));
      SubsetSize(Live(Members(Front(log)), t), {Member(t, 0)});
    }
  }

  /** So a limit bounds the window whatever the names iff it is one. */
  lemma WindowBoundIff(rpm: int)
    requires 0 < rpm
    ensures (forall log, a :: Governed(log, rpm) ==> InWindow(log, a) <= rpm) <==> rpm == 1
  {
    if rpm == 1 {
      forall log, a | Governed(log, rpm)
        ensures InWindow(log, a) <= rpm
      {
        WindowBound(log, rpm, a);
      }
    } else {
      RepeatedNameDefeatsLimit(rpm, 0, rpm + 1);
    }
  }

  // ---- one suffix only ----

  /** Every call drew the same suffix, and none came after now. */
  ghost predicate Uniform(log: Log, now: int) {
    forall m <- log :: m.nonce == 0 && m.score <= now
  }

  /** The seconds of the window ending at now that saw an admission. */
  function BusySeconds(log: Log, now: int): set<int> { set m <- Live(Members(log), now) :: m.score }

  lemma {:induction false} ScoresOf(s: set<Member>)
    requires forall m <- s :: m.nonce == 0
    ensures |set m <- s :: m.score| == |s|
  {
    if s != {} {
      var x :| x in s;
      ScoresOf(s - {x});
      assert (set m <- s :: m.score) == (set m <- s - {x} :: m.score) + {x.score};
    }
  }

  lemma {:induction false} IntervalSize(s: set<int>, from: int, n: nat)
    requires forall x <- s :: from < x <= from + n
    ensures |s| <= n
  {
    if n == 0 {
      assert forall x :: x !in s;
    } else {
      IntervalSize(s - {from + n}, from, n - 1);
      SubsetSize(s, (s - {from + n}) + {from + n});
    }
  }

  /** With one suffix the limiter counts busy seconds: a request is admitted iff fewer than rpm of the last
      sixty saw an admission. */
  lemma UniformAdmitsIff(log: Log, rpm: int, now: int)
    requires Uniform(log, now)
    ensures Admits(log, rpm, now) <==> |BusySeconds(log, now)| < rpm
    ensures |BusySeconds(log, now)| <= WINDOW
  {
    ScoresOf(Live(Members(log), now));
    IntervalSize(BusySeconds(log, now), now - WINDOW, WINDOW);
  }

  /** One admission a second for n seconds. */
  function EachSecond(n: nat): Log { seq(n, i => Member(i, 0)) }

  lemma EachSecondAt(n: nat)
    requires 0 < n
    ensures Front(EachSecond(n)) == EachSecond(n - 1) && Newest(EachSecond(n)) == Member(n - 1, 0)
    ensures forall m <- EachSecond(n) :: 0 <= m.score < n && m.nonce == 0
    ensures Members(EachSecond(n)) == Members(EachSecond(n - 1)) + {Member(n - 1, 0)}
  {
    var log := EachSecond(n);
    assert log == EachSecond(n - 1) + [Member(n - 1, 0)];
  }

  lemma {:induction false} EachSecondSize(n: nat)
    ensures |Members(EachSecond(n))| == n
  {
    if n > 0 {
      EachSecondSize(n - 1);
      EachSecondAt(n);
      if n > 1 {
        EachSecondAt(n - 1);
      }
      assert Member(n - 1, 0) !in Members(EachSecond(n - 1));
    }
  }

  lemma {:induction false} EachSecondIsGoverned(rpm: int, n: nat)
    requires n <= rpm
    ensures Governed(EachSecond(n), rpm)
  {
    if n > 0 {
      EachSecondIsGoverned(rpm, n - 1);
      EachSecondAt(n);
      EachSecondSize(n - 1);
      var front := EachSecond(n - 1);
      SubsetSize(Live(Members(front), n - 1), Members(front));
      assert forall m <- front :: m in EachSecond(n);
    }
  }

  /** So above sixty it never refuses, and up to sixty some run of it does. */
  lemma UniformRefusesIff(rpm: int)
    requires 0 < rpm
    ensures (exists log, now :: Governed(log, rpm) && Uniform(log, now) && !Admits(log, rpm, now)) <==> rpm <= WINDOW
  {
    if rpm <= WINDOW {
      var log := EachSecond(rpm);
      EachSecondIsGoverned(rpm, rpm);
      EachSecondAt(rpm);
      EachSecondSize(rpm);
      assert Live(Members(log), rpm - 1) == Members(log);
      assert Uniform(log, rpm - 1) && !Admits(log, rpm, rpm - 1);
    } else {
      forall log, now | Uniform(log, now)
        ensures Admits(log, rpm, now)
      {
        UniformAdmitsIff(log, rpm, now);
      }
    }
  }

  // ---- the retry-after promise ----

  /** The answer names the moment the oldest live admission leaves the window. */
  ghost predicate Promised(retryAfterMs: int, log: Log, now: int) {
    exists m :: IsOldest(Live(Members(log), now), m) && retryAfterMs == (m.score + WINDOW - now) * 1000
  }

  lemma GovernedIsFull(log: Log, rpm: int, now: int)
    requires Governed(log, rpm) && 0 <= rpm
    requires forall m <- log :: m.score <= now
    ensures |Live(Members(log), now)| <= rpm
  {
    DistinctBound(log, rpm, now - WINDOW + 1);
    assert Live(Members(log), now) == Between(Members(log), now - WINDOW + 1);
  }

  /** For any log: with nothing admitted meanwhile, every request before the promised moment is
      refused, and the one at that moment is admitted iff fewer than rpm members are younger. */
  lemma RetryAfterIff(log: Log, rpm: int, now: int, oldest: Member)
    requires 0 < rpm && !Admits(log, rpm, now)
    requires forall m <- log :: m.score <= now
    requires IsOldest(Live(Members(log), now), oldest)
    ensures 0 < oldest.score + WINDOW - now <= WINDOW
    ensures forall t :: now <= t < oldest.score + WINDOW ==> !Admits(log, rpm, t)
    ensures Admits(log, rpm, oldest.score + WINDOW)
       <==> |set m <- Live(Members(log), now) | oldest.score < m.score| < rpm
  {
    forall t | now <= t < oldest.score + WINDOW
      ensures !Admits(log, rpm, t)
    {
      assert Live(Members(log), t) == Live(Members(log), now);
    }
    assert Live(Members(log), oldest.score + WINDOW) == set m <- Live(Members(log), now) | oldest.score < m.score;
  }

  /** Under a fixed limit the promised moment is exactly the first at which a request is admitted. */
  lemma RetryAfterExact(log: Log, rpm: int, now: int, oldest: Member)
    requires 0 < rpm && Governed(log, rpm) && !Admits(log, rpm, now)
    requires forall m <- log :: m.score <= now
    requires IsOldest(Live(Members(log), now), oldest)
    ensures forall t :: now <= t < oldest.score + WINDOW ==> !Admits(log, rpm, t)
    ensures Admits(log, rpm, oldest.score + WINDOW)
  {
    RetryAfterIff(log, rpm, now, oldest);
    GovernedIsFull(log, rpm, now);
    var live := Live(Members(log), now);
    var younger := set m <- live | oldest.score < m.score;
    assert oldest !in younger;
    SubsetSize(younger + {oldest}, live);
  }

  // ---- the stored set ----

  lemma Admitted(log: Log, m: Member)
    requires forall x <- log :: x.score <= m.score
    ensures Members(log + [m]) == Members(log) + {m}
    ensures forall rpm :: Governed(log, rpm) && Admits(log, rpm, m.score) ==> Governed(log + [m], rpm)
  {
    assert Front(log + [m]) == log;
  }

  /** Neither trimming nor expiry removes a member that is still in the window. */
  lemma StoredIsLive(zset: set<Member>, expireAt: int, log: Log, clock: int, now: int)
    requires clock <= now && Live(Members(log), clock) <= zset <= Members(log)
    requires forall m <- zset :: m.score + WINDOW < expireAt
    ensures expireAt <= now ==> Live(Members(log), now) == {}
    ensures Live(zset, now) == Live(Members(log), now)
  {
    forall m <- Live(Members(log), now)
      ensures m in zset
    {
      assert m in Live(Members(log), clock);
    }
  }

  lemma {:induction false} OldestExists(s: set<Member>)
    requires s != {}
    ensures exists m :: IsOldest(s, m)
  {
    var x :| x in s;
    if s == {x} {
      assert IsOldest(s, x);
    } else {
      OldestExists(s - {x});
      var y :| IsOldest(s - {x}, y);
      assert IsOldest(s, if x.score < y.score then x else y);
    }
  }

  /** One API key's sorted set in Redis. */
  class RpmKey {
    var zset: set<Member>
    var expireAt: int
    ghost var log: Log    // every admission so far
    ghost var clock: int  // the latest time the script ran

    ghost predicate Valid()
      reads this
    {
      && (forall m <- log :: m.score <= clock)
      && Live(Members(log), clock) <= zset <= Members(log)
      && (forall m <- zset :: m.score + WINDOW < expireAt)
    }

    constructor (now: int)
      ensures Valid() && log == [] && clock == now
    {
      zset, expireAt, log, clock := {}, 0, [], now;
    }

    /** slidingWindowLua, one atomic step: {allowed, count, retry_after}. */
    method SlidingWindow(limit: int, now: int, nonce: int) returns (allowed: bool, count: int, retryAfter: int)
      requires Valid() && clock <= now && 0 < limit
      modifies this
      ensures Valid() && clock == now
      ensures allowed <==> old(Admits(log, limit, now))
      ensures count == |Live(Members(old(log)), now)| + if allowed then 1 else 0
      ensures log == if allowed then old(log) + [Member(now, nonce)] else old(log)
      ensures if allowed then retryAfter == 0 else Promised(retryAfter, log, now)
    {
      StoredIsLive(zset, expireAt, log, clock, now);
      if expireAt <= now {
        zset := {};  // EXPIRE has removed the key
      }
      zset := Live(zset, now);  // ZREMRANGEBYSCORE key -inf (now - window)
      clock := now;
      count := |zset|;
      if count < limit {
        Admitted(log, Member(now, nonce));
        zset := zset + {Member(now, nonce)};
        expireAt := now + WINDOW + 1;
        log := log + [Member(now, nonce)];
        return true, count + 1, 0;
      }
      retryAfter := UntilOldestLeaves(now);
      return false, count, retryAfter;
    }

    /** ZRANGE key 0 0 WITHSCORES, and the wait until that member leaves the window. */
    method UntilOldestLeaves(now: int) returns (retryAfter: int)
      requires zset != {}
      ensures exists m :: IsOldest(zset, m) && retryAfter == (m.score + WINDOW - now) * 1000
    {
      OldestExists(zset);
      var oldest :| oldest in zset && forall x <- zset :: oldest.score <= x.score;
      assert IsOldest(zset, oldest);
      retryAfter := (oldest.score + WINDOW - now) * 1000;
    }

    /** Decides as the whole log of admissions would, and keeps a log governed by one limit governed by it. */
    method CheckRPM(rpm: int, now: int, nonce: int) returns (r: Reply)
      requires Valid() && clock <= now
      modifies this
      ensures Valid()
      ensures rpm <= 0 ==> r == Reply(true, -1, 0, 0) && log == old(log)
      ensures rpm > 0 ==> (r.allowed <==> old(Admits(log, rpm, now))) && r.limit == rpm
      ensures rpm > 0 ==> r.remaining == rpm - |Live(Members(old(log)), now)| - if r.allowed then 1 else 0
      ensures rpm > 0 ==> log == if r.allowed then old(log) + [Member(now, nonce)] else old(log)
      ensures if r.allowed then r.retryAfterMs == 0 else Promised(r.retryAfterMs, log, now)
      ensures rpm > 0 && old(Governed(log, rpm)) ==> Governed(log, rpm)
    {
      if rpm <= 0 {
        return Reply(true, -1, 0, 0);
      }
      Admitted(log, Member(now, nonce));
      var allowed, count, retryAfter := SlidingWindow(rpm, now, nonce);
      r := Reply(allowed, rpm - count, rpm, retryAfter);
    }
  }
}
