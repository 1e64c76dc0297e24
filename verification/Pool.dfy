/** gateway/internal/pool/pool.go and memrepo.go: the credential pool, its weighted pick and health
    rules, and the three-phase refresh that drops the lock while it calls upstream. */
module Pool {
  import opened Common

  datatype Status = Active | Disabled | Banned | Refreshing

  datatype PoolResult = OK | RateLimited | AuthFailed | NetworkError

  /** Times are in seconds; a health score is an exact fraction. Capability 0 is CapNone. */
  datatype Credential = Credential(id: string, provider: string, payload: string, capabilities: set<int>,
                                   status: Status, health: real, failCount: int,
                                   lastUsedAt: int, lastFailedAt: int, cooldownUntil: int)

  type Store = map<string, Credential>

  const CAP_NONE := 0
  const NEVER := 0

  // ---- health rules on one credential ----

  function Released(c: Credential, r: PoolResult, now: int): Credential {
    match r
    case OK => c.(health := if c.health + 0.01 > 1.0 then 1.0 else c.health + 0.01, failCount := 0)
    case RateLimited => c.(cooldownUntil := now + 300, health := c.health * 0.8)
    case AuthFailed => c.(status := Banned)
    case NetworkError =>
      if c.failCount + 1 >= 5 then c.(failCount := 0, lastFailedAt := now, cooldownUntil := now + 60)
      else c.(failCount := c.failCount + 1, lastFailedAt := now)
  }

  /** What each result does to a credential, and that it does no more. */
  lemma ReleaseChanges(c: Credential, r: PoolResult, now: int)
    ensures var c' := Released(c, r, now);
            && c == c'.(health := c.health, failCount := c.failCount, status := c.status,
                        cooldownUntil := c.cooldownUntil, lastFailedAt := c.lastFailedAt)
            && (c'.status != c.status ==> r == AuthFailed) && (r == AuthFailed ==> c'.status == Banned)
            && (c'.lastFailedAt != c.lastFailedAt ==> r == NetworkError)
            && (r == NetworkError ==> c'.lastFailedAt == now)
            && (c'.health != c.health ==> r in {OK, RateLimited})
            && (r == OK ==> c'.health == if 0.99 <= c.health then 1.0 else c.health + 0.01)
            && (r == RateLimited ==> 10.0 * c'.health == 8.0 * c.health)
            && (c'.failCount != c.failCount ==> r in {OK, NetworkError}) && (r == OK ==> c'.failCount == 0)
            && (c'.cooldownUntil != c.cooldownUntil ==> r in {RateLimited, NetworkError})
            && (r == RateLimited ==> c'.cooldownUntil - now == 5 * 60)
  {}

  predicate Eligible(c: Credential, provider: string, capability: int, now: int) {
    && Listed(c, provider, capability)
    && c.status == Active && c.cooldownUntil <= now
  }

  predicate Listed(c: Credential, provider: string, capability: int) {
    && (provider == "" || c.provider == provider)
    && (capability == CAP_NONE || c.capabilities == {} || capability in c.capabilities)
  }

  // ---- the weighted pick ----

  /** Never zero, so every eligible credential keeps a chance. */
  function Weight(c: Credential): (w: real)
    requires 0 <= c.failCount
    ensures 0.0 < w
  {
    (if c.health <= 0.0 then 0.01 else c.health) * (1.0 / (c.failCount + 1) as real)
  }

  /** A weight is the health, or a hundredth when there is none, shared out over the failures and one. */
  lemma WeightIs(c: Credential)
    requires 0 <= c.failCount
    ensures Weight(c) * (c.failCount + 1) as real == if 0.0 < c.health then c.health else 0.01
  {
    var score, n := if c.health <= 0.0 then 0.01 else c.health, (c.failCount + 1) as real;
    assert (1.0 / n) * n == 1.0;
    assert Weight(c) * n == score * ((1.0 / n) * n);
  }

  datatype Weighted = Weighted(c: Credential, w: real)

  ghost predicate AllPositive(pool: seq<Weighted>) {
    forall p <- pool :: 0.0 < p.w
  }

  /** The sum of the first n weights. */
  function Cum(pool: seq<Weighted>, n: nat): real
    requires n <= |pool|
  {
    if n == 0 then 0.0 else Cum(pool, n - 1) + pool[n - 1].w
  }

  lemma {:induction false} CumMonotone(pool: seq<Weighted>, m: nat, n: nat)
    requires m <= n <= |pool| && AllPositive(pool)
    ensures Cum(pool, m) <= Cum(pool, n)
    ensures m < n ==> Cum(pool, m) < Cum(pool, n)
    decreases n
  {
    if m < n {
      CumMonotone(pool, m, n - 1);
      assert pool[n - 1] in pool;
    }
  }

  /** Does a target fall to credential k? The first one's interval also takes zero. */
  predicate FallsTo(pool: seq<Weighted>, target: real, k: nat)
    requires k < |pool|
  {
    (k == 0 || Cum(pool, k) < target) && target <= Cum(pool, k + 1)
  }

  function Scaled(draw: real, total: real): real { draw * total }

  function Share(part: real, total: real): real
    requires 0.0 < total
  {
    part / total
  }

  /** The two loops of Acquire: the draw in [0, 1) is scaled to the total weight, and the first
      credential whose running sum reaches it is taken. */
  method PickWeighted(pool: seq<Weighted>, draw: real) returns (k: nat)
    requires |pool| > 0 && AllPositive(pool) && 0.0 <= draw < 1.0
    ensures k < |pool| && FallsTo(pool, Scaled(draw, Cum(pool, |pool|)), k)
  {
    var total := 0.0;
    var i := 0;
    while i < |pool|
      invariant 0 <= i <= |pool| && total == Cum(pool, i)
    {
      total := total + pool[i].w;
      i := i + 1;
    }
    var target := Scaled(draw, total);
    CumMonotone(pool, 0, |pool|);
    DrawBelowTotal(draw, total);
    var cum := 0.0;
    k := 0;
    while k < |pool|
      invariant 0 <= k <= |pool| && cum == Cum(pool, k)
      invariant 0 < k ==> Cum(pool, k) < target
    {
      cum := cum + pool[k].w;
      if target <= cum {
        return;
      }
      k := k + 1;
    }
    assert false;
  }

  lemma DrawBelowTotal(draw: real, total: real)
    requires 0.0 <= draw < 1.0 && 0.0 < total
    ensures Scaled(draw, total) <= total
  {
    assert (1.0 - draw) * total > 0.0;
  }

  /** The intervals tile: each target falls to exactly one credential. */
  lemma FallsToOne(pool: seq<Weighted>, target: real, j: nat, k: nat)
    requires j < |pool| && k < |pool| && AllPositive(pool)
    requires FallsTo(pool, target, j) && FallsTo(pool, target, k)
    ensures j == k
  {
    if j < k {
      CumMonotone(pool, j + 1, k);
    } else if k < j {
      CumMonotone(pool, k + 1, j);
    }
  }

  /** In terms of the draw, credential k is chosen exactly on an interval from Cum(k)/total to
      Cum(k+1)/total, whose length is k's share of the weight. */
  lemma ShareOfDraws(pool: seq<Weighted>, draw: real, k: nat)
    requires k < |pool| && AllPositive(pool)
    ensures 0.0 < Cum(pool, |pool|)
    ensures var total := Cum(pool, |pool|);
            FallsTo(pool, Scaled(draw, total), k)
            == ((k == 0 || Share(Cum(pool, k), total) < draw) && draw <= Share(Cum(pool, k + 1), total))
    ensures var total := Cum(pool, |pool|);
            Share(Cum(pool, k + 1), total) - Share(Cum(pool, k), total) == Share(pool[k].w, total) > 0.0
  {
    var total := Cum(pool, |pool|);
    CumMonotone(pool, 0, |pool|);
    assert pool[k] in pool;
    ScaleDown(Cum(pool, k), draw, total);
    ScaleDown(Cum(pool, k + 1), draw, total);
    ShareOf(Cum(pool, k), pool[k].w, total);
  }

  ghost predicate Weighed(pool: seq<Weighted>) {
    forall p <- pool :: 0 <= p.c.failCount && p.w == Weight(p.c)
  }

  lemma LengthIs(pool: seq<Weighted>, k: nat)
    requires k < |pool| && Weighed(pool) && 0.0 < pool[k].c.health
    ensures 0.0 < Cum(pool, |pool|)
    ensures Interval(pool, k) * (pool[k].c.failCount + 1) as real == Share(pool[k].c.health, Cum(pool, |pool|))
  {
    assert pool[k] in pool;
    ShareOfDraws(pool, 0.0, k);
    WeightIs(pool[k].c);
    ShareScales(pool[k].w, (pool[k].c.failCount + 1) as real, pool[k].c.health, Cum(pool, |pool|));
  }

  /** The draws that fall to any two credentials are as their healths over their failures and one. */
  ghost predicate FairShares(pool: seq<Weighted>) {
    forall i: nat, j: nat ::
      i < |pool| && j < |pool| && 0.0 < pool[i].c.health && 0.0 < pool[j].c.health && 0.0 < Cum(pool, |pool|) ==>
        Interval(pool, i) * (pool[i].c.failCount + 1) as real * pool[j].c.health
        == Interval(pool, j) * (pool[j].c.failCount + 1) as real * pool[i].c.health
  }

  lemma DrawsAreFair(pool: seq<Weighted>)
    requires Weighed(pool)
    ensures FairShares(pool)
  {
    forall i: nat, j: nat |
      i < |pool| && j < |pool| && 0.0 < pool[i].c.health && 0.0 < pool[j].c.health && 0.0 < Cum(pool, |pool|)
      ensures Interval(pool, i) * (pool[i].c.failCount + 1) as real * pool[j].c.health
           == Interval(pool, j) * (pool[j].c.failCount + 1) as real * pool[i].c.health
    {
      LengthIs(pool, i);
      LengthIs(pool, j);
      CrossShares(pool[i].c.health, pool[j].c.health, Cum(pool, |pool|));
    }
  }

  /** The length of credential k's interval of draws. */
  function Interval(pool: seq<Weighted>, k: nat): real
    requires k < |pool| && 0.0 < Cum(pool, |pool|)
  {
    Share(Cum(pool, k + 1), Cum(pool, |pool|)) - Share(Cum(pool, k), Cum(pool, |pool|))
  }

  lemma ShareScales(w: real, n: real, h: real, total: real)
    requires w * n == h && 0.0 < total
    ensures Share(w, total) * n == Share(h, total)
  {
    var q := w / total;
    assert q * total == w;
    assert q * n * total == h;
    QuotientIs(q * n, h, total);
  }

  lemma QuotientIs(q: real, x: real, total: real)
    requires q * total == x && 0.0 < total
    ensures q == Share(x, total)
  {
    var p := x / total;
    assert (p - q) * total == 0.0;
  }

  lemma CrossShares(x: real, y: real, total: real)
    requires 0.0 < total
    ensures Share(x, total) * y == Share(y, total) * x
  {
    var p, q := x / total, y / total;
    assert p * total == x && q * total == y;
    assert p * y == p * q * total && q * x == q * p * total;
  }

  lemma ShareOf(a: real, w: real, total: real)
    requires 0.0 < w && 0.0 < total
    ensures Share(a + w, total) - Share(a, total) == Share(w, total) > 0.0
  {
    var q := w / total;
    assert q * total == w;
  }

  lemma ScaleDown(x: real, draw: real, total: real)
    requires 0.0 < total
    ensures x < Scaled(draw, total) <==> Share(x, total) < draw
  {
    var q := x / total;
    assert q * total == x;
    if q < draw {
      assert (draw - q) * total > 0.0;
    } else {
      assert (q - draw) * total >= 0.0;
    }
  }

  // ---- the fifth network error ----

  datatype HealthOp =
    | Release(result: PoolResult, at: int)
    | Acquired(at: int)
    | SetDisabled

  function Apply(c: Credential, op: HealthOp): Credential {
    match op
    case Release(r, at) => Released(c, r, at)
    case Acquired(at) => c.(lastUsedAt := at)
    case SetDisabled => c.(status := Disabled)
  }

  function ApplyAll(c: Credential, ops: seq<HealthOp>): Credential {
    if ops == [] then c else Apply(ApplyAll(c, ops[..|ops| - 1]), ops[|ops| - 1])
  }

  predicate IsNetworkError(op: HealthOp) { op.Release? && op.result == NetworkError }

  function NetworkErrors(ops: seq<HealthOp>): nat {
    if ops == [] then 0 else NetworkErrors(ops[..|ops| - 1]) + if IsNetworkError(ops[|ops| - 1]) then 1 else 0
  }

  ghost predicate NoOK(ops: seq<HealthOp>) {
    forall op <- ops :: op.Release? ==> op.result != OK
  }

  /** While no OK, reactivation or refresh intervenes, the fail count is the errors seen, modulo five. */
  lemma {:induction false} FailCountCounts(c: Credential, ops: seq<HealthOp>)
    requires 0 <= c.failCount < 5 && NoOK(ops)
    ensures ApplyAll(c, ops).failCount == (c.failCount + NetworkErrors(ops)) % 5
  {
    if ops != [] {
      FailCountCounts(c, ops[..|ops| - 1]);
    }
  }

  lemma NextIsFifthIff(n: nat)
    ensures (n + 1) % 5 == 0 <==> n % 5 == 4
  {}

  /** A network error starts the one-minute cooldown exactly when it brings the count to a multiple of five. */
  lemma CooldownExactlyOnFifth(c: Credential, ops: seq<HealthOp>, at: int)
    requires 0 <= c.failCount < 5 && NoOK(ops)
    ensures var before := ApplyAll(c, ops);
            var after := Released(before, NetworkError, at);
            && ((c.failCount + NetworkErrors(ops) + 1) % 5 == 0 ==> after.cooldownUntil == at + 60)
            && ((c.failCount + NetworkErrors(ops) + 1) % 5 != 0 ==> after.cooldownUntil == before.cooldownUntil)
  {
    FailCountCounts(c, ops);
    NextIsFifthIff(c.failCount + NetworkErrors(ops));
  }

  /** Some network error among these set the cooldown. */
  ghost predicate CooledDown(c: Credential, ops: seq<HealthOp>) {
    exists n :: 0 <= n < |ops| && IsNetworkError(ops[n]) && ApplyAll(c, ops[..n + 1]).cooldownUntil == ops[n].at + 60
  }

  lemma {:induction false} CooledDownOrCounted(c: Credential, ops: seq<HealthOp>)
    requires NoOK(ops)
    ensures CooledDown(c, ops)
         || (ApplyAll(c, ops).failCount == c.failCount + NetworkErrors(ops)
             && (NetworkErrors(ops) > 0 ==> ApplyAll(c, ops).failCount < 5))
  {
    if ops != [] {
      var last := |ops| - 1;
      var front := ops[..last];
      CooledDownOrCounted(c, front);
      if n :| 0 <= n < |front| && IsNetworkError(front[n])
                 && ApplyAll(c, front[..n + 1]).cooldownUntil == front[n].at + 60 {
        assert front[..n + 1] == ops[..n + 1];
      } else if IsNetworkError(ops[last]) {
        assert ops[..last + 1] == ops;
      }
    }
  }

  /** So five network errors, less those already counted, always set a cooldown on the way, whatever the
      count began with. */
  lemma FiveErrorsCoolDown(c: Credential, ops: seq<HealthOp>)
    requires NoOK(ops) && 0 < NetworkErrors(ops) && 5 <= c.failCount + NetworkErrors(ops)
    ensures CooledDown(c, ops)
  {
    CooledDownOrCounted(c, ops);
  }
}
