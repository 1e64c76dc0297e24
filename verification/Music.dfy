/** gateway/internal/music/service.go, callWithLease: the retry loop that draws leases from the pool and
    releases each by how the provider call ended. */
module Music {
  import opened Common
  import opened Pool
  import PoolService

  /** What one provider call returns. */
  datatype CallResult = Success(value: string) | DataError | OtherError

  /** What the world supplies to one try: the times of its acquisition and release, the pool's draw,
      and the provider's answer. */
  datatype Try = Try(acquiredAt: int, draw: real, answer: CallResult, releasedAt: int)

  datatype Outcome = Done(value: string) | DataFailure | UnknownProvider | AllFailed

  /** One lease's life: acquired, then released with this result. */
  datatype Use = Use(id: string, acquiredAt: int, result: PoolResult, releasedAt: int)

  function Classify(r: CallResult): PoolResult {
    match r
    case Success(_) => OK
    case DataError => OK
    case OtherError => NetworkError
  }

  /** A store after these uses and nothing else: each lease released once, right after it was taken. */
  function Replay(store: Store, uses: seq<Use>): Store {
    if uses == [] then store
    else Used(Replay(store, uses[..|uses| - 1]), uses[|uses| - 1])
  }

  function Used(s: Store, u: Use): Store {
    if u.id in s then s[u.id := Released(s[u.id].(lastUsedAt := u.acquiredAt), u.result, u.releasedAt)] else s
  }

  lemma ReplayAppend(store: Store, uses: seq<Use>, u: Use)
    ensures Replay(store, uses + [u]) == Used(Replay(store, uses), u)
  {
    assert (uses + [u])[..|uses|] == uses;
  }

  ghost predicate Exhausted(store: Store, provider: string, capability: int, now: int) {
    forall id <- store :: !Eligible(store[id], provider, capability, now)
  }

  class Service {
    const providers: set<string>
    const pool: PoolService.Service
    const maxTry: int

    constructor (providers: set<string>, pool: PoolService.Service, maxTry: int)
      ensures this.providers == providers && this.pool == pool
      ensures this.maxTry == if maxTry <= 0 then 3 else maxTry
    {
      this.providers, this.pool := providers, pool;
      this.maxTry := if maxTry <= 0 then 3 else maxTry;
    }

    /** One turn of the loop: acquire, call, release. */
    method TryOnce(provider: string, capability: int, t: Try) returns (leased: bool, ghost use: Use)
      requires PoolService.WellKept(pool.repo.store) && 0.0 <= t.draw < 1.0
      modifies pool.repo
      ensures PoolService.WellKept(pool.repo.store)
      ensures !leased ==>
                && pool.repo.store == old(pool.repo.store)
                && Exhausted(pool.repo.store, provider, capability, t.acquiredAt)
      ensures leased ==> pool.repo.store == Used(old(pool.repo.store), use)
      ensures leased ==> use == Use(use.id, t.acquiredAt, Classify(t.answer), t.releasedAt)
      ensures leased ==>
                use.result == match t.answer case Success(_) => OK case DataError => OK case OtherError => NetworkError
      ensures leased ==> use.id in old(pool.repo.store)
      ensures leased ==> Eligible(old(pool.repo.store)[use.id], provider, capability, t.acquiredAt)
    {
      var lease, _, _ := pool.Acquire(provider, capability, t.acquiredAt, t.draw);
      leased := lease.Some?;
      use := Use("", t.acquiredAt, Classify(t.answer), t.releasedAt);
      if leased {
        use := use.(id := lease.value.id);
        var result := if t.answer.Success? then OK else Classify(t.answer);
        pool.Release(lease.value.id, result, t.releasedAt);
      }
    }

    /** Every lease taken is released exactly once, before the next is taken. All but the last try end
        in a network error; the call stops at the first success or data error, when the pool has no
        eligible credential, or after maxTry tries. */
    method CallWithLease(provider: string, capability: int, world: seq<Try>)
      returns (out: Outcome, ghost uses: seq<Use>)
      requires PoolService.WellKept(pool.repo.store) && 0 < maxTry <= |world|
      requires forall t <- world :: 0.0 <= t.draw < 1.0
      modifies pool.repo
      ensures PoolService.WellKept(pool.repo.store) && pool.repo.store == Replay(old(pool.repo.store), uses)
      ensures provider !in providers ==> out == UnknownProvider && uses == []
      ensures provider in providers ==> Story(out, uses, world, maxTry)
      ensures provider in providers && out == AllFailed && |uses| < maxTry ==>
                Exhausted(pool.repo.store, provider, capability, world[|uses|].acquiredAt)
    {
      uses := [];
      if provider !in providers {
        return UnknownProvider, uses;
      }
      var try := 0;
      while try < maxTry
        invariant 0 <= try <= maxTry && |uses| == try
        invariant PoolService.WellKept(pool.repo.store) && pool.repo.store == Replay(old(pool.repo.store), uses)
        invariant AllMissed(uses, world)
      {
        var t := world[try];
        var leased, use := TryOnce(provider, capability, t);
        if !leased {
          return AllFailed, uses;
        }
        ReplayAppend(old(pool.repo.store), uses, use);
        StoryGoesOn(uses, use, world, maxTry);
        uses := uses + [use];
        if t.answer.Success? {
          return Done(t.answer.value), uses;
        }
        if t.answer.DataError? {
          return DataFailure, uses;
        }
        try := try + 1;
      }
      return AllFailed, uses;
    }
  }

  /** How the uses of a call and its outcome answer to what the provider said. */
  ghost predicate Story(out: Outcome, uses: seq<Use>, world: seq<Try>, maxTry: int)
    requires maxTry <= |world|
  {
    && |uses| <= maxTry
    && (forall i :: 0 <= i < |uses| ==> Fits(uses[i], world[i]))
    && (forall i :: 0 <= i < |uses| - 1 ==> world[i].answer == OtherError)
    && match out
       case AllFailed => forall u <- uses :: u.result == NetworkError
       case Done(v) => |uses| > 0 && world[|uses| - 1].answer == Success(v)
       case DataFailure => |uses| > 0 && world[|uses| - 1].answer == DataError
       case UnknownProvider => false
  }

  /** Every use so far ended in a network error. */
  ghost predicate AllMissed(uses: seq<Use>, world: seq<Try>) {
    |uses| <= |world| && forall i :: 0 <= i < |uses| ==> Fits(uses[i], world[i]) && world[i].answer == OtherError
  }

  lemma StoryGoesOn(uses: seq<Use>, use: Use, world: seq<Try>, maxTry: int)
    requires |uses| < maxTry <= |world| && AllMissed(uses, world) && Fits(use, world[|uses|])
    ensures match world[|uses|].answer
            case Success(v) => Story(Done(v), uses + [use], world, maxTry)
            case DataError => Story(DataFailure, uses + [use], world, maxTry)
            case OtherError => AllMissed(uses + [use], world)
  {}

  ghost predicate Fits(u: Use, t: Try) { u.acquiredAt == t.acquiredAt && u.result == Classify(t.answer) }

  function NetworkUses(uses: seq<Use>, id: string): nat {
    if uses == [] then 0
    else NetworkUses(uses[..|uses| - 1], id)
           + if uses[|uses| - 1].id == id && uses[|uses| - 1].result == NetworkError then 1 else 0
  }

  /** The uses of one credential as changes of it. */
  function OpsOf(uses: seq<Use>, id: string): seq<HealthOp> {
    if uses == [] then []
    else
      var u := uses[|uses| - 1];
      OpsOf(uses[..|uses| - 1], id)
        + if u.id == id then [Acquired(u.acquiredAt), HealthOp.Release(u.result, u.releasedAt)] else []
  }

  lemma ApplyTwo(c: Credential, ops: seq<HealthOp>, a: HealthOp, b: HealthOp)
    ensures ApplyAll(c, ops + [a, b]) == Apply(Apply(ApplyAll(c, ops), a), b)
    ensures NetworkErrors(ops + [a, b])
         == NetworkErrors(ops) + (if IsNetworkError(a) then 1 else 0) + if IsNetworkError(b) then 1 else 0
  {
    assert (ops + [a, b])[..|ops| + 1] == ops + [a];
    assert (ops + [a])[..|ops|] == ops;
  }

  /** Each stored credential sees exactly its own uses. */
  lemma {:induction false} ReplayIsPerCredential(store: Store, uses: seq<Use>, id: string)
    requires id in store
    ensures id in Replay(store, uses) && Replay(store, uses)[id] == ApplyAll(store[id], OpsOf(uses, id))
    ensures NetworkErrors(OpsOf(uses, id)) == NetworkUses(uses, id)
  {
    if uses != [] {
      var front, u := uses[..|uses| - 1], uses[|uses| - 1];
      ReplayIsPerCredential(store, front, id);
      ApplyTwo(store[id], OpsOf(front, id), Acquired(u.acquiredAt), HealthOp.Release(u.result, u.releasedAt));
      assert OpsOf(front, id) + [] == OpsOf(front, id);
    }
  }

  lemma {:induction false} NetworkOpsOnly(uses: seq<Use>, id: string)
    requires forall u <- uses :: u.result == NetworkError
    ensures NoOK(OpsOf(uses, id))
  {
    if uses != [] {
      NetworkOpsOnly(uses[..|uses| - 1], id);
    }
  }

  /** A call that failed on all tries leaves each credential's fail count raised by the tries it served,
      modulo five. */
  lemma FailedCallCountsFailures(store: Store, uses: seq<Use>, id: string)
    requires id in store && 0 <= store[id].failCount < 5
    requires forall u <- uses :: u.result == NetworkError
    ensures id in Replay(store, uses)
    ensures Replay(store, uses)[id].failCount == (store[id].failCount + NetworkUses(uses, id)) % 5
  {
    ReplayIsPerCredential(store, uses, id);
    NetworkOpsOnly(uses, id);
    FailCountCounts(store[id], OpsOf(uses, id));
  }
}
