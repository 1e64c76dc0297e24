/** gateway/internal/pool/pool.go and memrepo.go: the pool's methods over the in-memory store, each tied to
    the rules of modules Pool and PoolRefresh. */
module PoolService {
  import opened Common
  import opened Pool
  import PoolRefresh

  datatype Lease = Lease(id: string, provider: string, payload: string)

  ghost predicate Keyed(store: Store) {
    forall id <- store :: store[id].id == id
  }

  ghost predicate WellKept(store: Store) {
    Keyed(store) && forall id <- store :: 0 <= store[id].failCount
  }

  /** What Get returns beside its error; its status is overwritten before it is used. */
  const BLANK := Credential("", "", "", {}, Disabled, 0.0, 0, NEVER, NEVER, NEVER)

  class MemRepo {
    var store: Store

    constructor ()
      ensures store == map[]
    {
      store := map[];
    }

    method Add(c: Credential) returns (ok: bool)
      modifies this
      ensures ok == (c.id !in old(store)) && store == if ok then old(store)[c.id := c] else old(store)
    {
      if c.id in store {
        return false;
      }
      store := store[c.id := c];
      return true;
    }

    method Get(id: string) returns (r: Option<Credential>)
      ensures r == if id in store then Some(store[id]) else None
    {
      return if id in store then Some(store[id]) else None;
    }

    method Update(c: Credential) returns (ok: bool)
      modifies this
      ensures ok == (c.id in old(store)) && store == if ok then old(store)[c.id := c] else old(store)
    {
      if c.id !in store {
        return false;
      }
      store := store[c.id := c];
      return true;
    }

    /** The matching credentials, in the arbitrary order of a map. */
    method List(provider: string, capability: int) returns (out: seq<Credential>)
      requires Keyed(store)
      ensures Enumerates(out, store, Matching(store, store.Keys, provider, capability))
      ensures forall id <- store ::
                store[id] in out
                <==> (provider == "" || store[id].provider == provider)
                     && (capability == 0 || store[id].capabilities == {} || capability in store[id].capabilities)
    {
      out := [];
      var rest := store.Keys;
      ghost var seen: set<string> := {};
      while rest != {}
        invariant Split(seen, rest, store)
        invariant Enumerates(out, store, Matching(store, seen, provider, capability))
        decreases |rest|
      {
        var id :| id in rest;
        ListMore(out, store, seen, rest, provider, capability, id);
        rest := rest - {id};
        seen := seen + {id};
        if Listed(store[id], provider, capability) {
          out := out + [store[id]];
        }
      }
      assert seen == store.Keys;
    }
  }

  ghost function Matching(store: Store, ids: set<string>, provider: string, capability: int): set<string> {
    set id <- ids | id in store && Listed(store[id], provider, capability)
  }

  /** cs lists the credentials stored under `ids`, each once. */
  ghost predicate Enumerates(cs: seq<Credential>, store: Store, ids: set<string>) {
    && (forall i :: 0 <= i < |cs| ==> cs[i].id in ids && cs[i].id in store && cs[i] == store[cs[i].id])
    && (forall id <- ids :: id in store && store[id] in cs)
    && forall i, j :: 0 <= i < j < |cs| ==> cs[i].id != cs[j].id
  }

  lemma EnumerateMore(cs: seq<Credential>, store: Store, ids: set<string>, id: string)
    requires Enumerates(cs, store, ids) && id in store && id !in ids && store[id].id == id
    ensures Enumerates(cs + [store[id]], store, ids + {id})
  {}

  ghost predicate Split(seen: set<string>, rest: set<string>, store: Store) {
    seen !! rest && seen + rest == store.Keys
  }

  /** One turn of List's loop. */
  lemma ListMore(cs: seq<Credential>, store: Store, seen: set<string>, rest: set<string>,
                 provider: string, capability: int, id: string)
    requires Keyed(store) && Split(seen, rest, store) && id in rest
    requires Enumerates(cs, store, Matching(store, seen, provider, capability))
    ensures Split(seen + {id}, rest - {id}, store)
    ensures Enumerates(if Listed(store[id], provider, capability) then cs + [store[id]] else cs,
                       store, Matching(store, seen + {id}, provider, capability))
  {
    var before := Matching(store, seen, provider, capability);
    var after := Matching(store, seen + {id}, provider, capability);
    if Listed(store[id], provider, capability) {
      EnumerateMore(cs, store, before, id);
      assert after == before + {id};
    } else {
      assert after == before;
    }
  }

  ghost predicate Holds(pool: seq<Weighted>, c: Credential) {
    exists i :: 0 <= i < |pool| && pool[i].c == c
  }

  lemma HoldsAppend(pool: seq<Weighted>, p: Weighted)
    ensures Holds(pool + [p], p.c) && forall c :: Holds(pool, c) ==> Holds(pool + [p], c)
  {
    assert (pool + [p])[|pool|] == p;
    forall c | Holds(pool, c)
      ensures Holds(pool + [p], c)
    {
      var i :| 0 <= i < |pool| && pool[i].c == c;
      assert (pool + [p])[i].c == c;
    }
  }

  predicate Usable(c: Credential, now: int) { c.status == Active && c.cooldownUntil <= now }

  ghost predicate WellWeighed(p: Weighted, now: int) {
    Usable(p.c, now) && 0 <= p.c.failCount && p.w == Weight(p.c)
  }

  /** The pool weighs exactly the eligible credentials, each once. */
  ghost predicate WeighsEligible(pool: seq<Weighted>, store: Store, provider: string, capability: int, now: int) {
    && (forall p <- pool :: WellWeighed(p, now) && p.c.id in store
          && p.c == store[p.c.id] && Listed(p.c, provider, capability))
    && (forall id <- store :: Eligible(store[id], provider, capability, now) ==> Holds(pool, store[id]))
    && forall i, j :: 0 <= i < j < |pool| ==> pool[i].c.id != pool[j].c.id
  }

  /** No credential is active, out of cooldown, of the provider, and capable. */
  ghost predicate NoneSuits(store: Store, provider: string, capability: int, now: int) {
    forall c <- store.Values ::
      !(c.status == Active && c.cooldownUntil <= now && (provider == "" || c.provider == provider)
        && (capability == 0 || c.capabilities == {} || capability in c.capabilities))
  }

  lemma NoneSuitsIff(store: Store, provider: string, capability: int, now: int)
    ensures NoneSuits(store, provider, capability, now)
       <==> forall id <- store :: !Eligible(store[id], provider, capability, now)
  {
    if NoneSuits(store, provider, capability, now) {
      assert forall id <- store :: store[id] in store.Values;
    }
  }

  class Service {
    const repo: MemRepo

    constructor (repo: MemRepo)
      ensures this.repo == repo
    {
      this.repo := repo;
    }

    /** The filter loop of Acquire. */
    method Weigh(candidates: seq<Credential>, ghost provider: string, ghost capability: int, now: int)
      returns (pool: seq<Weighted>)
      requires WellKept(repo.store)
      requires Enumerates(candidates, repo.store, Matching(repo.store, repo.store.Keys, provider, capability))
      ensures WeighsEligible(pool, repo.store, provider, capability, now)
      ensures forall p <- pool ::
                && p.c.status == Active && p.c.cooldownUntil <= now && 0 <= p.c.failCount
                && p.w * (p.c.failCount + 1) as real == if 0.0 < p.c.health then p.c.health else 0.01
    {
      pool := [];
      var i := 0;
      while i < |candidates|
        invariant 0 <= i <= |candidates|
        invariant forall p <- pool :: WellWeighed(p, now) && p.c in candidates[..i]
        invariant forall c <- candidates[..i] :: Usable(c, now) ==> Holds(pool, c)
        invariant forall k, j :: 0 <= k < j < |pool| ==> pool[k].c.id != pool[j].c.id
      {
        var c := candidates[i];
        if c.status == Active && c.cooldownUntil <= now {
          var score := c.health;
          if score <= 0.0 {
            score := 0.01;
          }
          var penalty := 1.0 / (c.failCount + 1) as real;
          HoldsAppend(pool, Weighted(c, score * penalty));
          pool := pool + [Weighted(c, score * penalty)];
        }
        i := i + 1;
      }
      assert candidates[..i] == candidates;
      forall p <- pool
        ensures p.w * (p.c.failCount + 1) as real == if 0.0 < p.c.health then p.c.health else 0.01
      {
        assert WellWeighed(p, now);
        WeightIs(p.c);
      }
    }

    /** Hands out some eligible credential iff there is one; `pool` and `k` witness that the draw fell
        to it by weight. Only its LastUsedAt changes. */
    method Acquire(provider: string, capability: int, now: int, draw: real)
      returns (lease: Option<Lease>, ghost pool: seq<Weighted>, ghost k: nat)
      requires WellKept(repo.store) && 0.0 <= draw < 1.0
      modifies repo
      ensures WellKept(repo.store) && WeighsEligible(pool, old(repo.store), provider, capability, now)
      ensures lease.None? <==> forall id <- old(repo.store) :: !Eligible(old(repo.store)[id], provider, capability, now)
      ensures lease.None? <==> NoneSuits(old(repo.store), provider, capability, now)
      ensures lease.None? ==> repo.store == old(repo.store)
      ensures lease.Some? ==>
                lease.value.id in old(repo.store) &&
                var id, c := lease.value.id, old(repo.store)[lease.value.id];
                && Eligible(c, provider, capability, now)
                && k < |pool| && pool[k].c == c && FallsTo(pool, Scaled(draw, Cum(pool, |pool|)), k)
                && lease.value == Lease(id, c.provider, c.payload)
                && repo.store == old(repo.store)[id := c.(lastUsedAt := now)]
      ensures forall p <- pool :: p.w * (p.c.failCount + 1) as real == if 0.0 < p.c.health then p.c.health else 0.01
      ensures FairShares(pool)
    {
      var candidates := repo.List(provider, capability);
      var weighted := Weigh(candidates, provider, capability, now);
      pool, k := weighted, 0;
      DrawsAreFair(pool);
      NoneSuitsIff(repo.store, provider, capability, now);
      if |weighted| == 0 {
        return None, pool, k;
      }
      var pick := PickWeighted(weighted, draw);
      k := pick;
      var picked := weighted[pick].c.(lastUsedAt := now);
      var _ := repo.Update(picked);
      lease := Some(Lease(picked.id, picked.provider, picked.payload));
    }

    /** A lease of a credential removed meanwhile is dropped silently. */
    method Release(id: string, result: PoolResult, now: int)
      requires WellKept(repo.store)
      modifies repo
      ensures WellKept(repo.store)
      ensures repo.store == if id in old(repo.store)
                      then old(repo.store)[id := Released(old(repo.store)[id], result, now)]
                            else old(repo.store)
    {
      var got := repo.Get(id);
      if got.None? {
        return;
      }
      var c := got.value;
      match result {
        case OK =>
          c := c.(health := c.health + 0.01);
          if c.health > 1.0 {
            c := c.(health := 1.0);
          }
          c := c.(failCount := 0);
        case RateLimited =>
          c := c.(cooldownUntil := now + 5 * 60);
          c := c.(health := c.health * 0.8);
        case AuthFailed =>
          c := c.(status := Banned);
        case NetworkError =>
          c := c.(failCount := c.failCount + 1);
          c := c.(lastFailedAt := now);
          if c.failCount >= 5 {
            c := c.(cooldownUntil := now + 60);
            c := c.(failCount := 0);
          }
      }
      var _ := repo.Update(c);
    }

    /** Only active and disabled may be asked for; activation also clears cooldown and failures. */
    method SetCredentialStatus(id: string, st: Status) returns (ok: bool)
      requires WellKept(repo.store)
      modifies repo
      ensures WellKept(repo.store) && ok == (st in {Active, Disabled} && id in old(repo.store))
      ensures repo.store == if ok then old(repo.store)[id := PoolRefresh.StatusSet(old(repo.store)[id], st)]
                            else old(repo.store)
      ensures ok ==>
                && repo.store[id].status == st
                && (st == Active ==> repo.store[id].cooldownUntil == 0 && repo.store[id].failCount == 0)
                && (st == Disabled ==> repo.store[id] == old(repo.store)[id].(status := Disabled))
    {
      if st != Active && st != Disabled {
        return false;
      }
      var got := repo.Get(id);
      if got.None? {
        return false;
      }
      var c := got.value.(status := st);
      if st == Active {
        c := c.(cooldownUntil := NEVER);
        c := c.(failCount := 0);
      }
      ok := repo.Update(c);
    }

    method DisableCredential(id: string) returns (ok: bool)
      requires WellKept(repo.store)
      modifies repo
      ensures WellKept(repo.store) && ok == (id in old(repo.store))
      ensures repo.store == if ok then old(repo.store)[id := old(repo.store)[id].(status := Disabled)]
                            else old(repo.store)
    {
      var got := repo.Get(id);
      if got.None? {
        return false;
      }
      ok := repo.Update(got.value.(status := Disabled));
    }

    /** Phase 1 of a refresh, under the lock: the original status, or none if it may not begin. */
    method BeginRefresh(id: string) returns (orig: Option<Status>)
      requires WellKept(repo.store)
      modifies repo
      ensures WellKept(repo.store)
      ensures forall callers ::
                var s := PoolRefresh.Next(PoolRefresh.State(old(repo.store), callers), PoolRefresh.Begin(id));
                s.store == repo.store
                && s.callers == if orig.Some? then callers + [PoolRefresh.Calling(id, orig.value)] else callers
    {
      var got := repo.Get(id);
      if got.None? || got.value.status == Refreshing {
        return None;
      }
      orig := Some(got.value.status);
      var _ := repo.Update(got.value.(status := Refreshing));
    }

    /** Phase 3, under the lock again, with what the upstream call returned. A credential removed meanwhile
        reads as a blank one, which is stored only if the pool holds a credential of the empty id. */
    method FinishRefresh(id: string, orig: Status, payload: Option<string>)
      requires WellKept(repo.store)
      modifies repo
      ensures WellKept(repo.store)
      ensures forall callers, i: nat ::
                i < |callers| && callers[i] == PoolRefresh.Calling(id, orig) && id in old(repo.store) ==>
                repo.store
                  == PoolRefresh.Next(PoolRefresh.State(old(repo.store), callers), PoolRefresh.Finish(i, payload)).store
      ensures var c := if id in old(repo.store) then old(repo.store)[id] else BLANK;
              repo.store == if c.id in old(repo.store)
                            then old(repo.store)[c.id := PoolRefresh.Finished(c, orig, payload)]
                            else old(repo.store)
    {
      var got := repo.Get(id);
      var c := if got.Some? then got.value else BLANK;
      if payload.None? {
        var _ := repo.Update(c.(status := orig));
        return;
      }
      c := c.(payload := payload.value);
      c := c.(status := Active);
      c := c.(health := 1.0);
      c := c.(failCount := 0);
      c := c.(cooldownUntil := NEVER);
      var _ := repo.Update(c);
    }
  }
}
