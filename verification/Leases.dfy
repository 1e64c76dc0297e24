/** gateway/internal/gateway/lease_registry.go, MemLeaseRegistry: leases of credentials that are either
    returned by their holder or expired by the sweep, whose releases run outside the lock. */
module Leases {
  import opened Common
  import opened Pool

  datatype Entry = Entry(cred: string, expires: int)

  /** The release owed for a lease that left the registry. */
  datatype Job = Job(lease: string, cred: string, result: PoolResult)

  // ---- interleaved puts, takes, sweeps and releases ----

  /** issued, taken and expired record the past: which credential each lease was for, and how it left.
      owed holds the releases still to run; applied those that have, in order. */
  datatype State = State(entries: map<string, Entry>, issued: map<string, string>, taken: set<string>,
                         expired: set<string>, owed: multiset<Job>, applied: seq<Job>)

  datatype Step =
    | Put(lease: string, cred: string, expires: int)
    | Take(lease: string, result: PoolResult)
    | Sweep(now: int)
    | Run(job: Job)

  const START := State(map[], map[], {}, {}, multiset{}, [])

  function Stale(entries: map<string, Entry>, now: int): set<string> {
    set l <- entries | entries[l].expires < now
  }

  /** The network-error release of each of these entries. */
  function Owed(entries: map<string, Entry>, leases: set<string>): set<Job> {
    set l <- leases | l in entries :: Job(l, entries[l].cred, NetworkError)
  }

  function Next(s: State, e: Step): State {
    match e
    case Put(l, c, expires) => s.(entries := s.entries[l := Entry(c, expires)], issued := s.issued[l := c])
    case Take(l, r) =>
      if l !in s.entries then s
      else s.(entries := s.entries - {l}, taken := s.taken + {l},
              owed := s.owed + multiset{Job(l, s.entries[l].cred, r)})
    case Sweep(now) =>
      var stale := Stale(s.entries, now);
      s.(entries := s.entries - stale, expired := s.expired + stale,
         owed := s.owed + multiset(Owed(s.entries, stale)))
    case Run(j) =>
      if j !in s.owed then s else s.(owed := s.owed - multiset{j}, applied := s.applied + [j])
  }

  function After(es: seq<Step>): State {
    if es == [] then START else Next(After(es[..|es| - 1]), es[|es| - 1])
  }

  /** No lease id is issued again once it was returned or expired; a live one may be. */
  ghost predicate NoReissue(es: seq<Step>) {
    es != [] ==>
      && NoReissue(es[..|es| - 1])
      && (es[|es| - 1].Put? ==> !Spent(After(es[..|es| - 1]), es[|es| - 1].lease))
  }

  /** The lease has left the registry. */
  predicate Spent(s: State, l: string) { l in s.taken + s.expired }

  ghost predicate Discharged(s: State, l: string) {
    (exists j :: j in s.owed && j.lease == l) || exists j <- s.applied :: j.lease == l
  }

  /** Every issued lease is in exactly one of three places. */
  ghost predicate Placed(s: State) {
    && s.entries.Keys !! s.taken !! s.expired
    && s.issued.Keys == s.entries.Keys + s.taken + s.expired
    && forall l <- s.entries :: s.entries[l].cred == s.issued[l]
  }

  ghost predicate AllSettle(s: State) {
    && (forall j :: j in s.owed ==> Settles(s, j))
    && forall j <- s.applied :: Settles(s, j)
  }

  /** No lease has two releases, owed or applied. */
  ghost predicate Once(owed: multiset<Job>, applied: seq<Job>) {
    && (forall j :: owed[j] <= 1)
    && (forall j, k :: j in owed && k in owed && j.lease == k.lease ==> j == k)
    && (forall j, k :: j in owed && k in applied ==> j.lease != k.lease)
    && forall i, k :: 0 <= i < k < |applied| ==> applied[i].lease != applied[k].lease
  }

  ghost predicate Invariant(s: State) {
    Placed(s) && AllSettle(s) && Once(s.owed, s.applied)
  }

  /** j releases a lease that left, for its credential, and as a network error if it expired. */
  ghost predicate Settles(s: State, j: Job) {
    && j.lease in s.taken + s.expired && j.lease in s.issued && j.cred == s.issued[j.lease]
    && (j.lease in s.expired ==> j.result == NetworkError)
  }

  lemma OnceMore(owed: multiset<Job>, applied: seq<Job>, added: set<Job>)
    requires Once(owed, applied) && forall j, k :: j in added && k in added && j.lease == k.lease ==> j == k
    requires forall j, k :: j in added && k in owed ==> j.lease != k.lease
    requires forall j, k :: j in added && k in applied ==> j.lease != k.lease
    ensures Once(owed + multiset(added), applied)
  {
    forall j: Job
      ensures (owed + multiset(added))[j] <= 1
    {
      assert j in added ==> j !in owed;
    }
  }

  lemma OnceApplied(owed: multiset<Job>, applied: seq<Job>, j: Job)
    requires Once(owed, applied) && j in owed
    ensures Once(owed - multiset{j}, applied + [j])
  {
    assert forall k :: k in owed - multiset{j} ==> k in owed && k != j;
  }

  /** Leases leaving together, each owing one release. */
  lemma LeaveKeeps(s: State, s': State, gone: set<string>, owed: set<Job>)
    requires Invariant(s) && gone <= s.entries.Keys
    requires s'.entries == s.entries - gone && s'.issued == s.issued && s'.applied == s.applied
    requires s'.owed == s.owed + multiset(owed) && (forall j <- owed :: j.lease in gone && Settles(s', j))
    requires forall j, k :: j in owed && k in owed && j.lease == k.lease ==> j == k
    requires (s'.taken == s.taken + gone && s'.expired == s.expired)
         || (s'.taken == s.taken && s'.expired == s.expired + gone)
    ensures Invariant(s')
  {
    assert s'.entries.Keys == s.entries.Keys - gone;
    forall j: Job | Settles(s, j)
      ensures Settles(s', j) && j.lease !in gone
    {}
    OnceMore(s.owed, s.applied, owed);
    assert forall j :: j in s'.owed ==> j in s.owed || j in owed;
  }

  lemma StepKeeps(s: State, e: Step)
    requires Invariant(s) && (e.Put? ==> !Spent(s, e.lease))
    ensures Invariant(Next(s, e))
  {
    match e
    case Put(l, c, expires) => PutKeepsIff(s, l, c, expires);
    case Take(l, r) =>
      if l in s.entries {
        LeaveKeeps(s, Next(s, e), {l}, {Job(l, s.entries[l].cred, r)});
      }
    case Sweep(now) =>
      var stale := Stale(s.entries, now);
      LeaveKeeps(s, Next(s, e), stale, Owed(s.entries, stale));
    case Run(j) => RunKeeps(s, j);
  }

  /** Issuing a lease keeps the invariant iff its id is not one that has left the registry. */
  lemma PutKeepsIff(s: State, l: string, c: string, expires: int)
    requires Invariant(s)
    ensures Invariant(Next(s, Put(l, c, expires))) <==> !Spent(s, l)
  {
    var s' := Next(s, Put(l, c, expires));
    assert l in s'.entries.Keys;
    if !Spent(s, l) {
      assert s'.issued.Keys == s'.entries.Keys + s'.taken + s'.expired;
      assert forall j :: Settles(s, j) ==> Settles(s', j);
    }
  }

  lemma RunKeeps(s: State, j: Job)
    requires Invariant(s)
    ensures Invariant(Next(s, Run(j)))
  {
    var s' := Next(s, Run(j));
    if j in s.owed {
      OnceApplied(s.owed, s.applied, j);
      assert forall k :: Settles(s, k) == Settles(s', k);
      assert forall k :: k in s'.owed ==> k in s.owed;
    }
  }

  /** A lease outlives a sweep iff its time is not past. */
  lemma SweepKeepsIff(s: State, now: int, l: string)
    ensures l in Next(s, Sweep(now)).entries <==> l in s.entries && now <= s.entries[l].expires
    ensures l in Next(s, Sweep(now)).expired <==> l in s.expired || (l in s.entries && s.entries[l].expires < now)
    ensures l in Next(s, Sweep(now)).entries ==> Next(s, Sweep(now)).entries[l] == s.entries[l]
  {}

  /** A swept lease owes its credential a network error. */
  lemma SweepOwes(s: State, now: int, l: string)
    requires l in s.entries && s.entries[l].expires < now
    ensures Job(l, s.entries[l].cred, NetworkError) in Next(s, Sweep(now)).owed
  {
    assert Job(l, s.entries[l].cred, NetworkError) in Owed(s.entries, Stale(s.entries, now));
  }

  /** Some put gave the lease this time before some sweep came later than that. */
  ghost predicate SweptLate(es: seq<Step>, l: string) {
    exists i, j :: PutThenSwept(es, l, i, j)
  }

  ghost predicate PutThenSwept(es: seq<Step>, l: string, i: int, j: int) {
    && 0 <= i < j < |es| && es[i].Put? && es[j].Sweep? && es[i].lease == l && es[i].expires < es[j].now
    && forall k :: i < k < j && es[k].Put? ==> es[k].lease != l
  }

  /** The put a live entry comes from. */
  lemma {:induction false} EntryHasItsPut(es: seq<Step>, l: string) returns (i: nat)
    requires l in After(es).entries
    ensures i < |es| && es[i].Put? && es[i].lease == l && es[i].expires == After(es).entries[l].expires
    ensures forall k :: i < k < |es| && es[k].Put? ==> es[k].lease != l
  {
    var front, e := es[..|es| - 1], es[|es| - 1];
    if e.Put? && e.lease == l {
      i := |front|;
    } else {
      if e.Sweep? {
        SweepKeepsIff(After(front), e.now, l);
      }
      i := EntryHasItsPut(front, l);
      assert forall k :: i < k < |front| ==> es[k] == front[k];
    }
  }

  /** Over every run only leases past their time are expired: each was put with a time that a later sweep, before any
      other put of it, found past. */
  lemma {:induction false} OnlyLateLeasesExpire(es: seq<Step>, l: string)
    requires l in After(es).expired
    ensures SweptLate(es, l)
  {
    var front, e := es[..|es| - 1], es[|es| - 1];
    if l in After(front).expired {
      OnlyLateLeasesExpire(front, l);
      var i, j :| PutThenSwept(front, l, i, j);
      assert forall k :: 0 <= k < |front| ==> es[k] == front[k];
      assert PutThenSwept(es, l, i, j);
    } else {
      SweepKeepsIff(After(front), e.now, l);
      var i := EntryHasItsPut(front, l);
      assert forall k :: 0 <= k < |front| ==> es[k] == front[k];
      assert PutThenSwept(es, l, i, |front|);
    }
  }

  lemma {:induction false} EveryRun(es: seq<Step>)
    requires NoReissue(es)
    ensures Invariant(After(es))
  {
    if es != [] {
      EveryRun(es[..|es| - 1]);
      StepKeeps(After(es[..|es| - 1]), es[|es| - 1]);
    }
  }

  function Releases(js: seq<Job>, l: string): nat {
    if js == [] then 0 else Releases(js[..|js| - 1], l) + if js[|js| - 1].lease == l then 1 else 0
  }

  lemma {:induction false} DistinctReleases(js: seq<Job>, l: string)
    requires forall i, k :: 0 <= i < k < |js| ==> js[i].lease != js[k].lease
    ensures Releases(js, l) <= 1 && (Releases(js, l) == 1 <==> exists j <- js :: j.lease == l)
  {
    if js != [] {
      DistinctReleases(js[..|js| - 1], l);
      assert js == js[..|js| - 1] + [js[|js| - 1]];
    }
  }

  /** In every interleaving each lease releases its credential at most once, and a lease still in the
      registry has not released it at all. */
  lemma AtMostOneRelease(es: seq<Step>, l: string)
    requires NoReissue(es)
    ensures Releases(After(es).applied, l) <= 1
    ensures l in After(es).entries || l !in After(es).issued ==> Releases(After(es).applied, l) == 0
  {
    EveryRun(es);
    DistinctReleases(After(es).applied, l);
  }

  lemma StaysDischarged(s: State, e: Step, l: string)
    requires Discharged(s, l)
    ensures Discharged(Next(s, e), l)
  {
    var s' := Next(s, e);
    if j :| j in s.owed && j.lease == l {
      if e == Run(j) {
        assert s'.applied[|s.applied|] == j;
      } else {
        assert j in s'.owed;
      }
    } else {
      var j :| j in s.applied && j.lease == l;
      assert j in s'.applied;
    }
  }

  lemma {:induction false} NoneIsForgotten(es: seq<Step>, l: string)
    requires NoReissue(es) && Spent(After(es), l)
    ensures Discharged(After(es), l)
  {
    var front, e := es[..|es| - 1], es[|es| - 1];
    var s, s' := After(front), After(es);
    if Spent(s, l) {
      NoneIsForgotten(front, l);
      StaysDischarged(s, e, l);
    } else if e.Take? {
      assert Job(l, s.entries[l].cred, e.result) in s'.owed;
    } else {
      assert Job(l, s.entries[l].cred, NetworkError) in Owed(s.entries, Stale(s.entries, e.now));
    }
  }

  /** Once no release is owed, the leases that left have released exactly once each. */
  lemma ExactlyOneWhenSettled(es: seq<Step>, l: string)
    requires NoReissue(es) && After(es).owed == multiset{} && l in After(es).issued && l !in After(es).entries
    ensures Releases(After(es).applied, l) == 1
  {
    EveryRun(es);
    NoneIsForgotten(es, l);
    DistinctReleases(After(es).applied, l);
  }

  /** In any state whatever, a lease issued, taken and released adds one release of its id to those before. */
  lemma EachIssueReleases(s: State, l: string, c: string, t: int, r: PoolResult)
    ensures var done := Next(Next(Next(s, Put(l, c, t)), Take(l, r)), Run(Job(l, c, r)));
            Releases(done.applied, l) == Releases(s.applied, l) + 1
  {
    var j := Job(l, c, r);
    assert j in Next(Next(s, Put(l, c, t)), Take(l, r)).owed;
    assert (s.applied + [j])[..|s.applied|] == s.applied;
  }

  /** So an id issued again after it was returned releases a second time. */
  lemma ReusedLeaseReleasesTwice(l: string, c: string, t: int)
    ensures var s := Next(Next(Next(START, Put(l, c, t)), Take(l, OK)), Run(Job(l, c, OK)));
            Spent(s, l) && Releases(Next(Next(Next(s, Put(l, c, t)), Take(l, OK)), Run(Job(l, c, OK))).applied, l) == 2
  {
    EachIssueReleases(START, l, c, t, OK);
    EachIssueReleases(Next(Next(Next(START, Put(l, c, t)), Take(l, OK)), Run(Job(l, c, OK))), l, c, t, OK);
  }

  // ---- the registry ----

  class MemLeaseRegistry {
    const ttl: int
    var entries: map<string, Entry>

    constructor (ttl: int)
      ensures this.ttl == ttl && entries == map[]
    {
      this.ttl, entries := ttl, map[];
    }

    method Put(lease: string, cred: string, now: int) returns (expires: int)
      modifies this
      ensures expires == now + ttl
      ensures forall s: State :: s.entries == old(entries) ==>
                Next(s, Step.Put(lease, cred, expires)).entries == entries
    {
      expires := now + ttl;
      entries := entries[lease := Entry(cred, expires)];
    }

    /** Finds and removes in one step under the lock; the caller then applies the release. */
    method Take(lease: string) returns (cred: Option<string>)
      modifies this
      ensures forall s: State, r :: s.entries == old(entries) ==> Next(s, Step.Take(lease, r)).entries == entries
      ensures cred == if lease in old(entries) then Some(old(entries)[lease].cred) else None
    {
      cred := if lease in entries then Some(entries[lease].cred) else None;
      if cred.Some? {
        entries := entries - {lease};
      }
    }

    /** The locked part of guard: removes every stale entry and lists what each one owes. */
    method Sweep(now: int) returns (owed: seq<Job>)
      modifies this
      ensures entries == old(entries) - Stale(old(entries), now)
      ensures forall l :: l in entries <==> l in old(entries) && now <= old(entries)[l].expires
      ensures (set j <- owed) == Owed(old(entries), Stale(old(entries), now)) && |owed| == |Stale(old(entries), now)|
    {
      owed := [];
      ghost var before, gone := entries, {};
      var rest := entries.Keys;
      while rest != {}
        invariant SweptTo(before, now, rest, gone, owed) && entries == before - gone
        decreases |rest|
      {
        var l :| l in rest;
        SweepMore(before, now, rest, gone, owed, l);
        rest := rest - {l};
        var e := entries[l];
        if e.expires < now {
          owed := owed + [Job(l, e.cred, NetworkError)];
          entries := entries - {l};
          gone := gone + {l};
        }
      }
      StaleIs(before, now);
    }
  }

  /** All but `rest` is swept: the stale ones are gone, and each owes its release. */
  ghost predicate SweptTo(before: map<string, Entry>, now: int, rest: set<string>, gone: set<string>, owed: seq<Job>) {
    && rest <= before.Keys && gone == Stale(before, now) - rest
    && (set j <- owed) == Owed(before, gone) && |owed| == |gone|
  }

  lemma SweepMore(before: map<string, Entry>, now: int, rest: set<string>, gone: set<string>, owed: seq<Job>, l: string)
    requires SweptTo(before, now, rest, gone, owed) && l in rest
    ensures l in before && l !in gone
    ensures if before[l].expires < now
            then SweptTo(before, now, rest - {l}, gone + {l}, owed + [Job(l, before[l].cred, NetworkError)])
                 && before - gone - {l} == before - (gone + {l})
            else SweptTo(before, now, rest - {l}, gone, owed)
  {
    OwedOneMore(before, gone, l, owed);
  }

  lemma StaleIs(entries: map<string, Entry>, now: int)
    ensures forall l :: l in entries - Stale(entries, now) <==> l in entries && now <= entries[l].expires
  {}

  lemma OwedOneMore(entries: map<string, Entry>, gone: set<string>, l: string, owed: seq<Job>)
    requires l in entries && (set j <- owed) == Owed(entries, gone)
    ensures (set j <- owed + [Job(l, entries[l].cred, NetworkError)]) == Owed(entries, gone + {l})
    ensures entries - gone - {l} == entries - (gone + {l})
  {
    var job := Job(l, entries[l].cred, NetworkError);
    assert (set j <- owed + [job]) == (set j <- owed) + {job};
    assert Owed(entries, gone + {l}) == Owed(entries, gone) + {job};
  }
}
