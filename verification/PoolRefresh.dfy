/** gateway/internal/pool/pool.go, RefreshCredential in its three phases, interleaved with every other
    writer of the pool. */
module PoolRefresh {
  import opened Common
  import opened Pool

  /** A refresh between its phases 1 and 3, or over. */
  datatype Caller = Calling(id: string, orig: Status) | Over

  datatype State = State(store: Store, callers: seq<Caller>)

  datatype Step =
    | Begin(id: string)
    | Finish(caller: nat, payload: Option<string>)  // None: the upstream call failed
    | Acquire(id: string, provider: string, capability: int, now: int)  // the pick fell on id
    | Release(id: string, result: PoolResult, now: int)
    | SetStatus(id: string, status: Status)  // SetCredentialStatus and DisableCredential

  function Finished(c: Credential, orig: Status, payload: Option<string>): Credential {
    match payload
    case None => c.(status := orig)
    case Some(p) => c.(payload := p, status := Active, health := 1.0, failCount := 0, cooldownUntil := NEVER)
  }

  function StatusSet(c: Credential, st: Status): Credential {
    if st == Active then c.(status := Active, cooldownUntil := NEVER, failCount := 0) else c.(status := st)
  }

  /** A setting puts the status; activation also clears cooldown and failures, disabling keeps them. */
  lemma SettingChanges(c: Credential, st: Status)
    ensures StatusSet(c, st).status == st
    ensures st == Active ==> StatusSet(c, st).cooldownUntil == 0 && StatusSet(c, st).failCount == 0
    ensures st != Active ==>
              StatusSet(c, st).cooldownUntil == c.cooldownUntil && StatusSet(c, st).failCount == c.failCount
    ensures StatusSet(c, st).(status := c.status, cooldownUntil := c.cooldownUntil, failCount := c.failCount) == c
  {}

  function Put(s: State, id: string, c: Credential): State { s.(store := s.store[id := c]) }

  function Next(s: State, e: Step): State {
    match e
    case Begin(id) =>
      if id !in s.store || s.store[id].status == Refreshing then s
      else State(s.store[id := s.store[id].(status := Refreshing)], s.callers + [Calling(id, s.store[id].status)])
    case Finish(i, payload) =>
      if i < |s.callers| && s.callers[i].Calling? && s.callers[i].id in s.store then
        var id := s.callers[i].id;
        State(s.store[id := Finished(s.store[id], s.callers[i].orig, payload)], s.callers[i := Over])
      else s
    case Acquire(id, provider, capability, now) =>
      if CanAcquire(s, id, provider, capability, now) then Put(s, id, s.store[id].(lastUsedAt := now)) else s
    case Release(id, result, now) =>
      if id in s.store then Put(s, id, Released(s.store[id], result, now)) else s
    case SetStatus(id, st) =>
      if id in s.store && (st == Active || st == Disabled) then Put(s, id, StatusSet(s.store[id], st)) else s
  }

  predicate CanAcquire(s: State, id: string, provider: string, capability: int, now: int) {
    id in s.store && Eligible(s.store[id], provider, capability, now)
  }

  function Run(s: State, es: seq<Step>): State {
    if es == [] then s else Next(Run(s, es[..|es| - 1]), es[|es| - 1])
  }

  predicate SetsStatusOf(e: Step, id: string) {
    e.SetStatus? && e.id == id && (e.status == Active || e.status == Disabled)
  }

  /** A step of another writer that writes id's status: an accepted setting, or an AuthFailed release. */
  predicate WritesStatusOf(e: Step, id: string) {
    SetsStatusOf(e, id) || (e.Release? && e.id == id && e.result == AuthFailed)
  }

  ghost predicate NoOtherStatusWriter(es: seq<Step>, id: string) {
    forall e <- es :: !WritesStatusOf(e, id)
  }

  predicate InCall(s: State, i: nat, id: string) {
    i < |s.callers| && s.callers[i].Calling? && s.callers[i].id == id
  }

  // ---- mutual exclusion ----

  /** The status says refreshing exactly while one caller is upstream for that credential. */
  ghost predicate Exclusive(s: State, id: string) {
    && (id in s.store ==> (s.store[id].status == Refreshing <==> exists i: nat :: InCall(s, i, id)))
    && (forall i: nat, j: nat :: InCall(s, i, id) && InCall(s, j, id) ==> i == j)
    && (forall i: nat :: InCall(s, i, id) ==> id in s.store && s.callers[i].orig != Refreshing)
  }

  lemma StepKeeps(s: State, e: Step, id: string)
    requires Exclusive(s, id) && !WritesStatusOf(e, id)
    ensures Exclusive(Next(s, e), id)
  {
    var s' := Next(s, e);
    match e
    case Begin(x) =>
      if x == id && s' != s {
        assert InCall(s', |s.callers|, id);
      }
      forall i: nat
        ensures i < |s.callers| ==> InCall(s', i, id) == InCall(s, i, id)
      {}
    case Finish(k, _) =>
      if s' != s {
        assert InCall(s, k, s.callers[k].id);
        forall i: nat
          ensures InCall(s', i, id) == (InCall(s, i, id) && i != k)
        {}
      }
    case _ =>
      forall i: nat
        ensures InCall(s', i, id) == InCall(s, i, id)
      {}
  }

  ghost predicate NobodyUpstream(s: State, id: string) {
    forall i: nat :: !InCall(s, i, id)
  }

  ghost predicate Idle(s: State, id: string) {
    NobodyUpstream(s, id) && (id in s.store ==> s.store[id].status != Refreshing)
  }

  lemma {:induction false} ExclusiveInEveryRun(s: State, es: seq<Step>, id: string)
    requires Idle(s, id) && NoOtherStatusWriter(es, id)
    ensures Exclusive(Run(s, es), id)
  {
    if es == [] {
      assert forall i: nat :: !InCall(s, i, id);
    } else {
      var front, e := es[..|es| - 1], es[|es| - 1];
      assert e in es && forall x <- front :: x in es;
      ExclusiveInEveryRun(s, front, id);
      StepKeeps(Run(s, front), e, id);
    }
  }

  /** Whatever interleaving of refreshes, acquisitions, releases and status writes of other credentials led here:
      while one caller is upstream, no other is, none can begin, and no acquisition gets the credential. */
  lemma RefreshIsExclusive(s: State, es: seq<Step>, i: nat, id: string)
    requires Idle(s, id) && NoOtherStatusWriter(es, id) && InCall(Run(s, es), i, id)
    ensures forall j: nat :: InCall(Run(s, es), j, id) ==> j == i
    ensures Next(Run(s, es), Begin(id)) == Run(s, es)
    ensures forall p, c, now :: !CanAcquire(Run(s, es), id, p, c, now)
  {
    ExclusiveInEveryRun(s, es, id);
  }

  /** A status written by anyone else, be it a setting or a ban, keeps the exclusion iff nobody is upstream
      at that moment. */
  lemma StatusWriteKeepsIff(s: State, e: Step, id: string)
    requires Exclusive(s, id) && id in s.store && WritesStatusOf(e, id)
    ensures Exclusive(Next(s, e), id) <==> !exists i: nat :: InCall(s, i, id)
  {
    var s' := Next(s, e);
    forall i: nat
      ensures InCall(s', i, id) == InCall(s, i, id)
    {}
  }

  /** Reactivating a credential under refresh lets a second refresh of it begin. */
  lemma ReactivationBreaksExclusion(s: State, id: string)
    requires id in s.store && s.store[id].status != Refreshing
    ensures var s' := Run(s, [Begin(id), SetStatus(id, Active), Begin(id)]);
            InCall(s', |s.callers|, id) && InCall(s', |s.callers| + 1, id)
  {
    var a, b := [Begin(id)], [Begin(id), SetStatus(id, Active)];
    var c := [Begin(id), SetStatus(id, Active), Begin(id)];
    assert a[..0] == [] && b[..1] == a && c[..2] == b;
    assert Run(s, a) == Next(s, Begin(id));
    assert Run(s, b) == Next(Run(s, a), b[1]);
    assert Run(s, c) == Next(Run(s, b), c[2]);
  }

  // ---- what a failed refresh leaves ----

  /** The releases of id among the steps, as changes of one credential. */
  function ReleasesOf(es: seq<Step>, id: string): seq<HealthOp> {
    if es == [] then []
    else
      var e := es[|es| - 1];
      ReleasesOf(es[..|es| - 1], id) + if e.Release? && e.id == id then [HealthOp.Release(e.result, e.now)] else []
  }

  lemma ApplyAllAppend(c: Credential, ops: seq<HealthOp>, op: HealthOp)
    ensures ApplyAll(c, ops + [op]) == Apply(ApplyAll(c, ops), op)
  {
    assert (ops + [op])[..|ops|] == ops;
  }

  ghost predicate NotFinished(es: seq<Step>, i: nat) {
    forall e <- es :: e.Finish? ==> e.caller != i
  }

  lemma OneStepDuring(s: State, e: Step, i: nat, id: string)
    requires InCall(s, i, id) && Exclusive(s, id) && !WritesStatusOf(e, id) && (e.Finish? ==> e.caller != i)
    ensures Exclusive(Next(s, e), id) && InCall(Next(s, e), i, id) && Next(s, e).callers[i] == s.callers[i]
    ensures Next(s, e).store[id] == if e.Release? && e.id == id then Released(s.store[id], e.result, e.now)
                                    else s.store[id]
  {
    StepKeeps(s, e, id);
    assert !(e.Finish? && InCall(s, e.caller, id));
  }

  lemma ReleasesAppend(c: Credential, front: seq<Step>, e: Step, id: string)
    ensures ApplyAll(c, ReleasesOf(front + [e], id))
         == if e.Release? && e.id == id then Released(ApplyAll(c, ReleasesOf(front, id)), e.result, e.now)
            else ApplyAll(c, ReleasesOf(front, id))
  {
    assert (front + [e])[..|front|] == front;
    if e.Release? && e.id == id {
      ApplyAllAppend(c, ReleasesOf(front, id), HealthOp.Release(e.result, e.now));
    } else {
      assert ReleasesOf(front, id) + [] == ReleasesOf(front, id);
    }
  }

  /** While caller i is upstream, only releases change its credential. */
  lemma {:induction false} OnlyReleasesDuring(s: State, es: seq<Step>, i: nat, id: string)
    requires InCall(s, i, id) && Exclusive(s, id) && NoOtherStatusWriter(es, id) && NotFinished(es, i)
    ensures Exclusive(Run(s, es), id) && InCall(Run(s, es), i, id) && Run(s, es).callers[i] == s.callers[i]
    ensures Run(s, es).store[id] == ApplyAll(s.store[id], ReleasesOf(es, id))
  {
    if es != [] {
      var front, e := es[..|es| - 1], es[|es| - 1];
      assert e in es && forall x <- front :: x in es;
      OnlyReleasesDuring(s, front, i, id);
      OneStepDuring(Run(s, front), e, i, id);
      ReleasesAppend(s.store[id], front, e, id);
      assert es == front + [e];
    }
  }

  lemma ReleaseIgnoresStatus(c: Credential, st: Status, r: PoolResult, now: int)
    requires r != AuthFailed
    ensures Released(c.(status := st), r, now) == Released(c, r, now).(status := st)
    ensures Released(c, r, now).status == c.status
  {}

  /** Releases other than AuthFailed act alike whatever the status. */
  lemma {:induction false} StatusIsIrrelevant(c: Credential, st: Status, es: seq<Step>, id: string)
    requires NoOtherStatusWriter(es, id)
    ensures ApplyAll(c.(status := st), ReleasesOf(es, id)) == ApplyAll(c, ReleasesOf(es, id)).(status := st)
    ensures ApplyAll(c, ReleasesOf(es, id)).status == c.status
  {
    if es != [] {
      var front, e := es[..|es| - 1], es[|es| - 1];
      assert e in es && forall x <- front :: x in es;
      StatusIsIrrelevant(c, st, front, id);
      assert es == front + [e];
      ReleasesAppend(c, front, e, id);
      ReleasesAppend(c.(status := st), front, e, id);
      if e.Release? && e.id == id {
        ReleaseIgnoresStatus(ApplyAll(c, ReleasesOf(front, id)), st, e.result, e.now);
      }
    }
  }

  lemma BeginsCall(s: State, id: string)
    requires id in s.store && s.store[id].status != Refreshing && Exclusive(s, id)
    ensures var s' := Next(s, Begin(id));
            Exclusive(s', id) && InCall(s', |s.callers|, id) && s'.callers[|s.callers|].orig == s.store[id].status
            && s'.store[id] == s.store[id].(status := Refreshing)
  {
    StepKeeps(s, Begin(id), id);
  }

  /** A refresh that fails might as well not have been made: the credential has its original status
      and payload, and every change the releases in between made. */
  lemma FailedRefreshLeavesNoTrace(s: State, id: string, during: seq<Step>)
    requires id in s.store && s.store[id].status != Refreshing && Exclusive(s, id)
    requires NoOtherStatusWriter(during, id) && NotFinished(during, |s.callers|)
    ensures var s' := Next(Run(Next(s, Begin(id)), during), Finish(|s.callers|, None));
            id in s'.store && s'.store[id] == ApplyAll(s.store[id], ReleasesOf(during, id))
  {
    var i, c := |s.callers|, s.store[id];
    var begun := Next(s, Begin(id));
    BeginsCall(s, id);
    OnlyReleasesDuring(begun, during, i, id);
    StatusIsIrrelevant(c, Refreshing, during, id);
  }

  /** A refresh that succeeds wins over them: fresh payload, active, full health, no failures or cooldown. */
  lemma SucceededRefreshStartsAfresh(s: State, id: string, during: seq<Step>, payload: string)
    requires id in s.store && s.store[id].status != Refreshing && Exclusive(s, id)
    requires NoOtherStatusWriter(during, id) && NotFinished(during, |s.callers|)
    ensures var s' := Next(Run(Next(s, Begin(id)), during), Finish(|s.callers|, Some(payload)));
            id in s'.store &&
            var c := s'.store[id];
            && c.payload == payload && c.status == Active && c.health == 1.0
            && c.failCount == 0 && c.cooldownUntil == NEVER
            && c.lastFailedAt == ApplyAll(s.store[id], ReleasesOf(during, id)).lastFailedAt
  {
    BeginsCall(s, id);
    OnlyReleasesDuring(Next(s, Begin(id)), during, |s.callers|, id);
    StatusIsIrrelevant(s.store[id], Refreshing, during, id);
  }

  /** A ban earned while a refresh is upstream is lost either way. */
  lemma BanDuringRefreshIsLost(s: State, id: string, now: int, payload: Option<string>)
    requires id in s.store && s.store[id].status == Active
    ensures var banned := Next(Next(s, Begin(id)), Step.Release(id, AuthFailed, now));
            banned.store[id].status == Banned && Next(banned, Finish(|s.callers|, payload)).store[id].status == Active
  {}

  // ---- what becomes of a ban ----

  /** A finishing refresh leaves a ban in place iff it failed and had begun on a banned credential. */
  lemma BanSurvivesFinishIff(s: State, id: string, i: nat, payload: Option<string>)
    requires id in s.store && s.store[id].status == Banned && InCall(s, i, id)
    ensures id in Next(s, Finish(i, payload)).store
    ensures Next(s, Finish(i, payload)).store[id].status == Banned
       <==> payload.None? && s.callers[i].orig == Banned
  {}

  /** A setting of id's status, or the begin of a refresh of it. */
  predicate Lifts(e: Step, id: string) { SetsStatusOf(e, id) || (e.Begin? && e.id == id) }

  /** With nobody upstream a step leaves a ban in place iff it does not lift it. */
  lemma BanSurvivesStepIff(s: State, e: Step, id: string)
    requires id in s.store && s.store[id].status == Banned && NobodyUpstream(s, id)
    ensures id in Next(s, e).store && (Next(s, e).store[id].status == Banned <==> !Lifts(e, id))
    ensures !Lifts(e, id) ==> NobodyUpstream(Next(s, e), id)
  {
    var s' := Next(s, e);
    if e.Finish? && s' != s {
      assert InCall(s, e.caller, s.callers[e.caller].id);
    }
    if !Lifts(e, id) {
      forall i: nat
        ensures !InCall(s', i, id)
      {
        assert !InCall(s, i, id);
      }
    }
  }

  /** So a ban lasts through every run of acquisitions, releases and refreshes of other credentials. */
  lemma {:induction false} BanLasts(s: State, es: seq<Step>, id: string)
    requires id in s.store && s.store[id].status == Banned && NobodyUpstream(s, id)
    requires forall e <- es :: !Lifts(e, id)
    ensures id in Run(s, es).store && Run(s, es).store[id].status == Banned && NobodyUpstream(Run(s, es), id)
  {
    if es != [] {
      var front, e := es[..|es| - 1], es[|es| - 1];
      assert e in es && forall x <- front :: x in es;
      BanLasts(s, front, id);
      BanSurvivesStepIff(Run(s, front), e, id);
    }
  }
}
