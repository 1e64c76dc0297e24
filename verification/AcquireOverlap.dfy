/** gateway/internal/pool/pool.go, Acquire with its unlocked List and Update apart: what it writes back is a copy
    read earlier, and refreshes, releases and status writes may come in between. */
module AcquireOverlap {
  import opened Common
  import opened Pool
  import PoolRefresh

  /** copies are the credentials that acquisitions in flight have picked. */
  datatype State = State(core: PoolRefresh.State, copies: seq<Credential>)

  datatype Step =
    | Whole(step: PoolRefresh.Step)
    | Pick(id: string, provider: string, capability: int, now: int)  // List, and the draw falls to id
    | Mark(copy: nat, now: int)                                      // Update with the new LastUsedAt

  /** A marking that does something. */
  predicate Marks(s: State, k: nat) { k < |s.copies| && s.copies[k].id in s.core.store }

  function Next(s: State, e: Step): State {
    match e
    case Whole(step) => s.(core := PoolRefresh.Next(s.core, step))
    case Pick(id, provider, capability, now) =>
      if PoolRefresh.CanAcquire(s.core, id, provider, capability, now)
      then s.(copies := s.copies + [s.core.store[id]]) else s
    case Mark(k, now) =>
      if Marks(s, k) then s.(core := PoolRefresh.Put(s.core, s.copies[k].id, s.copies[k].(lastUsedAt := now))) else s
  }

  function Run(s: State, es: seq<Step>): State {
    if es == [] then s else Next(Run(s, es[..|es| - 1]), es[|es| - 1])
  }

  /** Picked and marked at once, a copy is the acquisition of one step. */
  lemma AtOnceIsAcquire(s: State, id: string, provider: string, capability: int, now: int)
    requires PoolRefresh.CanAcquire(s.core, id, provider, capability, now) && s.core.store[id].id == id
    ensures Next(Next(s, Pick(id, provider, capability, now)), Mark(|s.copies|, now)).core
         == PoolRefresh.Next(s.core, PoolRefresh.Acquire(id, provider, capability, now))
  {}

  /** Every copy was active, and stored credentials are under their own ids. */
  ghost predicate Picked(s: State) {
    (forall id <- s.core.store :: s.core.store[id].id == id) && forall c <- s.copies :: c.status == Active
  }

  lemma PickedStep(s: State, e: Step)
    requires Picked(s)
    ensures Picked(Next(s, e))
  {
    if e.Mark? && Marks(s, e.copy) {
      assert s.copies[e.copy] in s.copies;
    }
  }

  // ---- which marks do harm ----

  /** A copy marked, however stale, keeps the exclusion of refreshes iff its credential is not under refresh. */
  lemma MarkKeepsIff(s: State, k: nat, now: int)
    requires Picked(s) && Marks(s, k) && PoolRefresh.Exclusive(s.core, s.copies[k].id)
    ensures PoolRefresh.Exclusive(Next(s, Mark(k, now)).core, s.copies[k].id)
       <==> s.core.store[s.copies[k].id].status != Refreshing
  {
    var id, core' := s.copies[k].id, Next(s, Mark(k, now)).core;
    assert s.copies[k] in s.copies;
    forall i: nat
      ensures PoolRefresh.InCall(core', i, id) == PoolRefresh.InCall(s.core, i, id)
    {}
  }

  /** It keeps the status, a ban included, iff that is still the one it read. */
  lemma MarkKeepsStatusIff(s: State, k: nat, now: int)
    requires Picked(s) && Marks(s, k)
    ensures var id := s.copies[k].id;
            Next(s, Mark(k, now)).core.store[id].status == s.core.store[id].status
            <==> s.core.store[id].status == Active
  {
    assert s.copies[k] in s.copies;
  }

  lemma {:induction false} CopiesStay(s: State, es: seq<Step>, k: nat)
    requires k < |s.copies|
    ensures k < |Run(s, es).copies| && Run(s, es).copies[k] == s.copies[k]
  {
    if es != [] {
      CopiesStay(s, es[..|es| - 1], k);
    }
  }

  /** Everything that happened to a credential between its pick and its mark is lost. */
  lemma MarkForgets(s: State, es: seq<Step>, k: nat, now: int)
    requires Marks(s, k) && Marks(Run(s, es), k)
    ensures var id, store' := s.copies[k].id, Next(Run(s, es), Mark(k, now)).core.store;
            id in store' && store'[id] == s.copies[k].(lastUsedAt := now)
  {
    CopiesStay(s, es, k);
  }

  // ---- exclusion over every run ----

  /** No other status writer, and no mark while the credential is under refresh. */
  ghost predicate NoStaleMark(s: State, es: seq<Step>, id: string) {
    es != [] ==>
      var t, e := Run(s, es[..|es| - 1]), es[|es| - 1];
      && NoStaleMark(s, es[..|es| - 1], id)
      && (e.Whole? ==> !PoolRefresh.WritesStatusOf(e.step, id))
      && (e.Mark? && Marks(t, e.copy) && t.copies[e.copy].id == id ==> t.core.store[id].status != Refreshing)
  }

  lemma StepKeeps(s: State, e: Step, id: string)
    requires Picked(s) && PoolRefresh.Exclusive(s.core, id)
    requires e.Whole? ==> !PoolRefresh.WritesStatusOf(e.step, id)
    requires e.Mark? && Marks(s, e.copy) && s.copies[e.copy].id == id ==> s.core.store[id].status != Refreshing
    ensures PoolRefresh.Exclusive(Next(s, e).core, id)
  {
    match e
    case Whole(step) => PoolRefresh.StepKeeps(s.core, step, id);
    case Pick(_, _, _, _) =>
    case Mark(k, now) =>
      if Marks(s, k) && s.copies[k].id == id {
        MarkKeepsIff(s, k, now);
      } else {
        var core' := Next(s, e).core;
        forall i: nat
          ensures PoolRefresh.InCall(core', i, id) == PoolRefresh.InCall(s.core, i, id)
        {}
      }
  }

  /** With picks and marks apart, refreshes of a credential still exclude one another in every such run. */
  lemma {:induction false} ExclusiveInEveryRun(s: State, es: seq<Step>, id: string)
    requires Picked(s) && PoolRefresh.Idle(s.core, id) && NoStaleMark(s, es, id)
    ensures Picked(Run(s, es)) && PoolRefresh.Exclusive(Run(s, es).core, id)
  {
    if es == [] {
      assert forall i: nat :: !PoolRefresh.InCall(s.core, i, id);
    } else {
      var front, e := es[..|es| - 1], es[|es| - 1];
      ExclusiveInEveryRun(s, front, id);
      PickedStep(Run(s, front), e);
      StepKeeps(Run(s, front), e, id);
    }
  }

  /** A credential picked before a refresh and marked during it lets a second refresh begin. */
  lemma StaleMarkBreaksExclusion(s: State, id: string, provider: string, capability: int, now: int)
    requires PoolRefresh.CanAcquire(s.core, id, provider, capability, now) && s.core.store[id].id == id
    ensures var begin := Whole(PoolRefresh.Begin(id));
            var s' := Next(Next(Next(Next(s, Pick(id, provider, capability, now)), begin),
                           Mark(|s.copies|, now)), begin);
            PoolRefresh.InCall(s'.core, |s.core.callers|, id) && PoolRefresh.InCall(s'.core, |s.core.callers| + 1, id)
  {}

  /** And one picked before a ban and marked after it is active again. */
  lemma StaleMarkLiftsBan(s: State, id: string, provider: string, capability: int, now: int)
    requires PoolRefresh.CanAcquire(s.core, id, provider, capability, now) && s.core.store[id].id == id
    ensures var banned := Next(Next(s, Pick(id, provider, capability, now)),
                               Whole(PoolRefresh.Release(id, AuthFailed, now)));
            && banned.core.store[id].status == Banned
            && Next(banned, Mark(|s.copies|, now)).core.store[id].status == Active
  {}
}
