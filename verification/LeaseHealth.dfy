/** gateway/internal/gateway/lease_registry.go over gateway/internal/pool/pool.go: the releases the registry owes,
    applied to the pool's credentials. */
module LeaseHealth {
  import opened Common
  import opened Pool
  import Leases

  /** A release applied, or an acquisition marked, at a time. */
  datatype Event = Applied(job: Leases.Job, at: int) | Marked(cred: string, at: int)

  datatype State = State(leases: Leases.State, store: Store, history: seq<Event>)

  datatype Step =
    | Registry(step: Leases.Step)     // a put, take or sweep
    | Apply(job: Leases.Job, at: int)
    | Mark(cred: string, at: int)

  function Start(store: Store): State { State(Leases.START, store, []) }

  function Changed(store: Store, cred: string, op: HealthOp): Store {
    if cred in store then store[cred := Pool.Apply(store[cred], op)] else store
  }

  function Recorded(s: State, e: Event): State {
    var store := match e
      case Applied(j, at) => Changed(s.store, j.cred, HealthOp.Release(j.result, at))
      case Marked(cred, at) => Changed(s.store, cred, Acquired(at));
    s.(store := store, history := s.history + [e])
  }

  function Next(s: State, e: Step): State {
    match e
    case Registry(step) => if step.Run? then s else s.(leases := Leases.Next(s.leases, step))
    case Apply(j, at) =>
      if j !in s.leases.owed then s
      else Recorded(s.(leases := Leases.Next(s.leases, Leases.Run(j))), Applied(j, at))
    case Mark(cred, at) => Recorded(s, Marked(cred, at))
  }

  function Run(store: Store, es: seq<Step>): State {
    if es == [] then Start(store) else Next(Run(store, es[..|es| - 1]), es[|es| - 1])
  }

  // ---- each credential's own history ----

  function OpsOf(history: seq<Event>, cred: string): seq<HealthOp> {
    if history == [] then []
    else
      var before, op := OpsOf(history[..|history| - 1], cred), OpOf(history[|history| - 1], cred);
      if op.None? then before else before + [op.value]
  }

  function OpOf(e: Event, cred: string): Option<HealthOp> {
    match e
    case Applied(j, at) => if j.cred == cred then Some(HealthOp.Release(j.result, at)) else None
    case Marked(c, at) => if c == cred then Some(Acquired(at)) else None
  }

  lemma OpsAppend(history: seq<Event>, e: Event, cred: string)
    ensures OpsOf(history + [e], cred)
         == if OpOf(e, cred).None? then OpsOf(history, cred) else OpsOf(history, cred) + [OpOf(e, cred).value]
  {
    assert (history + [e])[..|history|] == history;
  }

  lemma ApplyAllAppend(c: Credential, ops: seq<HealthOp>, op: HealthOp)
    ensures ApplyAll(c, ops + [op]) == Pool.Apply(ApplyAll(c, ops), op)
  {
    assert (ops + [op])[..|ops|] == ops;
  }

  lemma NetworkErrorsAppend(ops: seq<HealthOp>, op: HealthOp)
    ensures NetworkErrors(ops + [op]) == NetworkErrors(ops) + if IsNetworkError(op) then 1 else 0
  {
    assert (ops + [op])[..|ops|] == ops;
  }

  lemma HistoryStep(c: Credential, history: seq<Event>, e: Event, cred: string)
    ensures ApplyAll(c, OpsOf(history + [e], cred))
         == if OpOf(e, cred).None? then ApplyAll(c, OpsOf(history, cred))
            else Pool.Apply(ApplyAll(c, OpsOf(history, cred)), OpOf(e, cred).value)
  {
    OpsAppend(history, e, cred);
    if OpOf(e, cred).Some? {
      ApplyAllAppend(c, OpsOf(history, cred), OpOf(e, cred).value);
    }
  }

  ghost predicate Follows(s: State, c: Credential, cred: string) {
    cred in s.store && s.store[cred] == ApplyAll(c, OpsOf(s.history, cred))
  }

  lemma RecordedFollows(s: State, e: Event, c: Credential, cred: string)
    requires Follows(s, c, cred)
    ensures Follows(Recorded(s, e), c, cred)
  {
    HistoryStep(c, s.history, e, cred);
    assert OpOf(e, cred).None? ==> cred in s.store && Recorded(s, e).store[cred] == s.store[cred];
  }

  lemma StepFollows(s: State, e: Step, c: Credential, cred: string)
    requires Follows(s, c, cred)
    ensures Follows(Next(s, e), c, cred)
  {
    match e
    case Registry(_) =>
    case Apply(j, at) =>
      if j in s.leases.owed {
        RecordedFollows(s.(leases := Leases.Next(s.leases, Leases.Run(j))), Applied(j, at), c, cred);
      }
    case Mark(x, at) => RecordedFollows(s, Marked(x, at), c, cred);
  }

  /** In every interleaving a credential is what it was at the start changed by its own releases and acquisitions. */
  lemma {:induction false} CredentialIsItsHistory(store: Store, es: seq<Step>, cred: string)
    requires cred in store
    ensures Follows(Run(store, es), store[cred], cred)
  {
    if es != [] {
      CredentialIsItsHistory(store, es[..|es| - 1], cred);
      StepFollows(Run(store, es[..|es| - 1]), es[|es| - 1], store[cred], cred);
    }
  }

  // ---- the registry's part is module Leases' ----

  function RegistrySteps(store: Store, es: seq<Step>): seq<Leases.Step> {
    if es == [] then []
    else RegistrySteps(store, es[..|es| - 1]) + RegistryStep(es[|es| - 1])
  }

  function RegistryStep(e: Step): seq<Leases.Step> {
    match e
    case Registry(step) => if step.Run? then [] else [step]
    case Apply(j, _) => [Leases.Run(j)]
    case Mark(_, _) => []
  }

  lemma AfterAppend(ls: seq<Leases.Step>, e: Leases.Step)
    ensures Leases.After(ls + [e]) == Leases.Next(Leases.After(ls), e)
  {
    assert (ls + [e])[..|ls|] == ls;
  }

  lemma LeasesStep(s: State, e: Step)
    ensures Next(s, e).leases == if RegistryStep(e) == [] then s.leases else Leases.Next(s.leases, RegistryStep(e)[0])
  {}

  lemma {:induction false} RegistryIsLeases(store: Store, es: seq<Step>)
    ensures Run(store, es).leases == Leases.After(RegistrySteps(store, es))
  {
    if es != [] {
      RegistryIsLeases(store, es[..|es| - 1]);
      LeasesStep(Run(store, es[..|es| - 1]), es[|es| - 1]);
      var ls, step := RegistrySteps(store, es[..|es| - 1]), RegistryStep(es[|es| - 1]);
      if step == [] {
        assert ls + step == ls;
      } else {
        assert step == [step[0]];
        AfterAppend(ls, step[0]);
      }
    }
  }

  /** The leases of cred that these events released with a network error. */
  function ErrorLeases(history: seq<Event>, cred: string): set<string> {
    set e <- history | e.Applied? && e.job.cred == cred && e.job.result == NetworkError :: e.job.lease
  }

  predicate CountsAgainst(e: Event, cred: string) {
    e.Applied? && e.job.cred == cred && e.job.result == NetworkError
  }

  lemma ErrorsAppend(front: seq<Event>, e: Event, cred: string)
    ensures NetworkErrors(OpsOf(front + [e], cred))
         == NetworkErrors(OpsOf(front, cred)) + if CountsAgainst(e, cred) then 1 else 0
  {
    OpsAppend(front, e, cred);
    if OpOf(e, cred).Some? {
      NetworkErrorsAppend(OpsOf(front, cred), OpOf(e, cred).value);
    }
  }

  lemma LeasesAppend(front: seq<Event>, e: Event, cred: string)
    ensures ErrorLeases(front + [e], cred)
         == if CountsAgainst(e, cred) then ErrorLeases(front, cred) + {e.job.lease} else ErrorLeases(front, cred)
  {
    assert forall x :: x in front + [e] <==> x in front || x == e;
  }

  lemma {:induction false} ErrorsCount(history: seq<Event>, cred: string)
    ensures |ErrorLeases(history, cred)| <= NetworkErrors(OpsOf(history, cred))
  {
    if history != [] {
      var front, e := history[..|history| - 1], history[|history| - 1];
      assert history == front + [e];
      ErrorsCount(front, cred);
      ErrorsAppend(front, e, cred);
      LeasesAppend(front, e, cred);
    }
  }

  /** Every release applied is in the history. */
  lemma {:induction false} AppliedIsRecorded(store: Store, es: seq<Step>, j: Leases.Job)
    requires j in Run(store, es).leases.applied
    ensures exists e <- Run(store, es).history :: e.Applied? && e.job == j
  {
    var s, s' := Run(store, es[..|es| - 1]), Run(store, es);
    var e := es[|es| - 1];
    if j in s.leases.applied {
      AppliedIsRecorded(store, es[..|es| - 1], j);
      var x :| x in s.history && x.Applied? && x.job == j;
      assert x in s'.history;
    } else {
      assert e.Apply? && s'.history == s.history + [Applied(j, e.at)];
      assert s'.history[|s.history|] == Applied(j, e.at);
    }
  }

  /** Once nothing is owed, each expired lease of a credential has counted against it as a network error. */
  lemma ExpiredLeasesCount(store: Store, es: seq<Step>, cred: string, leases: set<string>)
    requires Leases.NoReissue(RegistrySteps(store, es))
    requires var s := Run(store, es).leases;
             s.owed == multiset{} && leases <= s.expired && forall l <- leases :: l in s.issued && s.issued[l] == cred
    ensures |leases| <= NetworkErrors(OpsOf(Run(store, es).history, cred))
  {
    var s, ls := Run(store, es), RegistrySteps(store, es);
    RegistryIsLeases(store, es);
    Leases.EveryRun(ls);
    forall l <- leases
      ensures l in ErrorLeases(s.history, cred)
    {
      Leases.NoneIsForgotten(ls, l);
      var j :| j in s.leases.applied && j.lease == l;
      assert Leases.Settles(s.leases, j);
      AppliedIsRecorded(store, es, j);
    }
    SubsetSize(leases, ErrorLeases(s.history, cred));
    ErrorsCount(s.history, cred);
  }

  /** So five expired leases of a credential, less the errors counted before, with no OK in between, have set its
      cooldown on the way. */
  lemma FiveExpiredLeasesCoolDown(store: Store, es: seq<Step>, cred: string, leases: set<string>)
    requires cred in store && Leases.NoReissue(RegistrySteps(store, es))
    requires var s := Run(store, es).leases;
             s.owed == multiset{} && leases <= s.expired && forall l <- leases :: l in s.issued && s.issued[l] == cred
    requires leases != {} && 5 <= store[cred].failCount + |leases| && NoOK(OpsOf(Run(store, es).history, cred))
    ensures CooledDown(store[cred], OpsOf(Run(store, es).history, cred))
    ensures Follows(Run(store, es), store[cred], cred)
  {
    ExpiredLeasesCount(store, es, cred, leases);
    FiveErrorsCoolDown(store[cred], OpsOf(Run(store, es).history, cred));
    CredentialIsItsHistory(store, es, cred);
  }
}
