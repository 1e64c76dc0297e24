/** gateway/internal/billing/service.go, CreateOrder with its lookup and its creation apart, each under a lock
    of its own: calls with one idempotency key may race. */
module Creation {
  import opened Common
  import opened Orders

  datatype Stage = Looking | Creating | Answered(outcome: Outcome)

  datatype Call = Call(order: Order, stage: Stage)

  datatype State = State(store: Store, idemx: map<string, string>, calls: seq<Call>)

  datatype Step =
    | Arrive(order: Order)
    | Look(call: nat)
    | Make(call: nat)
    | Touch(id: string, status: Status, paidAt: Option<int>)  // transitions, sweeps and refunds

  const START := State(map[], map[], [])

  function At(s: State, i: nat, stage: Stage): bool { i < |s.calls| && s.calls[i].stage == stage }

  function Answering(s: State, i: nat, r: Outcome): State
    requires i < |s.calls|
  {
    s.(calls := s.calls[i := s.calls[i].(stage := Answered(r))])
  }

  function Next(s: State, e: Step): State {
    match e
    case Arrive(o) => s.(calls := s.calls + [Call(o, Looking)])
    case Look(i) =>
      if !At(s, i, Looking) then s
      else
        var key := s.calls[i].order.idemKey;
        if key != "" && key in s.idemx && s.idemx[key] in s.store then Answering(s, i, Ok(s.store[s.idemx[key]]))
        else s.(calls := s.calls[i := s.calls[i].(stage := Creating)])
    case Make(i) =>
      if !At(s, i, Creating) then s
      else
        var o := s.calls[i].order;
        if o.idemKey != "" && o.idemKey in s.idemx then Answering(s, i, Err(DuplicateOrder))
        else
          Answering(s.(store := s.store[o.id := o],
                       idemx := if o.idemKey == "" then s.idemx else s.idemx[o.idemKey := o.id]), i, Ok(o))
    case Touch(id, status, paidAt) =>
      if id in s.store then s.(store := s.store[id := s.store[id].(status := status, paidAt := paidAt)]) else s
  }

  function Run(es: seq<Step>): State {
    if es == [] then START else Next(Run(es[..|es| - 1]), es[|es| - 1])
  }

  predicate IsFresh(s: State, e: Step) {
    e.Arrive? ==> e.order.id !in s.store && forall c <- s.calls :: c.order.id != e.order.id
  }

  /** Every order comes with an id of its own. */
  ghost predicate FreshIds(es: seq<Step>) {
    es != [] ==> FreshIds(es[..|es| - 1]) && IsFresh(Run(es[..|es| - 1]), es[|es| - 1])
  }

  /** Index and store point at each other. */
  ghost predicate Indexed(store: Store, idemx: map<string, string>) {
    && (forall id <- store :: store[id].id == id)
    && (forall k <- idemx :: k != "" && idemx[k] in store && store[idemx[k]].idemKey == k)
    && forall id <- store :: store[id].idemKey != "" ==> store[id].idemKey in idemx && idemx[store[id].idemKey] == id
  }

  /** A call still under way has stored nothing. */
  ghost predicate Unmade(s: State) {
    && (forall i, j :: 0 <= i < j < |s.calls| ==> s.calls[i].order.id != s.calls[j].order.id)
    && forall c <- s.calls :: !c.stage.Answered? ==> c.order.id !in s.store
  }

  /** A call answered with an order was answered with the one its key leads to. */
  ghost predicate AnsweredByKey(s: State, c: Call) {
    c.stage.Answered? && c.stage.outcome.Ok? && c.order.idemKey != "" ==>
      c.order.idemKey in s.idemx && s.idemx[c.order.idemKey] == c.stage.outcome.order.id
  }

  ghost predicate Invariant(s: State) {
    Indexed(s.store, s.idemx) && Unmade(s) && forall c <- s.calls :: AnsweredByKey(s, c)
  }

  lemma MakeKeeps(s: State, i: nat)
    requires Invariant(s) && At(s, i, Creating)
    ensures Invariant(Next(s, Make(i)))
  {
    var s', o := Next(s, Make(i)), s.calls[i].order;
    assert s.calls[i] in s.calls;
    forall c <- s'.calls
      ensures AnsweredByKey(s', c)
    {
      if c in s.calls {
        assert AnsweredByKey(s, c);
      }
    }
  }

  lemma LookKeeps(s: State, i: nat)
    requires Invariant(s) && At(s, i, Looking)
    ensures Invariant(Next(s, Look(i)))
  {
    var s' := Next(s, Look(i));
    assert s.calls[i] in s.calls;
    forall c <- s'.calls
      ensures AnsweredByKey(s', c)
    {
      if c in s.calls {
        assert AnsweredByKey(s, c);
      }
    }
  }

  lemma StepKeeps(s: State, e: Step)
    requires Invariant(s) && IsFresh(s, e)
    ensures Invariant(Next(s, e))
  {
    match e
    case Make(i) =>
      if At(s, i, Creating) {
        MakeKeeps(s, i);
      }
    case Look(i) =>
      if At(s, i, Looking) {
        LookKeeps(s, i);
      }
    case _ =>
  }

  lemma {:induction false} EveryRun(es: seq<Step>)
    requires FreshIds(es)
    ensures Invariant(Run(es))
  {
    if es != [] {
      EveryRun(es[..|es| - 1]);
      StepKeeps(Run(es[..|es| - 1]), es[|es| - 1]);
    }
  }

  /** However calls race, no two orders are stored under one nonempty key, and two calls with that key that were
      answered with an order were answered with the same one. */
  lemma OneOrderPerKey(es: seq<Step>, a: string, b: string, i: nat, j: nat)
    requires FreshIds(es)
    ensures var store := Run(es).store;
            a in store && b in store && store[a].idemKey == store[b].idemKey != "" ==> a == b
    ensures var calls := Run(es).calls;
            i < |calls| && j < |calls| && calls[i].order.idemKey == calls[j].order.idemKey != ""
            && calls[i].stage.Answered? && calls[i].stage.outcome.Ok?
            && calls[j].stage.Answered? && calls[j].stage.outcome.Ok?
            ==> calls[i].stage.outcome.order.id == calls[j].stage.outcome.order.id
  {
    EveryRun(es);
    var s := Run(es);
    if i < |s.calls| && j < |s.calls| {
      assert AnsweredByKey(s, s.calls[i]) && AnsweredByKey(s, s.calls[j]);
    }
  }

  /** A look answers iff its key is taken, with the order as it now is; else the call goes on to create. */
  lemma LookAnswersIff(s: State, i: nat)
    requires Indexed(s.store, s.idemx) && At(s, i, Looking)
    ensures var key, stage := s.calls[i].order.idemKey, Next(s, Look(i)).calls[i].stage;
            if key in s.idemx then stage == Answered(Ok(s.store[s.idemx[key]])) else stage == Creating
    ensures Next(s, Look(i)).store == s.store && Next(s, Look(i)).idemx == s.idemx
  {}

  /** A call is refused as a duplicate iff its key was free when it looked and taken when it creates. */
  lemma RefusedIff(s: State, i: nat)
    requires At(s, i, Creating)
    ensures Next(s, Make(i)).calls[i].stage == Answered(Err(DuplicateOrder))
       <==> s.calls[i].order.idemKey != "" && s.calls[i].order.idemKey in s.idemx
  {}

  /** Two calls that both look before either creates: the second is refused. */
  lemma RaceIsRefused(a: Order, b: Order)
    requires a.idemKey == b.idemKey != ""
    ensures var looked := Next(Next(Next(Next(START, Arrive(a)), Arrive(b)), Look(0)), Look(1));
            var s := Next(Next(looked, Make(0)), Make(1));
            s.calls[0].stage == Answered(Ok(a)) && s.calls[1].stage == Answered(Err(DuplicateOrder))
  {}

  /** With nothing in between, lookup and creation never refuse, whatever the key. */
  lemma AtOnceIsNotRefused(s: State, i: nat)
    requires Indexed(s.store, s.idemx) && At(s, i, Looking)
    ensures var s' := Next(Next(s, Look(i)), Make(i));
            s'.calls[i].stage.Answered? && s'.calls[i].stage.outcome.Ok?
  {}
}
