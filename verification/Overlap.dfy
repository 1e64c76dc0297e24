/** gateway/internal/billing/service.go, Transition and SweepExpired with their reads and writes apart: both
    write back a copy of an order read earlier, and callbacks may come in between. */
module Overlap {
  import opened Common
  import opened Orders
  import Callback
  import Wallet

  /** copies are what transitions and sweeps in flight have read. */
  datatype State = State(core: Callback.State, copies: seq<Order>)

  datatype Step =
    | Whole(step: Callback.Step)                       // one step with nothing in between
    | Read(id: string)                                 // Get, or one order of ListExpired
    | Write(copy: nat, trigger: Trigger, now: int)     // nextStatus and Update on a copy; a sweep's trigger is Timeout

  const START := State(Callback.START, [])

  /** A write that does something. */
  predicate Writes(s: State, i: nat, t: Trigger) {
    i < |s.copies| && CanTransition(s.copies[i].status, t) && s.copies[i].id in s.core.store
  }

  function Written(s: State, i: nat, t: Trigger, now: int): Order
    requires Writes(s, i, t)
  {
    Moved(s.copies[i], NextStatus(s.copies[i].status, t).value, now)
  }

  function Next(s: State, e: Step): State {
    match e
    case Whole(step) => s.(core := Callback.Next(s.core, step))
    case Read(id) => if id in s.core.store then s.(copies := s.copies + [s.core.store[id]]) else s
    case Write(i, t, now) =>
      if Writes(s, i, t) then s.(core := s.core.(store := s.core.store[s.copies[i].id := Written(s, i, t, now)]))
      else s
  }

  function Run(es: seq<Step>): State {
    if es == [] then START else Next(Run(es[..|es| - 1]), es[|es| - 1])
  }

  /** Read and written at once, a copy makes the transition; due, it makes the sweep's change. */
  lemma AtOnceIsTransition(s: State, id: string, t: Trigger, now: int)
    requires id in s.core.store ==> s.core.store[id].id == id
    ensures var s' := if id in s.core.store then Next(Next(s, Read(id)), Write(|s.copies|, t, now)) else s;
            s'.core == s.core.(store := Transitioned(s.core.store, id, t, now))
    ensures id in s.core.store && Due(s.core.store[id], now) ==>
              Transitioned(s.core.store, id, Timeout, now)[id] == Swept(s.core.store, now)[id]
  {}

  // ---- what every run keeps ----

  ghost predicate SameOrder(c: Order, o: Order) { o == c.(status := o.status, paidAt := o.paidAt) }

  /** Orders and copies are sane, and each copy is of an order still stored. */
  ghost predicate Kept(s: State) {
    && (forall id <- s.core.store :: Callback.Sane(s.core.store[id], id))
    && forall c <- s.copies :: c.id in s.core.store && SameOrder(c, s.core.store[c.id]) && Callback.Sane(c, c.id)
  }

  /** In u's ledger order id is credited at most once, for its worth, and only if it awaits no payment. */
  ghost predicate PaidOnce(s: State, id: string, u: string) {
    var store, l := s.core.store, s.core.book.LedgerOf(u);
    && Callback.Credits(l, id) <= (if id in store && store[id].userId == u && 2 <= Rank(store[id].status) then 1 else 0)
    && forall e <- l :: Callback.IsTopup(e, id) ==>
         id in store && store[id].purpose == TOPUP && e.amount == Callback.Cents(store[id]) && 0 < e.amount
  }

  lemma WholeKeeps(s: State, e: Callback.Step)
    requires Kept(s) && Callback.IsFresh(s.core, e)
    ensures Kept(Next(s, Whole(e)))
  {
    var store, store' := s.core.store, Callback.Next(s.core, e).store;
    forall id <- store
      ensures id in store' && Callback.Sane(store'[id], id) && SameOrder(store[id], store'[id])
    {
      Callback.StepEvolves(s.core, e, id);
    }
    forall id <- store'
      ensures Callback.Sane(store'[id], id)
    {
      if id !in store {
        NewOrderIsCreated(s.core, e, id);
      }
    }
  }

  lemma NewOrderIsCreated(s: Callback.State, e: Callback.Step, id: string)
    requires id in Callback.Next(s, e).store && id !in s.store
    ensures e.Create? && e.order.id == id && Callback.Next(s, e).store[id] == e.order
  {
    match e
    case Callback(n, now) =>
      if Callback.Accepts(s.store, n) {
        Callback.AcceptedRun(s, n, now);
      }
    case _ =>
  }

  lemma ReadWriteKeeps(s: State, e: Step)
    requires Kept(s) && !e.Whole?
    ensures Kept(Next(s, e))
  {
    if e.Write? && Writes(s, e.copy, e.trigger) {
      TransitionsClimb(s.copies[e.copy].status, e.trigger);
    }
  }

  lemma WholePaysOnce(s: State, e: Callback.Step, id: string, u: string)
    requires Kept(s) && Callback.IsFresh(s.core, e) && PaidOnce(s, id, u)
    ensures PaidOnce(Next(s, Whole(e)), id, u)
  {
    Callback.StepEvolves(s.core, e, id);
    Callback.CreditedExactlyWhenPaid(s.core, e, id, u);
    var s' := Callback.Next(s.core, e);
    forall x <- s'.book.LedgerOf(u) | Callback.IsTopup(x, id)
      ensures id in s'.store && s'.store[id].purpose == TOPUP
      ensures x.amount == Callback.Cents(s'.store[id]) && 0 < x.amount
    {
      if x !in s.core.book.LedgerOf(u) {
        Callback.EntriesStep(s.core, e, id, u, x);
      }
    }
  }

  /** A copy written back, however stale, keeps credits in order iff it does not restart the payment of an
      order already credited: PayStart is the one trigger that can. */
  lemma WriteKeepsIff(s: State, i: nat, t: Trigger, now: int, u: string)
    requires Kept(s) && Writes(s, i, t) && PaidOnce(s, s.copies[i].id, u)
    ensures PaidOnce(Next(s, Write(i, t, now)), s.copies[i].id, u)
       <==> t != PayStart || Callback.Credits(s.core.book.LedgerOf(u), s.copies[i].id) == 0
  {
    assert s.copies[i] in s.copies;
  }

  /** No payment is started on a copy whose order has meanwhile been paid or closed. */
  ghost predicate NoStaleStart(es: seq<Step>) {
    es != [] ==>
      var s, e := Run(es[..|es| - 1]), es[|es| - 1];
      && NoStaleStart(es[..|es| - 1])
      && (e.Whole? ==> Callback.IsFresh(s.core, e.step))
      && (e.Write? && e.trigger == PayStart && Writes(s, e.copy, PayStart) ==>
            Rank(s.core.store[s.copies[e.copy].id].status) < 2)
  }

  lemma {:induction false} RunIsKept(es: seq<Step>)
    requires NoStaleStart(es)
    ensures Kept(Run(es))
  {
    if es != [] {
      RunIsKept(es[..|es| - 1]);
      var e := es[|es| - 1];
      if e.Whole? {
        WholeKeeps(Run(es[..|es| - 1]), e.step);
      } else {
        ReadWriteKeeps(Run(es[..|es| - 1]), e);
      }
    }
  }

  lemma {:induction false} EveryRunPaysOnce(es: seq<Step>, id: string, u: string)
    requires NoStaleStart(es)
    ensures PaidOnce(Run(es), id, u)
  {
    if es != [] {
      var s, e := Run(es[..|es| - 1]), es[|es| - 1];
      EveryRunPaysOnce(es[..|es| - 1], id, u);
      RunIsKept(es[..|es| - 1]);
      if e.Whole? {
        WholePaysOnce(s, e.step, id, u);
      } else if e.Write? && Writes(s, e.copy, e.trigger) && s.copies[e.copy].id == id {
        WriteKeepsIff(s, e.copy, e.trigger, e.now, u);
      }
    }
  }

  /** With sweeps and transitions overlapping callbacks in any way but that, an order still puts at most one
      credit in all ledgers together. */
  lemma AtMostOneCredit(es: seq<Step>, id: string, u: string, v: string)
    requires NoStaleStart(es) && u != v
    ensures var book := Run(es).core.book;
            Callback.Credits(book.LedgerOf(u), id) + Callback.Credits(book.LedgerOf(v), id) <= 1
  {
    EveryRunPaysOnce(es, id, u);
    EveryRunPaysOnce(es, id, v);
  }

  // ---- what overlap breaks ----

  /** May copy c, moved by t, be written over order o without breaking o's history? Every trigger but these three
      closes the order without a payment time. */
  predicate Harmless(o: Order, c: Order, t: Trigger, now: int) {
    match t
    case PayStart => Rank(o.status) < 2
    case CallbackOK => Rank(o.status) < 2 || (o.status == Paid && o.paidAt == Some(now))
    case Fulfill => Rank(o.status) < 2 || (Rank(o.status) < 4 && o.paidAt == c.paidAt)
    case _ => o.paidAt == None && o.status != Completed && o.status != Refunded
  }

  predicate WritesHarmlessly(s: State, i: nat, t: Trigger, now: int)
    requires Writes(s, i, t)
  {
    Harmless(s.core.store[s.copies[i].id], s.copies[i], t, now)
  }

  /** A write-back, however stale, is a step of the order's history iff it is harmless. */
  lemma WriteEvolvesIff(s: State, i: nat, t: Trigger, now: int)
    requires Kept(s) && Writes(s, i, t)
    ensures var o := s.core.store[s.copies[i].id];
            Callback.Becomes(o, Next(s, Write(i, t, now)).core.store[o.id]) <==> WritesHarmlessly(s, i, t, now)
  {
    assert s.copies[i] in s.copies;
    TransitionsClimb(s.copies[i].status, t);
  }

  ghost predicate AllHarmless(es: seq<Step>) {
    es != [] ==>
      var s, e := Run(es[..|es| - 1]), es[|es| - 1];
      && AllHarmless(es[..|es| - 1])
      && (e.Whole? ==> Callback.IsFresh(s.core, e.step))
      && (e.Write? && Writes(s, e.copy, e.trigger) ==> WritesHarmlessly(s, e.copy, e.trigger, e.now))
  }

  lemma {:induction false} HarmlessStartsNothingStale(es: seq<Step>)
    requires AllHarmless(es)
    ensures NoStaleStart(es)
  {
    if es != [] {
      HarmlessStartsNothingStale(es[..|es| - 1]);
    }
  }

  lemma StepEvolves(s: State, e: Step, id: string)
    requires Kept(s) && (e.Whole? ==> Callback.IsFresh(s.core, e.step))
    requires e.Write? && Writes(s, e.copy, e.trigger) ==> WritesHarmlessly(s, e.copy, e.trigger, e.now)
    ensures Callback.Evolves(s.core.store, Next(s, e).core.store, id)
  {
    match e
    case Whole(step) => Callback.StepEvolves(s.core, step, id);
    case Write(i, t, now) =>
      ReadWriteKeeps(s, e);
      if Writes(s, i, t) && s.copies[i].id == id {
        WriteEvolvesIff(s, i, t, now);
      }
    case _ =>
  }

  /** While every write is harmless, however stale, each order's history is what it would be without overlap: its status
      only climbs, settled stays settled, and a payment time once set stays. */
  lemma {:induction false} HarmlessWritesEvolve(es: seq<Step>, n: nat, id: string)
    requires AllHarmless(es) && n <= |es|
    ensures Callback.Evolves(Run(es[..n]).core.store, Run(es).core.store, id)
  {
    if n == |es| {
      assert es[..n] == es;
    } else {
      var front := es[..|es| - 1];
      HarmlessWritesEvolve(front, n, id);
      assert front[..n] == es[..n];
      HarmlessStartsNothingStale(front);
      RunIsKept(front);
      StepEvolves(Run(front), es[|es| - 1], id);
      Callback.EvolvesTwice(Run(es[..n]).core.store, Run(front).core.store, Run(es).core.store, id);
    }
  }

  /** What a top-up worth a cent goes through when its notice is accepted. */
  lemma NoticePays(s: Callback.State, n: Callback.Notice, now: int)
    requires Callback.Accepts(s.store, n) && s.store[n.orderId].id == n.orderId
    requires s.store[n.orderId].purpose == TOPUP && 0 < Callback.Cents(s.store[n.orderId])
    ensures var s', o := Callback.Next(s, Callback.Callback(n, now)), s.store[n.orderId];
            && s'.store == s.store[n.orderId := o.(status := Completed, paidAt := Some(now))]
            && Callback.Credits(s'.book.LedgerOf(o.userId), o.id)
                 == Callback.Credits(s.book.LedgerOf(o.userId), o.id) + 1
  {
    Callback.AcceptedRun(s, n, now);
    Callback.CreditedExactlyWhenPaid(s, Callback.Callback(n, now), n.orderId, s.store[n.orderId].userId);
  }

  /** A cancellation or failure that read an order before its payment, or a sweep that listed it as due, leaves it
      credited but closed, and without a payment time. */
  lemma StaleWriteUndoesPayment(s: State, n: Callback.Notice, t: Trigger, listed: int, now: int, later: int)
    requires Callback.Accepts(s.core.store, n) && s.core.store[n.orderId].id == n.orderId
    requires s.core.store[n.orderId].purpose == TOPUP && 0 < Callback.Cents(s.core.store[n.orderId])
    requires t in {Timeout, UserCancel, CallbackFail} && CanTransition(s.core.store[n.orderId].status, t)
    requires t == Timeout ==> Due(s.core.store[n.orderId], listed)
    ensures var o := s.core.store[n.orderId];
            var paid := Next(Next(s, Read(o.id)), Whole(Callback.Callback(n, now)));
            var s' := Next(paid, Write(|s.copies|, t, later));
            && s'.core.store[o.id] == o.(status := NextStatus(o.status, t).value)
            && s'.core.store[o.id].status in {Expired, Canceled, Status.Failed}
            && Callback.Credits(s'.core.book.LedgerOf(o.userId), o.id)
               == Callback.Credits(s.core.book.LedgerOf(o.userId), o.id) + 1
  {
    NoticePays(s.core, n, now);
  }

  /** A payment started on a copy read before the callback lets the same notice pay again. */
  lemma StaleStartPaysTwice(s: State, n: Callback.Notice, now: int)
    requires Callback.Accepts(s.core.store, n) && s.core.store[n.orderId].id == n.orderId
    requires s.core.store[n.orderId].status == Pending
    requires s.core.store[n.orderId].purpose == TOPUP && 0 < Callback.Cents(s.core.store[n.orderId])
    ensures var o, notice := s.core.store[n.orderId], Whole(Callback.Callback(n, now));
            var restarted := Next(Next(Next(s, Read(o.id)), notice), Write(|s.copies|, PayStart, now));
            Callback.Credits(Next(restarted, notice).core.book.LedgerOf(o.userId), o.id)
            == Callback.Credits(s.core.book.LedgerOf(o.userId), o.id) + 2
  {
    var o, notice := s.core.store[n.orderId], Whole(Callback.Callback(n, now));
    var paid := Next(Next(s, Read(o.id)), notice);
    NoticePays(s.core, n, now);
    var restarted := Next(paid, Write(|s.copies|, PayStart, now));
    assert restarted.core.store[o.id] == o.(status := Paying);
    NoticePays(restarted.core, n, now);
  }
}
