/** gateway/internal/gateway/payment_callback_handler.go, processCallback, and balance_handler.go,
    FulfillTopup: gateway notifications drive orders to completion and top-ups into the wallet. */
module Callback {
  import opened Common
  import opened Orders
  import Wallet

  /** A notification whose signature was verified. */
  datatype Notice = Notice(success: bool, orderId: string, amount: real)

  datatype State = State(store: Store, book: Wallet.Book)

  datatype Step =
    | Callback(notice: Notice, now: int)
    | Status(id: string, trigger: Trigger, now: int)
    | Sweep(now: int)
    | Create(order: Order)
    | Refund(id: string)
    | Other(op: Wallet.Op)  // wallet traffic of any other kind

  const START := State(map[], Wallet.EMPTY)

  /** The whole part, towards zero. */
  function Truncate(x: real): int { if x < 0.0 then -((-x).Floor) else x.Floor }

  /** The nearest whole number that is no further from zero. */
  lemma TruncateIs(x: real)
    ensures 0.0 <= x ==> 0 <= Truncate(x) && Truncate(x) as real <= x < Truncate(x) as real + 1.0
    ensures x <= 0.0 ==> Truncate(x) <= 0 && Truncate(x) as real - 1.0 < x <= Truncate(x) as real
  {}

  /** What a top-up is worth: its original amount when it was converted, in whole cents. */
  function Cents(o: Order): int {
    Truncate((if o.originalCurrency != "" && o.originalAmount != 0.0 then o.originalAmount else o.amount) * 100.0)
  }

  /** An order is worth the whole cents of its original amount, or of its own when it was not converted. */
  lemma CentsIs(o: Order)
    ensures var worth := if o.originalCurrency == "" || o.originalAmount == 0.0 then o.amount else o.originalAmount;
            0.0 <= worth ==> 0 <= Cents(o) && Cents(o) as real <= worth * 100.0 < Cents(o) as real + 1.0
  {
    TruncateIs((if o.originalCurrency == "" || o.originalAmount == 0.0 then o.amount else o.originalAmount) * 100.0);
  }

  function TopupRequest(o: Order): Wallet.Request {
    Wallet.Request(o.userId, Cents(o), Wallet.TOPUP, o.id, o.externalId, "Top-up via " + o.provider)
  }

  function Fulfilled(b: Wallet.Book, o: Order): Wallet.Book {
    if Cents(o) <= 0 then b else Wallet.Next(b, Wallet.Credit(TopupRequest(o)))
  }

  predicate Accepts(store: Store, n: Notice) {
    && n.success && n.orderId in store
    && (store[n.orderId].status == Paying || store[n.orderId].status == Pending)
    && n.amount == store[n.orderId].amount
  }

  /** Up to three transitions, then the credit of a top-up. */
  function Processed(s: State, n: Notice, now: int): State {
    if !n.success then s.(store := Transitioned(s.store, n.orderId, CallbackFail, now))
    else if !Accepts(s.store, n) then s
    else
      var started := if s.store[n.orderId].status == Pending then Transitioned(s.store, n.orderId, PayStart, now)
                           else s.store;
      var paid := Transitioned(started, n.orderId, CallbackOK, now);
      var done := Transitioned(paid, n.orderId, Trigger.Fulfill, now);
      State(done, if done[n.orderId].purpose == TOPUP then Fulfilled(s.book, done[n.orderId]) else s.book)
  }

  predicate Foreign(op: Wallet.Op) { op.SetBalance? || op.req.kind != Wallet.TOPUP }

  function Next(s: State, e: Step): State {
    match e
    case Callback(n, now) => Processed(s, n, now)
    case Status(id, t, now) => s.(store := Transitioned(s.store, id, t, now))
    case Sweep(now) => s.(store := Swept(s.store, now))
    case Create(o) => s.(store := s.store[o.id := o])
    case Refund(id) => if id in s.store then s.(store := s.store[id := s.store[id].(status := Refunded)]) else s
    case Other(op) => if Foreign(op) then s.(book := Wallet.Next(s.book, op)) else s
  }

  function Run(s: State, es: seq<Step>): State {
    if es == [] then s else Next(Run(s, es[..|es| - 1]), es[|es| - 1])
  }

  /** Orders are created pending, unpaid, and under ids not used before. */
  ghost predicate FreshOrders(s: State, es: seq<Step>) {
    es != [] ==>
      && FreshOrders(s, es[..|es| - 1])
      && IsFresh(Run(s, es[..|es| - 1]), es[|es| - 1])
  }

  predicate IsFresh(s: State, e: Step) {
    e.Create? ==> e.order.id !in s.store && e.order.status == Pending && e.order.paidAt == None
  }

  // ---- at most one credit ----

  predicate IsTopup(e: Wallet.Entry, id: string) { e.kind == Wallet.TOPUP && e.orderId == id }

  /** How often order id was credited in a ledger. */
  function Credits(l: Wallet.Ledger, id: string): nat {
    if l == [] then 0 else Credits(l[..|l| - 1], id) + if IsTopup(l[|l| - 1], id) then 1 else 0
  }

  lemma CreditsAppend(l: Wallet.Ledger, e: Wallet.Entry, id: string)
    ensures Credits(l + [e], id) == Credits(l, id) + if IsTopup(e, id) then 1 else 0
  {
    assert (l + [e])[..|l|] == l;
  }

  /** A wallet operation of another kind adds no credit of any order. */
  lemma ForeignStep(b: Wallet.Book, op: Wallet.Op, u: string, id: string)
    requires Foreign(op)
    ensures Credits(Wallet.Next(b, op).LedgerOf(u), id) == Credits(b.LedgerOf(u), id)
    ensures forall e <- Wallet.Next(b, op).LedgerOf(u) :: IsTopup(e, id) ==> e in b.LedgerOf(u)
  {
    var l, l' := b.LedgerOf(u), Wallet.Next(b, op).LedgerOf(u);
    assert Wallet.ADJUST != Wallet.TOPUP;
    if l' != l {
      assert l' == l + [l'[|l'| - 1]];
      CreditsAppend(l, l'[|l'| - 1], id);
    }
  }

  /** Fulfilling order o appends one credit of o to its user's ledger, if it is worth a cent. */
  lemma FulfilStep(b: Wallet.Book, o: Order, u: string)
    ensures Fulfilled(b, o).LedgerOf(u) == b.LedgerOf(u)
         + if u == o.userId && 0 < Cents(o) then [Wallet.NextEntry(b, TopupRequest(o), Cents(o))] else []
  {
    assert Wallet.TOPUP != "";
  }

  // ---- what an order goes through ----

  ghost predicate Sane(o: Order, id: string) { o.id == id && (o.paidAt.Some? ==> 2 <= Rank(o.status)) }

  /** How order o may have come to be o': identity, user, purpose and amounts frozen, status never down
      its rank, a settled order still settled, a payment time never changed. */
  ghost predicate Becomes(o: Order, o': Order) {
    && o' == o.(status := o'.status, paidAt := o'.paidAt)
    && Rank(o.status) <= Rank(o'.status)
    && (Rank(o.status) in {3, 5} ==> Rank(o'.status) in {3, 5})
    && (o.paidAt.Some? ==> o'.paidAt == o.paidAt)
    && (o.paidAt != o'.paidAt ==> Rank(o.status) < 2 <= Rank(o'.status))
  }

  ghost predicate Evolves(before: Store, after: Store, id: string) {
    (id in before ==> id in after && (Sane(before[id], id) ==> Sane(after[id], id) && Becomes(before[id], after[id])))
  }

  lemma TransitionEvolves(store: Store, id: string, t: Trigger, now: int, x: string)
    ensures Evolves(store, Transitioned(store, id, t, now), x)
    ensures Transitioned(store, id, t, now).Keys == store.Keys
  {
    if id in store {
      TransitionsClimb(store[id].status, t);
    }
  }

  lemma AcceptedRun(s: State, n: Notice, now: int)
    requires Accepts(s.store, n)
    ensures var s', o := Processed(s, n, now), s.store[n.orderId];
            && s'.store == s.store[n.orderId := o.(status := Completed, paidAt := Some(now))]
            && s'.book == if o.purpose == TOPUP then Fulfilled(s.book, o) else s.book
  {}

  lemma StepEvolves(s: State, e: Step, x: string)
    requires IsFresh(s, e)
    ensures Evolves(s.store, Next(s, e).store, x)
  {
    match e
    case Callback(n, now) =>
      if Accepts(s.store, n) {
        AcceptedRun(s, n, now);
      } else if !n.success {
        TransitionEvolves(s.store, n.orderId, CallbackFail, now, x);
      }
    case Status(id, t, now) => TransitionEvolves(s.store, id, t, now, x);
    case _ =>
  }

  lemma EvolvesTwice(a: Store, b: Store, c: Store, id: string)
    requires Evolves(a, b, id) && Evolves(b, c, id)
    ensures Evolves(a, c, id)
  {}

  /** Over every run from any state: an order's status only climbs, and once it has a payment time
      it keeps that one. */
  lemma {:induction false} StatusClimbs(s: State, es: seq<Step>, id: string)
    requires FreshOrders(s, es)
    ensures Evolves(s.store, Run(s, es).store, id)
  {
    if es != [] {
      var front := es[..|es| - 1];
      StatusClimbs(s, front, id);
      StepEvolves(Run(s, front), es[|es| - 1], id);
      EvolvesTwice(s.store, Run(s, front).store, Run(s, es).store, id);
    }
  }

  // ---- how an order came by its status ----

  /** The steps that can have brought order id to this status. */
  predicate Causes(e: Step, id: string, st: Orders.Status) {
    match st
    case Failed => (e.Callback? && !e.notice.success && e.notice.orderId == id) || IsStatus(e, id, CallbackFail)
    case Canceled => IsStatus(e, id, UserCancel)
    case Expired => e.Sweep? || IsStatus(e, id, Timeout)
    case Refunded => e.Refund? && e.id == id
    case Paid => IsStatus(e, id, CallbackOK)
    case Completed => (e.Callback? && e.notice.success && e.notice.orderId == id) || IsStatus(e, id, Trigger.Fulfill)
    case Paying => IsStatus(e, id, PayStart)
    case Pending => e.Create? && e.order.id == id
  }

  predicate IsStatus(e: Step, id: string, t: Trigger) { e.Status? && e.id == id && e.trigger == t }

  lemma StatusStep(s: State, e: Step, id: string)
    requires IsFresh(s, e) && id in Next(s, e).store
    ensures (id in s.store && Next(s, e).store[id].status == s.store[id].status)
         || Causes(e, id, Next(s, e).store[id].status)
  {
    match e
    case Callback(n, now) =>
      if Accepts(s.store, n) {
        AcceptedRun(s, n, now);
      } else if id in s.store {
        TransitionsClimb(s.store[id].status, CallbackFail);
      }
    case Status(x, t, now) =>
      if id in s.store {
        TransitionsClimb(s.store[id].status, t);
      }
    case _ =>
  }

  /** Over every run an order has a status only after a step that gives it: failed after a failure, canceled after a
      cancellation, expired after a timeout or sweep, completed after a notice or its fulfilment. */
  lemma {:induction false} StatusHasItsCause(es: seq<Step>, id: string) returns (i: nat)
    requires FreshOrders(START, es) && id in Run(START, es).store
    ensures i < |es| && Causes(es[i], id, Run(START, es).store[id].status)
  {
    var front, e := es[..|es| - 1], es[|es| - 1];
    if Causes(e, id, Run(START, es).store[id].status) {
      i := |front|;
    } else {
      StatusStep(Run(START, front), e, id);
      i := StatusHasItsCause(front, id);
    }
  }

  // ---- at most one credit, over every run ----

  /** In u's ledger, order id is credited at most once: only if it is u's settled top-up, and for its worth. */
  ghost predicate CreditedOnce(s: State, id: string, u: string) {
    && (id in s.store ==> Sane(s.store[id], id))
    && Credits(s.book.LedgerOf(u), id)
         <= (if id in s.store && s.store[id].userId == u && Rank(s.store[id].status) in {3, 5} then 1 else 0)
    && forall e <- s.book.LedgerOf(u) :: IsTopup(e, id) ==>
         id in s.store && s.store[id].purpose == TOPUP && e.amount == Cents(s.store[id]) && 0 < e.amount
  }

  /** Exactly when a step credits order id to u: an accepted notice of a top-up worth a cent or more. */
  predicate Pays(s: State, e: Step, id: string, u: string) {
    && e.Callback? && Accepts(s.store, e.notice) && s.store[e.notice.orderId].id == id
    && s.store[e.notice.orderId].purpose == TOPUP && s.store[e.notice.orderId].userId == u
    && 0 < Cents(s.store[e.notice.orderId])
  }

  lemma CreditedExactlyWhenPaid(s: State, e: Step, id: string, u: string)
    ensures Credits(Next(s, e).book.LedgerOf(u), id)
         == Credits(s.book.LedgerOf(u), id) + if Pays(s, e, id, u) then 1 else 0
    ensures Pays(s, e, id, u) ==>
              && Rank(s.store[e.notice.orderId].status) < 2
              && Next(s, e).store[e.notice.orderId].status == Completed
  {
    match e
    case Callback(n, now) =>
      if Accepts(s.store, n) {
        AcceptedRun(s, n, now);
        var o := s.store[n.orderId];
        FulfilStep(s.book, o, u);
        CreditsAppend(s.book.LedgerOf(u), Wallet.NextEntry(s.book, TopupRequest(o), Cents(o)), id);
        assert s.book.LedgerOf(u) + [] == s.book.LedgerOf(u);
      }
    case Other(op) =>
      if Foreign(op) {
        ForeignStep(s.book, op, u, id);
      }
    case _ =>
  }

  lemma EntriesStep(s: State, e: Step, id: string, u: string, x: Wallet.Entry)
    requires x in Next(s, e).book.LedgerOf(u) && x !in s.book.LedgerOf(u) && IsTopup(x, id)
    ensures Pays(s, e, id, u) && x.amount == Cents(s.store[e.notice.orderId])
  {
    match e
    case Callback(n, now) =>
      if Accepts(s.store, n) {
        AcceptedRun(s, n, now);
        FulfilStep(s.book, s.store[n.orderId], u);
      }
    case Other(op) =>
      if Foreign(op) {
        ForeignStep(s.book, op, u, id);
      }
    case _ =>
  }

  lemma StepKeeps(s: State, e: Step, id: string, u: string)
    requires IsFresh(s, e) && CreditedOnce(s, id, u)
    requires e.Callback? && e.notice.orderId in s.store ==> s.store[e.notice.orderId].id == e.notice.orderId
    ensures CreditedOnce(Next(s, e), id, u)
  {
    StepEvolves(s, e, id);
    CreditedExactlyWhenPaid(s, e, id, u);
    forall x <- Next(s, e).book.LedgerOf(u) | IsTopup(x, id)
      ensures id in Next(s, e).store && Next(s, e).store[id].purpose == TOPUP
      ensures x.amount == Cents(Next(s, e).store[id]) && 0 < x.amount
    {
      if x !in s.book.LedgerOf(u) {
        EntriesStep(s, e, id, u, x);
      }
    }
  }

  lemma {:induction false} EveryRunCreditsOnce(es: seq<Step>, id: string, u: string)
    requires FreshOrders(START, es)
    ensures CreditedOnce(Run(START, es), id, u)
  {
    if es != [] {
      var front, e := es[..|es| - 1], es[|es| - 1];
      EveryRunCreditsOnce(front, id, u);
      if e.Callback? {
        EveryRunCreditsOnce(front, e.notice.orderId, u);
      }
      StepKeeps(Run(START, front), e, id, u);
    }
  }

  /** However notices, events, sweeps and refunds are mixed and repeated, an order puts at most one
      credit in all ledgers together. */
  lemma AtMostOneCredit(es: seq<Step>, id: string, u: string, v: string)
    requires FreshOrders(START, es) && u != v
    ensures Credits(Run(START, es).book.LedgerOf(u), id) + Credits(Run(START, es).book.LedgerOf(v), id) <= 1
  {
    EveryRunCreditsOnce(es, id, u);
    EveryRunCreditsOnce(es, id, v);
  }

  /** A notice delivered again, at any later time, changes nothing. */
  lemma RepeatedNoticeIsIgnored(s: State, n: Notice, now: int, later: int)
    ensures Processed(Processed(s, n, now), n, later) == Processed(s, n, now)
  {
    if Accepts(s.store, n) {
      AcceptedRun(s, n, now);
    }
  }

  /** Nor does it after whatever else has happened since it was accepted. */
  lemma RepeatedNoticeIsIgnoredLater(s: State, n: Notice, now: int, es: seq<Step>, later: int)
    requires Accepts(s.store, n) && Sane(s.store[n.orderId], n.orderId) && FreshOrders(Processed(s, n, now), es)
    ensures var s' := Run(Processed(s, n, now), es);
            Processed(s', n, later) == s'
  {
    AcceptedRun(s, n, now);
    StatusClimbs(Processed(s, n, now), es, n.orderId);
  }

  // ---- fulfilling twice, creating twice ----

  /** FulfillTopup by itself is idempotent only for an order worth less than a cent. */
  lemma FulfilTwiceIff(b: Wallet.Book, o: Order)
    ensures Fulfilled(Fulfilled(b, o), o) == Fulfilled(b, o) <==> Cents(o) <= 0
  {
    FulfilStep(b, o, o.userId);
    FulfilStep(Fulfilled(b, o), o, o.userId);
  }

  lemma {:induction false} NoCreditsIff(l: Wallet.Ledger, id: string)
    ensures Credits(l, id) == 0 <==> forall e <- l :: !IsTopup(e, id)
  {
    if l != [] {
      NoCreditsIff(l[..|l| - 1], id);
      assert l == l[..|l| - 1] + [l[|l| - 1]];
    }
  }

  /** Creating an order, under a new id or one in use, keeps its credits in order iff it has had none. */
  lemma CreateKeepsIff(s: State, o: Order, u: string)
    requires CreditedOnce(s, o.id, u) && o.status == Pending && o.paidAt == None
    ensures CreditedOnce(Next(s, Create(o)), o.id, u) <==> Credits(s.book.LedgerOf(u), o.id) == 0
  {
    NoCreditsIff(s.book.LedgerOf(u), o.id);
  }

  /** Whatever went before, an order created and paid adds one credit of its id to those there were. */
  lemma EachCreationPays(s: State, o: Order, now: int)
    requires o.status == Pending && o.purpose == TOPUP && 0 < Cents(o)
    ensures Credits(Next(Next(s, Create(o)), Callback(Notice(true, o.id, o.amount), now)).book.LedgerOf(o.userId), o.id)
         == Credits(s.book.LedgerOf(o.userId), o.id) + 1
  {
    CreditedExactlyWhenPaid(Next(s, Create(o)), Callback(Notice(true, o.id, o.amount), now), o.id, o.userId);
  }

  /** So an id used again after it was paid is paid twice. */
  lemma ReusedIdPaysTwice(o: Order, now: int)
    requires o.status == Pending && o.purpose == TOPUP && 0 < Cents(o)
    ensures var n := Notice(true, o.id, o.amount);
            var once := Next(Next(START, Create(o)), Callback(n, now));
            Credits(Next(Next(once, Create(o)), Callback(n, now)).book.LedgerOf(o.userId), o.id) == 2
  {
    EachCreationPays(START, o, now);
    EachCreationPays(Next(Next(START, Create(o)), Callback(Notice(true, o.id, o.amount), now)), o, now);
  }

  // ---- the handler ----

  datatype Reply = Acknowledged | NotFound | AmountMismatch | TransitionFailed | FulfilmentFailed

  class PaymentCallbackHandler {
    const billing: Service
    const balance: Wallet.MemBalanceRepo

    constructor (billing: Service, balance: Wallet.MemBalanceRepo)
      ensures this.billing == billing && this.balance == balance
    {
      this.billing, this.balance := billing, balance;
    }

    ghost function View(): State
      reads billing, balance
    {
      State(billing.store, balance.View())
    }

    method FulfillTopup(o: Order) returns (r: Wallet.Result)
      modifies balance
      ensures balance.View() == Fulfilled(old(balance.View()), o)
      ensures r.Failed? <==> Cents(o) <= 0
      ensures r.Posted? ==>
                && r.entry.user == o.userId && r.entry.amount == Cents(o) && r.entry.kind == "topup"
                && r.entry.orderId == o.id && r.entry.reference == o.externalId
    {
      assert Wallet.TOPUP != "";
      var creditAmount := o.amount;
      if o.originalCurrency != "" && o.originalAmount != 0.0 {
        creditAmount := o.originalAmount;
      }
      var cents := Truncate(creditAmount * 100.0);
      if cents <= 0 {
        return Wallet.Failed(Wallet.InvalidAmount);
      }
      r := balance.Credit(Wallet.Request(o.userId, cents, Wallet.TOPUP,
                                 o.id, o.externalId, "Top-up via " + o.provider));
    }

    /** Paying to paid to completed. */
    method Complete(id: string, now: int) returns (r: Outcome)
      requires billing.Valid() && id in billing.store && billing.store[id].status == Paying
      modifies billing
      ensures billing.Valid() && id in billing.store && r == Ok(billing.store[id])
      ensures billing.store
             == old(billing.store)[id := old(billing.store)[id].(status := Completed, paidAt := Some(now))]
    {
      r := billing.Transition(id, CallbackOK, now);
      if r.Err? {
        return;
      }
      r := billing.Transition(id, Trigger.Fulfill, now);
    }

    /** The tail of ProcessCallback: what a success notice for the right amount does to an unpaid order. */
    method Settle(unpaid: Order, now: int) returns (r: Reply)
      requires billing.Valid() && unpaid.id in billing.store && billing.store[unpaid.id] == unpaid
      requires unpaid.status == Paying || unpaid.status == Pending
      modifies billing, balance
      ensures billing.Valid()
      ensures billing.store == old(billing.store)[unpaid.id := unpaid.(status := Completed, paidAt := Some(now))]
      ensures balance.View() == if unpaid.purpose == TOPUP then Fulfilled(old(balance.View()), unpaid)
                                else old(balance.View())
      ensures r == if unpaid.purpose == TOPUP && Cents(unpaid) <= 0 then FulfilmentFailed else Acknowledged
    {
      var order := unpaid;
      if order.status == Pending {
        var _ := billing.Transition(order.id, PayStart, now);
      }
      var got := Complete(order.id, now);
      if got.Err? {
        return TransitionFailed;
      }
      order := got.order;
      if order.purpose == TOPUP {
        var credited := FulfillTopup(order);
        if credited.Failed? {
          return FulfilmentFailed;
        }
      }
      return Acknowledged;
    }

    method ProcessCallback(n: Notice, now: int) returns (r: Reply)
      requires billing.Valid()
      modifies billing, balance
      ensures billing.Valid() && View() == Processed(old(View()), n, now)
      ensures !n.success ==>
                && balance.View() == old(balance.View())
                && billing.store == if n.orderId in old(billing.store) && old(billing.store)[n.orderId].status == Paying
                                    then old(billing.store)[n.orderId :=
                                         old(billing.store)[n.orderId].(status := Status.Failed)]
                                    else old(billing.store)
      ensures n.success ==>
                billing.store == if n.orderId in old(billing.store)
                                    && old(billing.store)[n.orderId].status in {Pending, Paying}
                                    && n.amount == old(billing.store)[n.orderId].amount
                                 then old(billing.store)[n.orderId :=
                                      old(billing.store)[n.orderId].(status := Completed, paidAt := Some(now))]
                                 else old(billing.store)
      ensures r == if !n.success then Acknowledged
                   else if n.orderId !in old(billing.store) then NotFound
                   else if Rank(old(billing.store)[n.orderId].status) >= 2 then Acknowledged
                   else if n.amount != old(billing.store)[n.orderId].amount then AmountMismatch
                   else if billing.store[n.orderId].purpose == TOPUP && Cents(billing.store[n.orderId]) <= 0
                        then FulfilmentFailed
                   else Acknowledged
    {
      if !n.success {
        if n.orderId in billing.store {
          TransitionsClimb(billing.store[n.orderId].status, CallbackFail);
        }
        var _ := billing.Transition(n.orderId, CallbackFail, now);
        return Acknowledged;
      }
      var got := billing.Get(n.orderId);
      if got.Err? {
        return NotFound;
      }
      var order := got.order;
      if order.status != Paying && order.status != Pending {
        return Acknowledged;
      }
      if n.amount != order.amount {
        return AmountMismatch;
      }
      AcceptedRun(View(), n, now);
      r := Settle(order, now);
    }
  }
}
