/** gateway/internal/gateway/payment_callback_handler.go, processCallback with its transitions apart: each reads the
    order and writes back what it read, and other writers, or another notice, may come in between. */
module Notices {
  import opened Common
  import opened Orders
  import Callback
  import Overlap
  import Wallet

  /** How far the handling of one accepted notice is. Starting, Settling and Fulfilling have read the order for
      pay_start, callback_ok and fulfill; the stage after each has written it back. */
  datatype Stage =
    | Opened
    | Starting
    | Started
    | Settling
    | Settled
    | Fulfilling
    | Fulfilled
    | Finished(credited: bool)

  /** settledOn and fulfilledOn are the statuses read before callback_ok and fulfill. */
  datatype Handler = Handler(id: string, stage: Stage, copy: nat,
                               settledOn: Option<Status>, fulfilledOn: Option<Status>)

  datatype State = State(lap: Overlap.State, handlers: seq<Handler>)
  {
    function Store(): Store { lap.core.store }

    function Ledger(u: string): Wallet.Ledger { lap.core.book.LedgerOf(u) }
  }

  datatype Step =
    | Around(step: Overlap.Step)
    | Open(notice: Callback.Notice)
    | Advance(handler: nat, now: int)

  const START := State(Overlap.START, [])

  predicate WellPlaced(lap: Overlap.State, h: Handler) {
    h.id in lap.core.store && h.copy < |lap.copies| && lap.copies[h.copy].id == h.id
  }

  /** What a step does to orders and wallet. */
  datatype Action = Nothing | Laps(step: Overlap.Step) | Credit(id: string)

  function Act(lap: Overlap.State, a: Action): Overlap.State {
    match a
    case Nothing => lap
    case Laps(step) => Overlap.Next(lap, step)
    case Credit(id) =>
      if id in lap.core.store then lap.(core := lap.core.(book := Callback.Fulfilled(lap.core.book,
                                          lap.core.store[id])))
      else lap
  }

  function HandlerAction(lap: Overlap.State, h: Handler, now: int): Action
    requires WellPlaced(lap, h)
  {
    match h.stage
    case Opened => Laps(Overlap.Read(h.id))
    case Starting => Laps(Overlap.Write(h.copy, PayStart, now))  // an error is ignored
    case Started => Laps(Overlap.Read(h.id))
    case Settling => Laps(Overlap.Write(h.copy, CallbackOK, now))
    case Settled => Laps(Overlap.Read(h.id))
    case Fulfilling => Laps(Overlap.Write(h.copy, Trigger.Fulfill, now))
    case Fulfilled => if lap.core.store[h.id].purpose == TOPUP then Credit(h.id) else Nothing
    case Finished(_) => Nothing
  }

  function HandlerAfter(lap: Overlap.State, h: Handler): Handler
    requires WellPlaced(lap, h)
  {
    var o, read := lap.core.store[h.id], |lap.copies|;
    match h.stage
    case Opened =>
      if lap.copies[h.copy].status == Pending then h.(stage := Starting, copy := read)
      else h.(stage := Settling, copy := read, settledOn := Some(o.status))
    case Starting => h.(stage := Started)
    case Started => h.(stage := Settling, copy := read, settledOn := Some(o.status))
    case Settling => h.(stage := if Overlap.Writes(lap, h.copy, CallbackOK) then Settled else Finished(false))
    case Settled => h.(stage := Fulfilling, copy := read, fulfilledOn := Some(o.status))
    case Fulfilling => h.(stage := if Overlap.Writes(lap, h.copy, Trigger.Fulfill) then Fulfilled else Finished(false))
    case Fulfilled => h.(stage := Finished(o.purpose == TOPUP && 0 < Callback.Cents(o)))
    case Finished(_) => h
  }

  predicate Advances(s: State, i: nat) { i < |s.handlers| && WellPlaced(s.lap, s.handlers[i]) }

  function ActionOf(s: State, e: Step): Action {
    match e
    case Around(step) => Laps(step)
    case Open(n) => if Callback.Accepts(s.Store(), n) then Laps(Overlap.Read(n.orderId)) else Nothing
    case Advance(i, now) => if Advances(s, i) then HandlerAction(s.lap, s.handlers[i], now) else Nothing
  }

  function HandlersAfter(s: State, e: Step): seq<Handler> {
    match e
    case Around(_) => s.handlers
    case Open(n) =>
      if Callback.Accepts(s.Store(), n) then s.handlers + [Handler(n.orderId, Opened, |s.lap.copies|, None, None)]
      else s.handlers
    case Advance(i, _) => if Advances(s, i) then s.handlers[i := HandlerAfter(s.lap, s.handlers[i])] else s.handlers
  }

  function Next(s: State, e: Step): State { State(Act(s.lap, ActionOf(s, e)), HandlersAfter(s, e)) }

  function Run(es: seq<Step>): State {
    if es == [] then START else Next(Run(es[..|es| - 1]), es[|es| - 1])
  }

  /** Orders are created fresh, and successful notices come as Open and Advance only. */
  predicate Plain(core: Callback.State, e: Overlap.Step) {
    e.Whole? ==> Callback.IsFresh(core, e.step) && (e.step.Callback? ==> !e.step.notice.success)
  }

  ghost predicate AllPlain(es: seq<Step>) {
    es != [] ==>
      && AllPlain(es[..|es| - 1])
      && (es[|es| - 1].Around? ==> Plain(Run(es[..|es| - 1]).lap.core, es[|es| - 1].step))
  }

  // ---- what any run keeps ----

  ghost predicate Kept(s: State) {
    Overlap.Kept(s.lap) && forall h <- s.handlers :: WellPlaced(s.lap, h)
  }

  /** Orders keep all but status and payment time, and copies stay. */
  ghost predicate Extends(a: Overlap.State, b: Overlap.State) {
    && (forall id <- a.core.store :: id in b.core.store && Overlap.SameOrder(a.core.store[id], b.core.store[id]))
    && |a.copies| <= |b.copies| && forall k :: 0 <= k < |a.copies| ==> b.copies[k] == a.copies[k]
  }

  ghost predicate PlainAction(core: Callback.State, a: Action) { a.Laps? ==> Plain(core, a.step) }

  lemma ActionIsPlain(s: State, e: Step)
    requires e.Around? ==> Plain(s.lap.core, e.step)
    ensures PlainAction(s.lap.core, ActionOf(s, e))
  {}

  lemma ActExtends(lap: Overlap.State, a: Action)
    requires Overlap.Kept(lap) && PlainAction(lap.core, a)
    ensures Overlap.Kept(Act(lap, a)) && Extends(lap, Act(lap, a))
  {
    if a.Laps? {
      match a.step
      case Whole(step) =>
        Overlap.WholeKeeps(lap, step);
        forall id <- lap.core.store
          ensures id in Act(lap, a).core.store && Overlap.SameOrder(lap.core.store[id], Act(lap, a).core.store[id])
        {
          Callback.StepEvolves(lap.core, step, id);
        }
      case Read(_) => Overlap.ReadWriteKeeps(lap, a.step);
      case Write(i, t, _) =>
        Overlap.ReadWriteKeeps(lap, a.step);
        assert Overlap.Writes(lap, i, t) ==> lap.copies[i] in lap.copies;
    }
  }

  lemma PlacedStays(lap: Overlap.State, lap': Overlap.State, h: Handler)
    requires Extends(lap, lap') && WellPlaced(lap, h)
    ensures WellPlaced(lap', h)
  {}

  lemma AfterIsPlaced(lap: Overlap.State, h: Handler, now: int)
    requires Overlap.Kept(lap) && WellPlaced(lap, h) && Extends(lap, Act(lap, HandlerAction(lap, h, now)))
    ensures WellPlaced(Act(lap, HandlerAction(lap, h, now)), HandlerAfter(lap, h))
  {
    assert lap.core.store[h.id].id == h.id;
    PlacedStays(lap, Act(lap, HandlerAction(lap, h, now)), h);
  }

  lemma HandlersStayPlaced(s: State, e: Step)
    requires Kept(s) && Extends(s.lap, Act(s.lap, ActionOf(s, e)))
    ensures forall h <- HandlersAfter(s, e) :: WellPlaced(Act(s.lap, ActionOf(s, e)), h)
  {
    var lap' := Act(s.lap, ActionOf(s, e));
    forall h <- s.handlers
      ensures WellPlaced(lap', h)
    {
      PlacedStays(s.lap, lap', h);
    }
    match e
    case Around(_) =>
    case Open(n) =>
      assert Callback.Accepts(s.Store(), n) ==> s.Store()[n.orderId].id == n.orderId;
    case Advance(i, now) =>
      if Advances(s, i) {
        AfterIsPlaced(s.lap, s.handlers[i], now);
      }
  }

  lemma StepKeeps(s: State, e: Step)
    requires Kept(s) && (e.Around? ==> Plain(s.lap.core, e.step))
    ensures Kept(Next(s, e)) && Extends(s.lap, Next(s, e).lap)
  {
    ActionIsPlain(s, e);
    ActExtends(s.lap, ActionOf(s, e));
    HandlersStayPlaced(s, e);
  }

  lemma {:induction false} EveryRunIsKept(es: seq<Step>)
    requires AllPlain(es)
    ensures Kept(Run(es))
  {
    if es != [] {
      EveryRunIsKept(es[..|es| - 1]);
      StepKeeps(Run(es[..|es| - 1]), es[|es| - 1]);
    }
  }

  // ---- when a notice is credited ----

  /** It found the order paying when it was to be paid, and paid when it was to be fulfilled. */
  predicate FoundItsOwn(h: Handler) { h.settledOn == Some(Paying) && h.fulfilledOn == Some(Paid) }

  predicate IsWorth(lap: Overlap.State, id: string) {
    id in lap.core.store && lap.core.store[id].purpose == TOPUP && 0 < Callback.Cents(lap.core.store[id])
  }

  ghost predicate Story(lap: Overlap.State, h: Handler) {
    WellPlaced(lap, h) &&
    match h.stage
    case Settling => h.settledOn == Some(lap.copies[h.copy].status) && h.fulfilledOn.None?
    case Settled => h.settledOn == Some(Paying) && h.fulfilledOn.None?
    case Fulfilling => h.settledOn == Some(Paying) && h.fulfilledOn == Some(lap.copies[h.copy].status)
    case Fulfilled => FoundItsOwn(h)
    case Finished(credited) => credited <==> FoundItsOwn(h) && IsWorth(lap, h.id)
    case _ => h.settledOn.None? && h.fulfilledOn.None?
  }

  lemma StoryStays(lap: Overlap.State, lap': Overlap.State, h: Handler)
    requires Extends(lap, lap') && Story(lap, h)
    ensures Story(lap', h)
  {}

  lemma StoryGoesOn(lap: Overlap.State, h: Handler, now: int)
    requires Overlap.Kept(lap) && Story(lap, h) && Extends(lap, Act(lap, HandlerAction(lap, h, now)))
    ensures Story(Act(lap, HandlerAction(lap, h, now)), HandlerAfter(lap, h))
  {
    AfterIsPlaced(lap, h, now);
    var lap' := Act(lap, HandlerAction(lap, h, now));
    assert Overlap.SameOrder(lap.core.store[h.id], lap'.core.store[h.id]);
  }

  lemma StoriesStep(s: State, e: Step)
    requires Kept(s) && (e.Around? ==> Plain(s.lap.core, e.step)) && forall h <- s.handlers :: Story(s.lap, h)
    ensures forall h <- Next(s, e).handlers :: Story(Next(s, e).lap, h)
  {
    var s' := Next(s, e);
    StepKeeps(s, e);
    forall h <- s.handlers
      ensures Story(s'.lap, h)
    {
      StoryStays(s.lap, s'.lap, h);
    }
    if e.Advance? && Advances(s, e.handler) {
      StoryGoesOn(s.lap, s.handlers[e.handler], e.now);
    } else if e.Open? && s' != s {
      var h := s'.handlers[|s.handlers|];
      assert h in s'.handlers && WellPlaced(s'.lap, h);
    }
  }

  /** In every run, whatever comes in between and even if notices of one order overlap: a notice handled to the end
      was credited iff it was for a top-up worth a cent and found the order as it had left it itself, paying and
      then paid. */
  lemma {:induction false} CreditedIffFoundItsOwn(es: seq<Step>)
    requires AllPlain(es)
    ensures forall h <- Run(es).handlers :: Story(Run(es).lap, h)
  {
    if es != [] {
      CreditedIffFoundItsOwn(es[..|es| - 1]);
      EveryRunIsKept(es[..|es| - 1]);
      StoriesStep(Run(es[..|es| - 1]), es[|es| - 1]);
    }
  }

  // ---- each credit is a notice's ----

  /** The notices of order id that were credited. */
  function CreditedNotices(hs: seq<Handler>, id: string): nat {
    if hs == [] then 0
    else CreditedNotices(hs[..|hs| - 1], id) + if IsCredited(hs[|hs| - 1], id) then 1 else 0
  }

  predicate IsCredited(h: Handler, id: string) { h.id == id && h.stage == Finished(true) }

  lemma {:induction false} CreditedUpdate(hs: seq<Handler>, i: nat, h: Handler, id: string)
    requires i < |hs|
    ensures CreditedNotices(hs[i := h], id)
         == CreditedNotices(hs, id) + (if IsCredited(h, id) then 1 else 0) - if IsCredited(hs[i], id) then 1 else 0
  {
    var n := |hs| - 1;
    if i < n {
      CreditedUpdate(hs[..n], i, h, id);
      assert hs[i := h][..n] == hs[..n][i := h];
    } else {
      assert hs[i := h][..n] == hs[..n];
    }
  }

  lemma CreditedAppend(hs: seq<Handler>, h: Handler, id: string)
    ensures CreditedNotices(hs + [h], id) == CreditedNotices(hs, id) + if IsCredited(h, id) then 1 else 0
  {
    assert (hs + [h])[..|hs|] == hs;
  }

  lemma {:induction false} NoneCredited(hs: seq<Handler>, id: string)
    requires forall h <- hs :: h.id != id
    ensures CreditedNotices(hs, id) == 0
  {
    if hs != [] {
      assert hs[|hs| - 1] in hs;
      NoneCredited(hs[..|hs| - 1], id);
    }
  }

  /** Does this step credit order id? */
  predicate Credits(s: State, e: Step, id: string) {
    ActionOf(s, e) == Credit(id) && IsWorth(s.lap, id)
  }

  lemma CreditedStep(s: State, e: Step, id: string)
    ensures CreditedNotices(Next(s, e).handlers, id)
         == CreditedNotices(s.handlers, id) + if Credits(s, e, id) then 1 else 0
  {
    if e.Open? && Callback.Accepts(s.Store(), e.notice) {
      CreditedAppend(s.handlers, Next(s, e).handlers[|s.handlers|], id);
    } else if e.Advance? && Advances(s, e.handler) {
      CreditedUpdate(s.handlers, e.handler, HandlerAfter(s.lap, s.handlers[e.handler]), id);
    }
  }

  lemma LedgerStep(lap: Overlap.State, a: Action, id: string, u: string)
    requires Overlap.Kept(lap) && PlainAction(lap.core, a)
    ensures Callback.Credits(Act(lap, a).core.book.LedgerOf(u), id)
         == Callback.Credits(lap.core.book.LedgerOf(u), id)
            + if a == Credit(id) && id in lap.core.store && 0 < Callback.Cents(lap.core.store[id])
                 && lap.core.store[id].userId == u then 1 else 0
  {
    match a
    case Nothing =>
    case Laps(step) =>
      if step.Whole? {
        Callback.CreditedExactlyWhenPaid(lap.core, step.step, id, u);
      }
    case Credit(x) =>
      if x in lap.core.store {
        var o, l := lap.core.store[x], lap.core.book.LedgerOf(u);
        Callback.FulfilStep(lap.core.book, o, u);
        Callback.CreditsAppend(l, Wallet.NextEntry(lap.core.book, Callback.TopupRequest(o), Callback.Cents(o)), id);
        assert l + [] == l;
      }
  }

  lemma LedgerGrows(s: State, e: Step, id: string, u: string)
    requires Kept(s) && (e.Around? ==> Plain(s.lap.core, e.step))
    ensures Callback.Credits(Next(s, e).Ledger(u), id)
         == Callback.Credits(s.Ledger(u), id) + if Credits(s, e, id) && s.Store()[id].userId == u then 1 else 0
  {
    ActionIsPlain(s, e);
    LedgerStep(s.lap, ActionOf(s, e), id, u);
    if ActionOf(s, e) == Credit(id) {
      CreditIsForTopup(s, e, id);
    }
  }

  lemma CreditIsForTopup(s: State, e: Step, id: string)
    requires ActionOf(s, e) == Credit(id)
    ensures id in s.Store() && s.Store()[id].purpose == TOPUP
  {}

  ghost predicate Matched(s: State, id: string, u: string) {
    Callback.Credits(s.Ledger(u), id)
    == if id in s.Store() && s.Store()[id].userId == u then CreditedNotices(s.handlers, id) else 0
  }

  lemma MatchedStep(s: State, e: Step, id: string, u: string)
    requires Kept(s) && (e.Around? ==> Plain(s.lap.core, e.step)) && Matched(s, id, u)
    ensures Matched(Next(s, e), id, u)
  {
    StepKeeps(s, e);
    LedgerGrows(s, e, id, u);
    CreditedStep(s, e, id);
    if id !in s.Store() {
      NoneCredited(s.handlers, id);
    } else {
      assert Overlap.SameOrder(s.Store()[id], Next(s, e).Store()[id]);
    }
  }

  /** In every run an order's credits in its user's ledger are as many as its credited notices, and other ledgers
      hold none. */
  lemma {:induction false} EachCreditIsANotice(es: seq<Step>, id: string, u: string)
    requires AllPlain(es)
    ensures Matched(Run(es), id, u)
  {
    if es != [] {
      EachCreditIsANotice(es[..|es| - 1], id, u);
      EveryRunIsKept(es[..|es| - 1]);
      MatchedStep(Run(es[..|es| - 1]), es[|es| - 1], id, u);
    }
  }

  // ---- serialised notices ----

  predicate UnderWay(s: State, i: nat, id: string) {
    i < |s.handlers| && s.handlers[i].id == id && !s.handlers[i].stage.Finished?
  }

  predicate IsPast(h: Handler) { h.stage == Settled || h.stage == Fulfilling || h.stage == Fulfilled }

  /** Notices of one order come one after the other, and nobody else starts a payment on a copy whose order has
      meanwhile been paid or closed. */
  ghost predicate Orderly(s: State, e: Step) {
    && (e.Open? ==> forall i: nat :: !UnderWay(s, i, e.notice.orderId))
    && (e.Around? ==> Plain(s.lap.core, e.step) && !StartsStale(s.lap, e.step))
  }

  predicate StartsStale(lap: Overlap.State, e: Overlap.Step) {
    Starts(lap, e) && 2 <= Rank(lap.core.store[lap.copies[e.copy].id].status)
  }

  predicate Starts(lap: Overlap.State, e: Overlap.Step) {
    e.Write? && e.trigger == PayStart && Overlap.Writes(lap, e.copy, PayStart)
  }

  ghost predicate AllOrderly(es: seq<Step>) {
    es != [] ==> AllOrderly(es[..|es| - 1]) && Orderly(Run(es[..|es| - 1]), es[|es| - 1])
  }

  /** One notice under way at most, none credited before it, and once paid or credited the order awaits no payment. */
  ghost predicate Guarded(s: State, id: string) {
    var n := CreditedNotices(s.handlers, id);
    && n <= 1
    && (forall i: nat, j: nat :: UnderWay(s, i, id) && UnderWay(s, j, id) ==> i == j)
    && (forall i: nat :: UnderWay(s, i, id) ==> n == 0)
    && (n == 1 ==> id in s.Store() && 2 <= Rank(s.Store()[id].status))
    && forall i: nat :: UnderWay(s, i, id) && IsPast(s.handlers[i]) ==>
         id in s.Store() && 2 <= Rank(s.Store()[id].status)
  }

  /** Only a payment start lowers the rank of a paid or closed order below that. */
  lemma RankStays(lap: Overlap.State, a: Action, id: string)
    requires Overlap.Kept(lap) && PlainAction(lap.core, a)
             && id in lap.core.store && 2 <= Rank(lap.core.store[id].status)
    requires !(a.Laps? && StartsStale(lap, a.step) && lap.copies[a.step.copy].id == id)
    ensures id in Act(lap, a).core.store && 2 <= Rank(Act(lap, a).core.store[id].status)
  {
    ActExtends(lap, a);
    if a.Laps? {
      match a.step
      case Whole(step) => Callback.StepEvolves(lap.core, step, id);
      case Read(_) =>
      case Write(i, t, _) =>
        if Overlap.Writes(lap, i, t) {
          TransitionsClimb(lap.copies[i].status, t);
        }
    }
  }

  lemma GuardedAround(s: State, e: Step, id: string)
    requires Kept(s) && Guarded(s, id) && e.Around? && Orderly(s, e)
    ensures Guarded(Next(s, e), id)
  {
    if id in s.Store() && 2 <= Rank(s.Store()[id].status) {
      RankStays(s.lap, Laps(e.step), id);
    }
    assert forall i: nat :: UnderWay(Next(s, e), i, id) == UnderWay(s, i, id);
  }

  lemma GuardedOpen(s: State, e: Step, id: string)
    requires Kept(s) && Guarded(s, id) && e.Open? && Orderly(s, e)
    ensures Guarded(Next(s, e), id)
  {
    var s' := Next(s, e);
    CreditedStep(s, e, id);
    forall i: nat
      ensures UnderWay(s', i, id) ==> UnderWay(s, i, id) || (i == |s.handlers| && e.notice.orderId == id)
      ensures UnderWay(s, i, id) ==> UnderWay(s', i, id) && s'.handlers[i] == s.handlers[i]
    {}
  }

  /** Advancing a handler leaves the others alone. */
  lemma OthersStay(s: State, i: nat, now: int, id: string)
    requires Advances(s, i)
    ensures forall j: nat :: UnderWay(Next(s, Advance(i, now)), j, id) ==> UnderWay(s, j, id)
    ensures forall j: nat :: j != i && UnderWay(s, j, id) ==> Next(s, Advance(i, now)).handlers[j] == s.handlers[j]
  {}

  lemma AdvanceElsewhere(s: State, i: nat, now: int, id: string)
    requires Kept(s) && Guarded(s, id) && Advances(s, i)
    requires s.handlers[i].id != id || s.handlers[i].stage.Finished?
    ensures Guarded(Next(s, Advance(i, now)), id)
  {
    var e := Advance(i, now);
    CreditedStep(s, e, id);
    assert !Credits(s, e, id);
    OthersStay(s, i, now, id);
    ActionIsPlain(s, e);
    if id in s.Store() && 2 <= Rank(s.Store()[id].status) {
      RankStays(s.lap, ActionOf(s, e), id);
    }
  }

  lemma AdvanceEarly(s: State, i: nat, now: int, id: string)
    requires Kept(s) && Guarded(s, id) && Advances(s, i) && UnderWay(s, i, id) && !IsPast(s.handlers[i])
    ensures Guarded(Next(s, Advance(i, now)), id)
  {
    var e := Advance(i, now);
    CreditedStep(s, e, id);
    assert !Credits(s, e, id);
    OthersStay(s, i, now, id);
    SettlingPays(s.lap, s.handlers[i], now);
  }

  lemma AdvancePast(s: State, i: nat, now: int, id: string)
    requires Kept(s) && Guarded(s, id) && Advances(s, i) && UnderWay(s, i, id) && IsPast(s.handlers[i])
    ensures Guarded(Next(s, Advance(i, now)), id)
  {
    var e := Advance(i, now);
    CreditedStep(s, e, id);
    OthersStay(s, i, now, id);
    ActionIsPlain(s, e);
    RankStays(s.lap, ActionOf(s, e), id);
    if Credits(s, e, id) {
      assert Next(s, e).handlers[i].stage.Finished?;
    }
  }

  lemma SettlingPays(lap: Overlap.State, h: Handler, now: int)
    requires WellPlaced(lap, h) && !IsPast(h)
    ensures var lap' := Act(lap, HandlerAction(lap, h, now));
            IsPast(HandlerAfter(lap, h)) ==> h.id in lap'.core.store && 2 <= Rank(lap'.core.store[h.id].status)
  {}

  lemma GuardedStep(s: State, e: Step, id: string)
    requires Kept(s) && Guarded(s, id) && Orderly(s, e)
    ensures Guarded(Next(s, e), id)
  {
    match e
    case Around(_) => GuardedAround(s, e, id);
    case Open(_) => GuardedOpen(s, e, id);
    case Advance(i, now) =>
      if Advances(s, i) {
        if !UnderWay(s, i, id) {
          AdvanceElsewhere(s, i, now, id);
        } else if IsPast(s.handlers[i]) {
          AdvancePast(s, i, now, id);
        } else {
          AdvanceEarly(s, i, now, id);
        }
      }
  }

  lemma {:induction false} OrderlyIsPlain(es: seq<Step>)
    requires AllOrderly(es)
    ensures AllPlain(es)
  {
    if es != [] {
      OrderlyIsPlain(es[..|es| - 1]);
    }
  }

  lemma {:induction false} EveryRunIsGuarded(es: seq<Step>, id: string)
    requires AllOrderly(es)
    ensures Guarded(Run(es), id)
  {
    if es != [] {
      EveryRunIsGuarded(es[..|es| - 1], id);
      OrderlyIsPlain(es[..|es| - 1]);
      EveryRunIsKept(es[..|es| - 1]);
      GuardedStep(Run(es[..|es| - 1]), es[|es| - 1], id);
    }
  }

  /** With a notice's own transitions apart too, and anything but those two things in between, an order puts at most
      one credit in all ledgers together. */
  lemma AtMostOneCredit(es: seq<Step>, id: string, u: string, v: string)
    requires AllOrderly(es) && u != v
    ensures Callback.Credits(Run(es).Ledger(u), id) + Callback.Credits(Run(es).Ledger(v), id) <= 1
  {
    EveryRunIsGuarded(es, id);
    OrderlyIsPlain(es);
    EachCreditIsANotice(es, id, u);
    EachCreditIsANotice(es, id, v);
  }

  // ---- what overlap breaks ----

  /** A cancellation or failure that read the order before it was paid, or a sweep that listed it as due, and writes
      between callback_ok and fulfill: the money was taken, the notice ends uncredited, and the order is closed. */
  lemma StaleWriteLosesCredit(s: State, i: nat, k: nat, t: Trigger, listed: int, now: int)
    requires Kept(s) && Advances(s, i) && s.handlers[i].stage == Settled && t in {Timeout, UserCancel, CallbackFail}
    requires Overlap.Writes(s.lap, k, t) && s.lap.copies[k].id == s.handlers[i].id
    requires t == Timeout ==> Due(s.lap.copies[k], listed)
    ensures var id, closed := s.handlers[i].id, Next(s, Around(Overlap.Write(k, t, now)));
            var s' := Next(Next(closed, Advance(i, now)), Advance(i, now));
            && s'.handlers[i].stage == Finished(false) && s'.lap.core.book == s.lap.core.book
            && id in s'.Store() && s'.Store()[id].status == NextStatus(s.lap.copies[k].status, t).value
            && s'.Store()[id].status in {Expired, Canceled, Status.Failed}
  {
    var id := s.handlers[i].id;
    var closed := Next(s, Around(Overlap.Write(k, t, now)));
    assert closed.Store()[id].status == NextStatus(s.lap.copies[k].status, t).value;
    var read := Next(closed, Advance(i, now));
    assert read.handlers[i].stage == Fulfilling && read.lap.copies[read.handlers[i].copy] == closed.Store()[id];
  }

  /** From the read for callback_ok to the credit, with nothing in between. */
  function RunThrough(s: State, i: nat, now: int): State {
    Next(Next(Next(Next(s, Advance(i, now)), Advance(i, now)), Advance(i, now)), Advance(i, now))
  }

  /** What one move of handler i leaves alone. */
  ghost predicate MovesOnly(s: State, s': State, i: nat) {
    && Kept(s') && Extends(s.lap, s'.lap) && |s'.handlers| == |s.handlers|
    && forall j :: 0 <= j < |s.handlers| && j != i ==> s'.handlers[j] == s.handlers[j]
  }

  lemma MovesOnlyTwice(a: State, b: State, c: State, i: nat)
    requires MovesOnly(a, b, i) && MovesOnly(b, c, i)
    ensures MovesOnly(a, c, i)
  {
    forall id <- a.Store()
      ensures id in c.Store() && Overlap.SameOrder(a.Store()[id], c.Store()[id])
    {
      assert Overlap.SameOrder(a.Store()[id], b.Store()[id]);
    }
  }

  lemma OneMove(s: State, i: nat, now: int, id: string, u: string)
    requires Kept(s) && Advances(s, i) && s.handlers[i].id == id
    ensures var s' := Next(s, Advance(i, now));
            && MovesOnly(s, s', i) && Advances(s', i) && s'.handlers[i].id == id
            && Callback.Credits(s'.Ledger(u), id)
               == Callback.Credits(s.Ledger(u), id)
                  + if s.handlers[i].stage == Fulfilled && IsWorth(s.lap, id) && s.Store()[id].userId == u then 1 else 0
  {
    StepKeeps(s, Advance(i, now));
    LedgerGrows(s, Advance(i, now), id, u);
    assert Next(s, Advance(i, now)).handlers[i] in Next(s, Advance(i, now)).handlers;
  }

  /** Handler i has read the order in this status, or written it. */
  predicate HasRead(s: State, i: nat, stage: Stage, status: Status) {
    Advances(s, i) && s.handlers[i].stage == stage && s.lap.copies[s.handlers[i].copy].status == status
  }

  predicate HasWritten(s: State, i: nat, stage: Stage, status: Status) {
    Advances(s, i) && s.handlers[i].stage == stage && s.Store()[s.handlers[i].id].status == status
  }

  lemma Pays(s: State, i: nat, now: int)
    requires Kept(s) && HasRead(s, i, Settling, Paying)
    ensures HasWritten(Next(s, Advance(i, now)), i, Settled, Paid)
  {
    OneMove(s, i, now, s.handlers[i].id, "");
  }

  lemma Rereads(s: State, i: nat, now: int)
    requires Kept(s) && HasWritten(s, i, Settled, Paid)
    ensures HasRead(Next(s, Advance(i, now)), i, Fulfilling, Paid)
  {
    OneMove(s, i, now, s.handlers[i].id, "");
  }

  lemma Fulfils(s: State, i: nat, now: int)
    requires Kept(s) && HasRead(s, i, Fulfilling, Paid)
    ensures HasWritten(Next(s, Advance(i, now)), i, Fulfilled, Completed)
  {
    OneMove(s, i, now, s.handlers[i].id, "");
  }

  lemma RunThroughPays(s: State, i: nat, now: int)
    requires Kept(s) && HasRead(s, i, Settling, Paying) && IsWorth(s.lap, s.handlers[i].id)
    ensures var s', id := RunThrough(s, i, now), s.handlers[i].id;
            var u := s.Store()[id].userId;
            MovesOnly(s, s', i) && Callback.Credits(s'.Ledger(u), id) == Callback.Credits(s.Ledger(u), id) + 1
  {
    var id, u, e := s.handlers[i].id, s.Store()[s.handlers[i].id].userId, Advance(i, now);
    var a := Next(s, e);
    var b := Next(a, e);
    var c := Next(b, e);
    OneMove(s, i, now, id, u);
    Pays(s, i, now);
    OneMove(a, i, now, id, u);
    Rereads(a, i, now);
    OneMove(b, i, now, id, u);
    Fulfils(b, i, now);
    MovesOnlyTwice(s, a, b, i);
    MovesOnlyTwice(s, b, c, i);
    OneMove(c, i, now, id, u);
    MovesOnlyTwice(s, c, Next(c, e), i);
    assert Overlap.SameOrder(s.Store()[id], c.Store()[id]);
  }

  /** Two notices of one order that both read it for callback_ok before either writes are both credited. */
  lemma TwoNoticesPayTwice(s: State, i: nat, j: nat, now: int)
    requires Kept(s) && HasRead(s, i, Settling, Paying) && HasRead(s, j, Settling, Paying) && i != j
    requires s.handlers[i].id == s.handlers[j].id && IsWorth(s.lap, s.handlers[i].id)
    ensures var s', id := RunThrough(RunThrough(s, i, now), j, now), s.handlers[i].id;
            var u := s.Store()[id].userId;
            Callback.Credits(s'.Ledger(u), id) == Callback.Credits(s.Ledger(u), id) + 2
  {
    var id, first := s.handlers[i].id, RunThrough(s, i, now);
    RunThroughPays(s, i, now);
    assert Overlap.SameOrder(s.Store()[id], first.Store()[id]);
    PlacedStays(s.lap, first.lap, s.handlers[j]);
    RunThroughPays(first, j, now);
  }
  lemma OpensPlaced(s: State, n: Callback.Notice)
    requires Kept(s) && Callback.Accepts(s.Store(), n)
    ensures var s', i := Next(s, Open(n)), |s.handlers|;
            && Kept(s') && s'.lap.core == s.lap.core && |s'.handlers| == i + 1 && s'.handlers[..i] == s.handlers
            && Advances(s', i) && s'.handlers[i].id == n.orderId && s'.handlers[i].stage == Opened
            && s'.lap.copies[s'.handlers[i].copy] == s.Store()[n.orderId]
  {
    StepKeeps(s, Open(n));
    assert s.Store()[n.orderId].id == n.orderId;
  }

  lemma ReadsForPayment(s: State, i: nat, now: int)
    requires Kept(s) && HasRead(s, i, Opened, Paying) && s.Store()[s.handlers[i].id].status == Paying
    ensures HasRead(Next(s, Advance(i, now)), i, Settling, Paying)
  {
    OneMove(s, i, now, s.handlers[i].id, "");
  }

  /** So the same notice delivered twice at once for a top-up being paid, whatever the state, is credited twice. */
  lemma DoubleDeliveryPaysTwice(s: State, n: Callback.Notice, now: int)
    requires Kept(s) && Callback.Accepts(s.Store(), n)
             && s.Store()[n.orderId].status == Paying && IsWorth(s.lap, n.orderId)
    ensures var i, u := |s.handlers|, s.Store()[n.orderId].userId;
            var both := Next(Next(s, Open(n)), Open(n));
            var read := Next(Next(both, Advance(i, now)), Advance(i + 1, now));
            Callback.Credits(RunThrough(RunThrough(read, i, now), i + 1, now).Ledger(u), n.orderId)
            == Callback.Credits(s.Ledger(u), n.orderId) + 2
  {
    var i, id := |s.handlers|, n.orderId;
    BothOpen(s, n);
    var both := Next(Next(s, Open(n)), Open(n));
    BothRead(both, i, i + 1, id, now);
    TwoNoticesPayTwice(Next(Next(both, Advance(i, now)), Advance(i + 1, now)), i, i + 1, now);
  }

  /** Handler i reads for its payment; handler j keeps what it has read. */
  lemma ReadsBeside(s: State, i: nat, j: nat, id: string, now: int)
    requires Kept(s) && HasRead(s, i, Opened, Paying) && Advances(s, j) && i != j && s.handlers[i].id == id
    requires s.Store()[id].status == Paying
    ensures var s' := Next(s, Advance(i, now));
            && Kept(s') && HasRead(s', i, Settling, Paying) && s'.handlers[i].id == id && s'.lap.core == s.lap.core
            && Advances(s', j) && s'.handlers[j] == s.handlers[j]
            && s'.lap.copies[s.handlers[j].copy] == s.lap.copies[s.handlers[j].copy]
  {
    OneMove(s, i, now, id, "");
    ReadsForPayment(s, i, now);
    PlacedStays(s.lap, Next(s, Advance(i, now)).lap, s.handlers[j]);
  }

  lemma BothRead(s: State, i: nat, j: nat, id: string, now: int)
    requires Kept(s) && HasRead(s, i, Opened, Paying) && HasRead(s, j, Opened, Paying) && i != j
    requires s.handlers[i].id == s.handlers[j].id == id && s.Store()[id].status == Paying
    ensures var s' := Next(Next(s, Advance(i, now)), Advance(j, now));
            && Kept(s') && HasRead(s', i, Settling, Paying) && HasRead(s', j, Settling, Paying)
            && s'.handlers[i].id == s'.handlers[j].id == id && s'.lap.core == s.lap.core
  {
    ReadsBeside(s, i, j, id, now);
    ReadsBeside(Next(s, Advance(i, now)), j, i, id, now);
  }

  lemma BothOpen(s: State, n: Callback.Notice)
    requires Kept(s) && Callback.Accepts(s.Store(), n) && s.Store()[n.orderId].status == Paying
    ensures var s', i := Next(Next(s, Open(n)), Open(n)), |s.handlers|;
            && Kept(s') && s'.lap.core == s.lap.core && |s'.handlers| == i + 2
            && HasRead(s', i, Opened, Paying) && HasRead(s', i + 1, Opened, Paying)
            && s'.handlers[i].id == s'.handlers[i + 1].id == n.orderId
  {
    var i := |s.handlers|;
    OpensPlaced(s, n);
    var one := Next(s, Open(n));
    OpensPlaced(one, n);
    var two := Next(one, Open(n));
    StepKeeps(one, Open(n));
    PlacedStays(one.lap, two.lap, one.handlers[i]);
    assert two.handlers[i] == two.handlers[..i + 1][i] == one.handlers[i];
  }

  // ---- with nothing in between ----

  /** The stage from which this transition is read and written. */
  predicate Before(s: State, i: nat, t: Trigger) {
    && Advances(s, i)
    && match s.handlers[i].stage
       case Opened => t == if s.lap.copies[s.handlers[i].copy].status == Pending then PayStart else CallbackOK
       case Started => t == CallbackOK
       case Settled => t == Trigger.Fulfill
       case _ => false
  }

  function StageOf(t: Trigger): Stage {
    match t
    case PayStart => Starting
    case CallbackOK => Settling
    case _ => Fulfilling
  }

  function StageAfter(t: Trigger): Stage {
    match t
    case PayStart => Started
    case CallbackOK => Settled
    case _ => Fulfilled
  }

  /** Handler i, of order id, stands here. */
  ghost predicate Stands(s: State, i: nat, id: string, stage: Stage) {
    Kept(s) && Advances(s, i) && s.handlers[i].id == id && s.handlers[i].stage == stage
  }

  lemma ReadAtOnce(s: State, i: nat, t: Trigger, id: string, now: int)
    requires Kept(s) && Before(s, i, t) && s.handlers[i].id == id
    ensures var s' := Next(s, Advance(i, now));
            Stands(s', i, id, StageOf(t)) && s'.lap.core == s.lap.core
            && s'.lap.copies[s'.handlers[i].copy] == s.Store()[id]
  {
    OneMove(s, i, now, id, "");
  }

  lemma WriteAtOnce(s: State, i: nat, t: Trigger, id: string, now: int)
    requires t in {PayStart, CallbackOK, Trigger.Fulfill} && Stands(s, i, id, StageOf(t))
    requires s.lap.copies[s.handlers[i].copy] == s.Store()[id] && CanTransition(s.Store()[id].status, t)
    ensures var s' := Next(s, Advance(i, now));
            && Stands(s', i, id, StageAfter(t))
            && s'.lap.core == s.lap.core.(store := Transitioned(s.Store(), id, t, now))
  {
    OneMove(s, i, now, id, "");
  }

  function Twice(s: State, i: nat, now: int): State { Next(Next(s, Advance(i, now)), Advance(i, now)) }

  /** A read and its write with nothing in between are one transition. */
  lemma TransitionAtOnce(s: State, i: nat, t: Trigger, id: string, now: int)
    requires Kept(s) && Before(s, i, t) && s.handlers[i].id == id && CanTransition(s.Store()[id].status, t)
    ensures Stands(Twice(s, i, now), i, id, StageAfter(t))
    ensures Twice(s, i, now).lap.core == s.lap.core.(store := Transitioned(s.Store(), id, t, now))
  {
    ReadAtOnce(s, i, t, id, now);
    WriteAtOnce(Next(s, Advance(i, now)), i, t, id, now);
  }

  lemma CreditAtOnce(s: State, i: nat, id: string, now: int)
    requires Stands(s, i, id, Fulfilled)
    ensures var o := s.Store()[id];
            Next(s, Advance(i, now)).lap.core
            == s.lap.core.(book := if o.purpose == TOPUP then Callback.Fulfilled(s.lap.core.book, o)
                                   else s.lap.core.book)
  {}

  /** From a paying order to the credit. */
  function PaidThrough(s: State, i: nat, now: int): State { Next(Twice(Twice(s, i, now), i, now), Advance(i, now)) }

  lemma PaidAtOnce(s: State, i: nat, id: string, now: int)
    requires Kept(s) && Before(s, i, CallbackOK) && s.handlers[i].id == id && s.Store()[id].status == Paying
    ensures var core := s.lap.core;
            var done := Transitioned(Transitioned(core.store, id, CallbackOK, now), id, Trigger.Fulfill, now);
            PaidThrough(s, i, now).lap.core
            == Callback.State(done, if done[id].purpose == TOPUP then Callback.Fulfilled(core.book, done[id])
                                    else core.book)
  {
    TransitionAtOnce(s, i, CallbackOK, id, now);
    TransitionAtOnce(Twice(s, i, now), i, Trigger.Fulfill, id, now);
    CreditAtOnce(Twice(Twice(s, i, now), i, now), i, id, now);
  }

  /** A notice handled with nothing in between is the one step of module Callback. */
  lemma AtOnceIsProcessed(s: State, n: Callback.Notice, now: int)
    requires Kept(s) && Callback.Accepts(s.Store(), n)
    ensures var s', i := Next(s, Open(n)), |s.handlers|;
            var from := if s.Store()[n.orderId].status == Pending then Twice(s', i, now) else s';
            PaidThrough(from, i, now).lap.core == Callback.Processed(s.lap.core, n, now)
  {
    var i, id := |s.handlers|, n.orderId;
    OpensPlaced(s, n);
    var a := Next(s, Open(n));
    if s.Store()[id].status == Pending {
      TransitionAtOnce(a, i, PayStart, id, now);
      PaidAtOnce(Twice(a, i, now), i, id, now);
    } else {
      PaidAtOnce(a, i, id, now);
    }
  }
}
