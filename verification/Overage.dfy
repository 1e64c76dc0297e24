/** gateway/internal/gateway/extra_usage_handler.go, CheckAndCharge, over extra_usage_repo.go's in-memory
    store and the wallet: pay-as-you-go charges under a monthly cap. */
module Overage {
  import Wallet

  datatype Charge = Charge(planId: string, count: int, weightSum: int, amountCents: int)

  datatype UsageEvent = UsageEvent(id: int, item: Item)

  datatype Settings = Settings(enabled: bool, capCents: int)

  /** What one call charges for; `source` is the provider and endpoint. */
  datatype Item = Item(user: string, month: string, planId: string, source: string, weight: int, price: int)

  const NO_CHARGE := Charge("", 0, 0, 0)

  /** The three stores a call touches: wallet, monthly charges by user and month, and usage events. */
  datatype Stores = Stores(book: Wallet.Book, charges: map<string, map<string, Charge>>,
                           events: map<string, seq<UsageEvent>>, nextEvent: int)
  {
    function Months(u: string): map<string, Charge> { if u in charges then charges[u] else map[] }

    function ChargeOf(u: string, m: string): Charge { if m in Months(u) then Months(u)[m] else NO_CHARGE }

    function EventsOf(u: string): seq<UsageEvent> { if u in events then events[u] else [] }
  }

  function Weight(w: int): int { if w <= 0 then 1 else w }

  /** Cents for one call: rounded up, at least one. */
  function Price(pricePer1k: int, weight: int): int {
    var cents := (pricePer1k * weight + 999) / 1000;
    if cents <= 0 then 1 else cents
  }

  function Added(c: Charge, planId: string, weight: int, price: int): Charge {
    Charge(if planId != "" then planId else c.planId, c.count + 1, c.weightSum + weight, c.amountCents + price)
  }

  function DebitRequest(it: Item): Wallet.Request {
    Wallet.Request(it.user, it.price, Wallet.OVERAGE, "", it.source, "Extra usage: " + it.source)
  }

  function RefundRequest(it: Item): Wallet.Request {
    Wallet.Request(it.user, it.price, Wallet.REFUND, "", "", "compensate failed extra usage charge")
  }

  function WithCharge(s: Stores, it: Item): Stores {
    s.(charges := s.charges[it.user :=
         s.Months(it.user)[it.month := Added(s.ChargeOf(it.user, it.month), it.planId, it.weight, it.price)]])
  }

  function WithEvent(s: Stores, it: Item): Stores {
    s.(events := s.events[it.user := s.EventsOf(it.user) + [UsageEvent(s.nextEvent + 1, it)]],
       nextEvent := s.nextEvent + 1)
  }

  // ---- calls as interleaved steps ----

  /** Where a call stands. Checked: the cap was checked against the charge it read. Failed: AddCharge
      failed and the refund is due. Lost: RecordEvent failed, which the code ignores. */
  datatype Phase = Checked | Debited | Rejected | Recorded | Failed | Compensated | Logged | Lost

  datatype Call = Call(item: Item, phase: Phase)

  datatype State = State(stores: Stores, calls: seq<Call>)

  datatype Step =
    | Begin(settings: Settings, pricePer1k: int, item: Item)  // the item's weight is the raw one, its price unset
    | Debit(call: nat)
    | AddCharge(call: nat, ok: bool)
    | Refund(call: nat)
    | RecordEvent(call: nat, ok: bool)
    | Other(op: Wallet.Op)  // wallet traffic of any other kind

  function Priced(pricePer1k: int, it: Item): Item {
    it.(weight := Weight(it.weight), price := Price(pricePer1k, Weight(it.weight)))
  }

  predicate OverCap(s: Stores, cap: int, it: Item) {
    cap > 0 && s.ChargeOf(it.user, it.month).amountCents + it.price > cap
  }

  function InPhase(s: State, i: nat, p: Phase): bool { i < |s.calls| && s.calls[i].phase == p }

  function Moved(s: State, stores: Stores, i: nat, p: Phase): State
    requires i < |s.calls|
  {
    State(stores, s.calls[i := s.calls[i].(phase := p)])
  }

  predicate Foreign(op: Wallet.Op) {
    !op.SetBalance? ==> op.req.kind != Wallet.OVERAGE && op.req.kind != Wallet.REFUND
  }

  function Next(s: State, e: Step): State {
    match e
    case Begin(settings, p, it) =>
      if !settings.enabled || p <= 0 || OverCap(s.stores, settings.capCents, Priced(p, it)) then s
      else s.(calls := s.calls + [Call(Priced(p, it), Checked)])
    case Debit(i) =>
      if !InPhase(s, i, Checked) then s
      else
        var r := DebitRequest(s.calls[i].item);
        if Wallet.JudgeDebit(s.stores.book, r).Accept?
        then Moved(s, s.stores.(book := Wallet.Next(s.stores.book, Wallet.Debit(r))), i, Debited)
        else Moved(s, s.stores, i, Rejected)
    case AddCharge(i, ok) =>
      if !InPhase(s, i, Debited) then s
      else if ok then Moved(s, WithCharge(s.stores, s.calls[i].item), i, Recorded)
      else Moved(s, s.stores, i, Failed)
    case Refund(i) =>
      if !InPhase(s, i, Failed) then s
      else
        var op := Wallet.Credit(RefundRequest(s.calls[i].item));
        Moved(s, s.stores.(book := Wallet.Next(s.stores.book, op)), i, Compensated)
    case RecordEvent(i, ok) =>
      if !InPhase(s, i, Recorded) then s
      else if ok then Moved(s, WithEvent(s.stores, s.calls[i].item), i, Logged)
      else Moved(s, s.stores, i, Lost)
    case Other(op) =>
      if Foreign(op) then s.(stores := s.stores.(book := Wallet.Next(s.stores.book, op))) else s
  }

  const START := State(Stores(Wallet.EMPTY, map[], map[], 0), [])

  function Run(s: State, es: seq<Step>): State {
    if es == [] then s else Next(Run(s, es[..|es| - 1]), es[|es| - 1])
  }

  // ---- sums over the calls ----

  /** The total price of the selected calls. */
  function PriceSum(calls: seq<Call>, sel: Call -> bool): int {
    if calls == [] then 0
    else
      var c := calls[|calls| - 1];
      PriceSum(calls[..|calls| - 1], sel) + if sel(c) then c.item.price else 0
  }

  function Count(calls: seq<Call>, sel: Call -> bool): nat {
    if calls == [] then 0 else Count(calls[..|calls| - 1], sel) + if sel(calls[|calls| - 1]) then 1 else 0
  }

  lemma {:induction false} SumMove(calls: seq<Call>, i: nat, p: Phase, sel: Call -> bool)
    requires i < |calls|
    ensures var c := calls[i].(phase := p);
            && PriceSum(calls[i := c], sel) == PriceSum(calls, sel)
                 + (if sel(c) then c.item.price else 0) - (if sel(calls[i]) then c.item.price else 0)
            && Count(calls[i := c], sel) == Count(calls, sel) + (if sel(c) then 1 else 0)
                 - if sel(calls[i]) then 1 else 0
  {
    var n, c := |calls| - 1, calls[i].(phase := p);
    if i < n {
      SumMove(calls[..n], i, p, sel);
      assert calls[i := c][..n] == calls[..n][i := c];
    } else {
      assert calls[i := c][..n] == calls[..n];
    }
  }

  lemma SumAppend(calls: seq<Call>, c: Call, sel: Call -> bool)
    ensures PriceSum(calls + [c], sel) == PriceSum(calls, sel) + if sel(c) then c.item.price else 0
    ensures Count(calls + [c], sel) == Count(calls, sel) + if sel(c) then 1 else 0
  {
    assert (calls + [c])[..|calls|] == calls;
  }

  // ---- the cap ----

  /** Calls of user u in month m that passed the cap check and have not been recorded. */
  function Pending(u: string, m: string): Call -> bool {
    (c: Call) => c.item.user == u && c.item.month == m && (c.phase == Checked || c.phase == Debited)
  }

  function MonthTotal(s: State, u: string, m: string): int { s.stores.ChargeOf(u, m).amountCents }

  /** Every call begun for u in m had this cap in force and was priced at most maxPrice. */
  ghost predicate Tariff(es: seq<Step>, u: string, m: string, cap: int, maxPrice: int) {
    forall e <- es :: e.Begin? && e.item.user == u && e.item.month == m ==>
      e.settings.capCents == cap && Priced(e.pricePer1k, e.item).price <= maxPrice
  }

  /** From s on, at no moment are more than k calls of u in m between their check and their record. */
  ghost predicate InFlightFrom(s: State, es: seq<Step>, u: string, m: string, k: int) {
    forall n :: 0 <= n <= |es| ==> Count(Run(s, es[..n]).calls, Pending(u, m)) <= k
  }

  ghost predicate AtMostInFlight(es: seq<Step>, u: string, m: string, k: int) { InFlightFrom(START, es, u, m, k) }

  /** Every pending call of u in m is priced from one cent to maxPrice. */
  ghost predicate PricedWithin(calls: seq<Call>, u: string, m: string, maxPrice: int) {
    forall i :: 0 <= i < |calls| && Pending(u, m)(calls[i]) ==> 0 < calls[i].item.price <= maxPrice
  }

  lemma {:induction false} PendingBounds(calls: seq<Call>, u: string, m: string, maxPrice: int)
    requires PricedWithin(calls, u, m, maxPrice) && 0 <= maxPrice
    ensures 0 <= PriceSum(calls, Pending(u, m)) <= maxPrice * Count(calls, Pending(u, m))
  {
    if calls != [] {
      PendingBounds(calls[..|calls| - 1], u, m, maxPrice);
      var n := Count(calls[..|calls| - 1], Pending(u, m));
      assert maxPrice * (n + 1) == maxPrice * n + maxPrice;
    }
  }

  ghost predicate CapInvariant(s: State, u: string, m: string, limit: int, maxPrice: int) {
    && 0 <= MonthTotal(s, u, m)
    && MonthTotal(s, u, m) + PriceSum(s.calls, Pending(u, m)) <= limit
    && PricedWithin(s.calls, u, m, maxPrice)
  }

  function Min(a: int, b: int): int { if a < b then a else b }

  lemma PriceIsPositive(p: int, w: int)
    requires 0 < p && 1 <= w
    ensures 0 < Price(p, w) && p * w <= 1000 * Price(p, w) <= p * w + 999
  {
    assert 1 <= p * w;
  }

  /** A priced call of an enabled user begins iff it stays within a positive cap; a cap of zero or less is none. */
  lemma BeginsIff(s: State, settings: Settings, p: int, it: Item)
    ensures var charged, price := s.stores.ChargeOf(it.user, it.month).amountCents, Priced(p, it).price;
            |Next(s, Begin(settings, p, it)).calls| == |s.calls| + 1
            <==> settings.enabled && 0 < p && (settings.capCents <= 0 || charged + price <= settings.capCents)
  {}

  /** What a call is priced at and weighs: a weight below one counts as one. */
  lemma PricedIs(p: int, it: Item)
    requires 0 < p
    ensures var w, priced := if 1 <= it.weight then it.weight else 1, Priced(p, it);
            && priced.weight == w && p * w <= 1000 * priced.price <= p * w + 999 && 1 <= priced.price
            && priced.(weight := it.weight, price := it.price) == it
  {
    PriceIsPositive(p, Weight(it.weight));
  }

  /** A call that passes the check costs no more than the cap, so `top` need not pass it either. */
  lemma CapBegin(s: State, settings: Settings, p: int, it: Item, u: string, m: string, cap: int, top: int, k: int)
    requires 0 < cap && 0 <= top && CapInvariant(s, u, m, cap + (k - 1) * top, top)
    requires it.user == u && it.month == m ==> settings.capCents == cap && Min(Priced(p, it).price, cap) <= top
    requires Count(Next(s, Begin(settings, p, it)).calls, Pending(u, m)) <= k
    ensures CapInvariant(Next(s, Begin(settings, p, it)), u, m, cap + (k - 1) * top, top)
  {
    var s' := Next(s, Begin(settings, p, it));
    if s' != s {
      var c := Call(Priced(p, it), Checked);
      SumAppend(s.calls, c, Pending(u, m));
      PriceIsPositive(p, Weight(it.weight));
      if it.user == u && it.month == m {
        PendingBounds(s.calls, u, m, top);
        MulMonotone(top, Count(s.calls, Pending(u, m)), k - 1);
      }
    }
  }

  lemma MulMonotone(p: int, a: int, b: int)
    requires 0 <= p && a <= b
    ensures p * a <= b * p
  {}

  /** A call's later steps only move its price from pending to recorded, or drop it. */
  lemma CapMove(s: State, e: Step, u: string, m: string, limit: int, maxPrice: int)
    requires !e.Begin? && CapInvariant(s, u, m, limit, maxPrice)
    ensures CapInvariant(Next(s, e), u, m, limit, maxPrice)
  {
    if !e.Other? && Next(s, e) != s {
      var s', i := Next(s, e), e.call;
      var p := s'.calls[i].phase;
      assert s'.calls == s.calls[i := s.calls[i].(phase := p)];
      SumMove(s.calls, i, p, Pending(u, m));
      RecordedBy(s, e, u, m);
      assert e.AddCharge? && InPhase(s, i, Debited) ==>
               Pending(u, m)(s.calls[i]) == (s.calls[i].item.user == u && s.calls[i].item.month == m);
      MovedWithin(s.calls, i, p, u, m, maxPrice);
    }
  }

  /** Only a successful AddCharge changes the month's total, by the call's price. */
  lemma RecordedBy(s: State, e: Step, u: string, m: string)
    requires !e.Begin?
    ensures MonthTotal(Next(s, e), u, m) == MonthTotal(s, u, m)
         + if e.AddCharge? && e.ok && InPhase(s, e.call, Debited) && s.calls[e.call].item.user == u
              && s.calls[e.call].item.month == m then s.calls[e.call].item.price else 0
  {}

  lemma MovedWithin(calls: seq<Call>, i: nat, p: Phase, u: string, m: string, maxPrice: int)
    requires i < |calls| && PricedWithin(calls, u, m, maxPrice)
    requires (p == Checked || p == Debited) ==> calls[i].phase == Checked
    ensures PricedWithin(calls[i := calls[i].(phase := p)], u, m, maxPrice)
  {}

  lemma {:induction false} CapInvariantHolds(es: seq<Step>, u: string, m: string, cap: int, maxPrice: int, k: int)
    requires 0 < cap && 0 <= maxPrice && 1 <= k
    requires Tariff(es, u, m, cap, maxPrice) && AtMostInFlight(es, u, m, k)
    ensures CapInvariant(Run(START, es), u, m, cap + (k - 1) * Min(maxPrice, cap), Min(maxPrice, cap))
  {
    var top := Min(maxPrice, cap);
    if es == [] {
      MulMonotone(top, 0, k - 1);
    } else {
      var front, e := es[..|es| - 1], es[|es| - 1];
      forall i | 0 <= i <= |front|
        ensures front[..i] == es[..i]
      {}
      CapInvariantHolds(front, u, m, cap, maxPrice, k);
      assert e in es && es[..|es|] == es;
      match e
      case Begin(settings, p, it) => CapBegin(Run(START, front), settings, p, it, u, m, cap, top, k);
      case _ => CapMove(Run(START, front), e, u, m, cap + (k - 1) * top, top);
    }
  }

  lemma WithinLimit(s: State, u: string, m: string, limit: int, maxPrice: int)
    requires CapInvariant(s, u, m, limit, maxPrice) && 0 <= maxPrice
    ensures 0 <= MonthTotal(s, u, m) <= limit
  {
    PendingBounds(s.calls, u, m, maxPrice);
  }

  /** In every interleaving with at most k calls in flight, each priced at most maxPrice, the month's
      charge overshoots a fixed cap by at most k - 1 times the lesser of maxPrice and the cap; serial calls
      (k of 1) never pass it. */
  lemma OvershootBound(es: seq<Step>, u: string, m: string, cap: int, maxPrice: int, k: int)
    requires 0 < cap && 0 <= maxPrice && 1 <= k
    requires Tariff(es, u, m, cap, maxPrice) && AtMostInFlight(es, u, m, k)
    ensures 0 <= MonthTotal(Run(START, es), u, m) <= cap + (k - 1) * Min(maxPrice, cap)
  {
    CapInvariantHolds(es, u, m, cap, maxPrice, k);
    WithinLimit(Run(START, es), u, m, cap + (k - 1) * Min(maxPrice, cap), Min(maxPrice, cap));
  }

  // ---- conservation across the three stores ----

  /** Debited from the wallet, neither recorded nor refunded. */
  function InTransit(u: string): Call -> bool {
    (c: Call) => c.item.user == u && (c.phase == Debited || c.phase == Failed)
  }

  /** Recorded as a charge without an event to show for it. */
  function Unlogged(u: string): Call -> bool {
    (c: Call) => c.item.user == u && (c.phase == Recorded || c.phase == Lost)
  }

  /** The signed total of a ledger's overage and refund entries. */
  function OverageFlow(l: Wallet.Ledger): int {
    if l == [] then 0
    else
      var e := l[|l| - 1];
      OverageFlow(l[..|l| - 1]) + if e.kind == Wallet.OVERAGE || e.kind == Wallet.REFUND then e.amount else 0
  }

  function EventSum(es: seq<UsageEvent>): int {
    if es == [] then 0 else EventSum(es[..|es| - 1]) + es[|es| - 1].item.price
  }

  /** The total of a user's monthly charges. */
  ghost function ChargeSum(months: map<string, Charge>): int
    decreases |months|
  {
    if months == map[] then 0
    else
      var m :| m in months;
      months[m].amountCents + ChargeSum(months - {m})
  }

  lemma {:induction false} ChargeSumSplit(months: map<string, Charge>, m: string)
    requires m in months
    ensures ChargeSum(months) == months[m].amountCents + ChargeSum(months - {m})
    decreases |months|
  {
    var x :| x in months && ChargeSum(months) == months[x].amountCents + ChargeSum(months - {x});
    if x != m {
      ChargeSumSplit(months - {x}, m);
      ChargeSumSplit(months - {m}, x);
      assert months - {x} - {m} == months - {m} - {x};
    }
  }

  lemma ChargeSumUpdate(months: map<string, Charge>, m: string, c: Charge)
    ensures ChargeSum(months[m := c])
         == ChargeSum(months) + c.amountCents - if m in months then months[m].amountCents else 0
  {
    var after := months[m := c];
    ChargeSumSplit(after, m);
    if m in months {
      ChargeSumSplit(months, m);
      assert after - {m} == months - {m};
    } else {
      assert after - {m} == months;
    }
  }

  lemma FlowAppend(l: Wallet.Ledger, e: Wallet.Entry)
    ensures OverageFlow(l + [e])
         == OverageFlow(l) + if e.kind == Wallet.OVERAGE || e.kind == Wallet.REFUND then e.amount else 0
  {
    assert (l + [e])[..|l|] == l;
  }

  lemma EventSumAppend(es: seq<UsageEvent>, e: UsageEvent)
    ensures EventSum(es + [e]) == EventSum(es) + e.item.price
  {
    assert (es + [e])[..|es|] == es;
  }

  ghost predicate Conserved(s: State, u: string) {
    && -OverageFlow(s.stores.book.LedgerOf(u)) == ChargeSum(s.stores.Months(u)) + PriceSum(s.calls, InTransit(u))
    && ChargeSum(s.stores.Months(u)) == EventSum(s.stores.EventsOf(u)) + PriceSum(s.calls, Unlogged(u))
    && forall i :: 0 <= i < |s.calls| ==> 0 < s.calls[i].item.price
  }

  lemma WalletStep(b: Wallet.Book, op: Wallet.Op, u: string)
    ensures OverageFlow(Wallet.Next(b, op).LedgerOf(u)) == OverageFlow(b.LedgerOf(u))
         + if Foreign(op) || u != op.req.user || op.SetBalance? then 0
           else if op.Credit? && Wallet.JudgeCredit(op.req).Accept? then op.req.amount
           else if op.Debit? && Wallet.JudgeDebit(b, op.req).Accept? then -op.req.amount
           else 0
  {
    var l' := Wallet.Next(b, op).LedgerOf(u);
    if l' != b.LedgerOf(u) {
      assert |l'| > 0 && l'[..|l'| - 1] == b.LedgerOf(u);
      FlowAppend(b.LedgerOf(u), l'[|l'| - 1]);
      assert Wallet.ADJUST != Wallet.OVERAGE && Wallet.ADJUST != Wallet.REFUND;
    }
  }

  lemma ConservedStep(s: State, e: Step, u: string)
    requires Conserved(s, u)
    ensures Conserved(Next(s, e), u)
  {
    var s' := Next(s, e);
    if s' != s {
      match e
      case Begin(settings, p, it) =>
        PriceIsPositive(p, Weight(it.weight));
        SumAppend(s.calls, Call(Priced(p, it), Checked), InTransit(u));
        SumAppend(s.calls, Call(Priced(p, it), Checked), Unlogged(u));
      case Other(op) =>
        WalletStep(s.stores.book, op, u);
      case AddCharge(i, ok) => ConservedAddCharge(s, i, ok, u);
      case RecordEvent(i, ok) => ConservedRecordEvent(s, i, ok, u);
      case Debit(i) => ConservedDebit(s, i, u);
      case Refund(i) => ConservedRefund(s, i, u);
    }
  }

  /** A call's move keeps both equations when the stores move by the amounts it enters or leaves with. */
  lemma ConservedMove(s: State, s': State, i: nat, p: Phase, u: string)
    requires Conserved(s, u) && i < |s.calls| && s'.calls == s.calls[i := s.calls[i].(phase := p)]
    requires OverageFlow(s.stores.book.LedgerOf(u)) - OverageFlow(s'.stores.book.LedgerOf(u))
          == ChargeSum(s'.stores.Months(u)) - ChargeSum(s.stores.Months(u)) + Shift(InTransit(u), s.calls[i], p)
    requires ChargeSum(s'.stores.Months(u)) - ChargeSum(s.stores.Months(u))
          == EventSum(s'.stores.EventsOf(u)) - EventSum(s.stores.EventsOf(u)) + Shift(Unlogged(u), s.calls[i], p)
    ensures Conserved(s', u)
  {
    SumMove(s.calls, i, p, InTransit(u));
    SumMove(s.calls, i, p, Unlogged(u));
  }

  /** What a call's move to p adds to the selected prices. */
  function Shift(sel: Call -> bool, c: Call, p: Phase): int {
    (if sel(c.(phase := p)) then c.item.price else 0) - if sel(c) then c.item.price else 0
  }

  lemma DebitFlow(b: Wallet.Book, it: Item, u: string)
    ensures OverageFlow(Wallet.Next(b, Wallet.Debit(DebitRequest(it))).LedgerOf(u)) == OverageFlow(b.LedgerOf(u))
         - if u == it.user && Wallet.JudgeDebit(b, DebitRequest(it)).Accept? then it.price else 0
  {
    assert Wallet.OVERAGE != "";
    WalletStep(b, Wallet.Debit(DebitRequest(it)), u);
  }

  lemma RefundFlow(b: Wallet.Book, it: Item, u: string)
    requires 0 < it.price
    ensures OverageFlow(Wallet.Next(b, Wallet.Credit(RefundRequest(it))).LedgerOf(u)) == OverageFlow(b.LedgerOf(u))
         + if u == it.user then it.price else 0
  {
    assert Wallet.REFUND != "";
    WalletStep(b, Wallet.Credit(RefundRequest(it)), u);
  }

  /** A move that only the wallet sees. */
  lemma WalletMove(s: State, book: Wallet.Book, i: nat, p: Phase, u: string)
    requires Conserved(s, u) && i < |s.calls|
    requires Shift(Unlogged(u), s.calls[i], p) == 0
    requires OverageFlow(s.stores.book.LedgerOf(u)) - OverageFlow(book.LedgerOf(u))
          == Shift(InTransit(u), s.calls[i], p)
    ensures Conserved(Moved(s, s.stores.(book := book), i, p), u)
  {
    var s' := Moved(s, s.stores.(book := book), i, p);
    assert s'.stores.Months(u) == s.stores.Months(u) && s'.stores.EventsOf(u) == s.stores.EventsOf(u);
    ConservedMove(s, s', i, p, u);
  }

  lemma ConservedAccepted(s: State, i: nat, u: string)
    requires Conserved(s, u) && InPhase(s, i, Checked)
    requires Wallet.JudgeDebit(s.stores.book, DebitRequest(s.calls[i].item)).Accept?
    ensures Conserved(Next(s, Debit(i)), u)
  {
    var it := s.calls[i].item;
    DebitFlow(s.stores.book, it, u);
    WalletMove(s, Wallet.Next(s.stores.book, Wallet.Debit(DebitRequest(it))), i, Debited, u);
  }

  lemma ConservedDebit(s: State, i: nat, u: string)
    requires Conserved(s, u) && InPhase(s, i, Checked)
    ensures Conserved(Next(s, Debit(i)), u)
  {
    if Wallet.JudgeDebit(s.stores.book, DebitRequest(s.calls[i].item)).Accept? {
      ConservedAccepted(s, i, u);
    } else {
      WalletMove(s, s.stores.book, i, Rejected, u);
    }
  }

  lemma ConservedRefund(s: State, i: nat, u: string)
    requires Conserved(s, u) && InPhase(s, i, Failed)
    ensures Conserved(Next(s, Refund(i)), u)
  {
    var b, it := s.stores.book, s.calls[i].item;
    RefundFlow(b, it, u);
    WalletMove(s, Wallet.Next(b, Wallet.Credit(RefundRequest(it))), i, Compensated, u);
  }

  lemma WithChargeSum(s: Stores, it: Item, u: string)
    ensures ChargeSum(WithCharge(s, it).Months(u)) == ChargeSum(s.Months(u)) + if it.user == u then it.price else 0
  {
    ChargeSumUpdate(s.Months(it.user), it.month, Added(s.ChargeOf(it.user, it.month), it.planId, it.weight, it.price));
  }

  lemma WithEventSum(s: Stores, it: Item, u: string)
    ensures EventSum(WithEvent(s, it).EventsOf(u)) == EventSum(s.EventsOf(u)) + if it.user == u then it.price else 0
  {
    EventSumAppend(s.EventsOf(it.user), UsageEvent(s.nextEvent + 1, it));
  }

  lemma ConservedAddCharge(s: State, i: nat, ok: bool, u: string)
    requires Conserved(s, u) && InPhase(s, i, Debited)
    ensures Conserved(Next(s, AddCharge(i, ok)), u)
  {
    if ok {
      var it := s.calls[i].item;
      var stores := WithCharge(s.stores, it);
      WithChargeSum(s.stores, it, u);
      assert stores.EventsOf(u) == s.stores.EventsOf(u);
      ConservedMove(s, Moved(s, stores, i, Recorded), i, Recorded, u);
    } else {
      WalletMove(s, s.stores.book, i, Failed, u);
    }
  }

  lemma ConservedRecordEvent(s: State, i: nat, ok: bool, u: string)
    requires Conserved(s, u) && InPhase(s, i, Recorded)
    ensures Conserved(Next(s, RecordEvent(i, ok)), u)
  {
    if ok {
      var it := s.calls[i].item;
      var stores := WithEvent(s.stores, it);
      WithEventSum(s.stores, it, u);
      assert stores.Months(u) == s.stores.Months(u);
      ConservedMove(s, Moved(s, stores, i, Logged), i, Logged, u);
    } else {
      WalletMove(s, s.stores.book, i, Lost, u);
    }
  }

  /** In every interleaving, for every user: overage debits less refunds equal recorded charges plus the
      prices of calls between debit and record, and recorded charges equal the events' prices plus the
      prices of calls not logged. */
  lemma {:induction false} EveryInterleavingConserves(es: seq<Step>, u: string)
    ensures Conserved(Run(START, es), u)
  {
    if es != [] {
      EveryInterleavingConserves(es[..|es| - 1], u);
      ConservedStep(Run(START, es[..|es| - 1]), es[|es| - 1], u);
    }
  }

  // ---- rounding ----

  /** Every call begun for u in m was priced at p per thousand. */
  ghost predicate ConstantPrice(es: seq<Step>, u: string, m: string, p: int) {
    forall e <- es :: e.Begin? && e.item.user == u && e.item.month == m ==> e.pricePer1k == p
  }

  ghost predicate Rounded(c: Charge, p: int) {
    0 <= c.count && p * c.weightSum <= 1000 * c.amountCents <= p * c.weightSum + 999 * c.count
  }

  ghost predicate PricedAt(s: State, u: string, m: string, p: int) {
    && Rounded(s.stores.ChargeOf(u, m), p)
    && forall i :: 0 <= i < |s.calls| && s.calls[i].item.user == u && s.calls[i].item.month == m ==>
         p * s.calls[i].item.weight <= 1000 * s.calls[i].item.price <= p * s.calls[i].item.weight + 999
  }

  lemma AddedIsRounded(c: Charge, planId: string, weight: int, price: int, p: int)
    requires Rounded(c, p) && p * weight <= 1000 * price <= p * weight + 999
    ensures Rounded(Added(c, planId, weight, price), p)
  {
    assert p * (c.weightSum + weight) == p * c.weightSum + p * weight;
  }

  lemma PricedAtStep(s: State, e: Step, u: string, m: string, p: int)
    requires PricedAt(s, u, m, p)
    requires e.Begin? && e.item.user == u && e.item.month == m ==> e.pricePer1k == p
    ensures PricedAt(Next(s, e), u, m, p)
  {
    match e
    case Begin(_, q, it) =>
      if 0 < q {
        PriceIsPositive(q, Weight(it.weight));
      }
    case AddCharge(i, ok) =>
      if InPhase(s, i, Debited) && s.calls[i].item.user == u && s.calls[i].item.month == m {
        var it := s.calls[i].item;
        AddedIsRounded(s.stores.ChargeOf(u, m), it.planId, it.weight, it.price, p);
      }
    case _ =>
  }

  /** One recorded call: one more in the count, its weight and price in the sums, its plan if it names one; every
      other month and user as before. */
  lemma RecordingChanges(s: Stores, it: Item, u: string, m: string)
    ensures var c, c' := s.ChargeOf(u, m), WithCharge(s, it).ChargeOf(u, m);
            if u == it.user && m == it.month then
              && c'.count - c.count == 1 && c'.weightSum - c.weightSum == it.weight
              && c'.amountCents - c.amountCents == it.price
              && c'.planId == if it.planId == "" then c.planId else it.planId
            else c' == c
  {}

  /** The wallet entries of a call: the price out for its source, and back with neither source nor order. */
  lemma EntriesOfCall(b: Wallet.Book, it: Item)
    requires 0 < it.price
    ensures it.price <= b.Balance(it.user) ==>
              var l := Wallet.Next(b, Wallet.Debit(DebitRequest(it))).LedgerOf(it.user);
              l != [] && var e := l[|l| - 1];
              e.user == it.user && e.amount == -it.price && e.kind == "overage"
              && e.orderId == "" && e.reference == it.source
    ensures var l := Wallet.Next(b, Wallet.Credit(RefundRequest(it))).LedgerOf(it.user);
            l != [] && var e := l[|l| - 1];
            e.user == it.user && e.amount == it.price && e.kind == "refund" && e.orderId == "" && e.reference == ""
  {
    assert Wallet.OVERAGE != "" && Wallet.REFUND != "";
  }

  lemma {:induction false} ChargesAreRounded(es: seq<Step>, u: string, m: string, p: int)
    requires ConstantPrice(es, u, m, p)
    ensures PricedAt(Run(START, es), u, m, p)
  {
    if es != [] {
      var front, e := es[..|es| - 1], es[|es| - 1];
      assert e in es && forall x <- front :: x in es;
      ChargesAreRounded(front, u, m, p);
      PricedAtStep(Run(START, front), e, u, m, p);
    }
  }

  function Ceiling(n: int): int { (n + 999) / 1000 }

  /** Billing a month's requests one by one at a constant price costs no less than billing their total
      weight at once, and at most one cent less than their number more. */
  lemma SeparateBillingCost(es: seq<Step>, u: string, m: string, p: int)
    requires ConstantPrice(es, u, m, p)
    ensures var c := Run(START, es).stores.ChargeOf(u, m);
            Rounded(c, p) && Ceiling(p * c.weightSum) <= c.amountCents
            && (0 < c.count ==> c.amountCents <= Ceiling(p * c.weightSum) + c.count - 1)
  {
    ChargesAreRounded(es, u, m, p);
  }
}
