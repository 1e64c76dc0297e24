/** gateway/internal/gateway/balance_handler.go, createTopup, with the conversion, the payment request of
    gateway/internal/billing/payment/ldc.go, the notification and the credit that follow: a top-up end to end. */
module Topup {
  import opened Common
  import Callback
  import Currency
  import Orders
  import Wallet

  /** What the user's cents are in yuan. */
  function Yuan(cents: int): real { cents as real / 100.0 }

  /** The pending order, its money fields as ApplyCurrency left them. */
  function TopupOrder(id: string, user: string, provider: string, key: string, m: Currency.Money): Orders.Order {
    Orders.Order(id, user, "topup", m.amount, m.currency, Orders.Pending, Orders.TOPUP, provider, "", key, None, None,
                 m.originalAmount, m.originalCurrency, m.fxRate)
  }

  /** The fields before any conversion. */
  function Asked(cents: int): Currency.Money { Currency.Money(Yuan(cents), "CNY", 0.0, "", 0.0) }

  /** The fields the order is created with: converted when the channel settles in another currency. */
  function Settled(c: Currency.Config, divide: Currency.Divide, cents: int, target: string)
    : (Currency.Money, Option<Currency.Error>) {
    if target == "" then (Asked(cents), None) else Currency.Applied(c, divide, Asked(cents), target)
  }

  lemma YuanAndBack(cents: int)
    requires 0 < cents
    ensures Callback.Truncate(Yuan(cents) * 100.0) == cents && Yuan(cents) != 0.0
  {
    assert Yuan(cents) * 100.0 == cents as real;
  }

  /** However it was converted, and however roughly, the order is worth the cents asked for. */
  lemma WorthWhatWasAsked(c: Currency.Config, divide: Currency.Divide, cents: int, target: string,
                          id: string, user: string, provider: string, key: string)
    requires 0 < cents
    ensures var (m, error) := Settled(c, divide, cents, target);
            error.None? ==> Callback.Cents(TopupOrder(id, user, provider, key, m)) == cents
  {
    YuanAndBack(cents);
  }

  /** A notice for exactly the settled amount adds the cents asked for to the user's balance and completes the order. */
  lemma PaidAsAsked(s: Callback.State, c: Currency.Config, divide: Currency.Divide, cents: int, target: string,
                    id: string, user: string, provider: string, key: string, now: int)
    requires 0 < cents && Settled(c, divide, cents, target).1.None?
    ensures var o := TopupOrder(id, user, provider, key, Settled(c, divide, cents, target).0);
            var s' := Callback.Next(Callback.Next(s, Callback.Create(o)),
                                    Callback.Callback(Callback.Notice(true, id, o.amount), now));
            && s'.book.Balance(user) == s.book.Balance(user) + cents
            && s'.store[id] == o.(status := Orders.Completed, paidAt := Some(now))
  {
    WorthWhatWasAsked(c, divide, cents, target, id, user, provider, key);
    var o := TopupOrder(id, user, provider, key, Settled(c, divide, cents, target).0);
    var created := Callback.Next(s, Callback.Create(o));
    Callback.AcceptedRun(created, Callback.Notice(true, id, o.amount), now);
    assert Wallet.TOPUP != "";
  }

  // ---- what the gateway is asked for ----

  /** Rounded to two decimals, half away from zero. */
  function Fixed2(x: real): real {
    if x < 0.0 then -((-x * 100.0 + 0.5).Floor as real / 100.0) else (x * 100.0 + 0.5).Floor as real / 100.0
  }

  predicate IsWholeCents(x: real) { x * 100.0 == (x * 100.0).Floor as real }

  lemma HundredthIs(n: int, x: real)
    ensures n as real / 100.0 == x <==> n as real == x * 100.0
  {}

  lemma RoundedWholeIff(z: real)
    ensures (z + 0.5).Floor as real == z <==> z == z.Floor as real
  {
    var m, n := (z + 0.5).Floor, z.Floor;
    if z == n as real {
      FloorIs(z + 0.5, n);
    } else if z == m as real {
      FloorIs(z, m);
    }
  }

  lemma FloorIs(z: real, n: int)
    requires n as real <= z < n as real + 1.0
    ensures z.Floor == n
  {
    assert z.Floor as real <= z < z.Floor as real + 1.0;
  }

  lemma Fixed2KeepsIff(x: real)
    ensures Fixed2(x) == x <==> IsWholeCents(x)
  {
    var y := if x < 0.0 then -x else x;
    HundredthIs((y * 100.0 + 0.5).Floor, y);
    RoundedWholeIff(y * 100.0);
    if x < 0.0 {
      assert x * 100.0 == -(y * 100.0);
      NegatedWhole(y * 100.0);
    }
  }

  lemma NegatedWhole(z: real)
    ensures z == z.Floor as real <==> -z == (-z).Floor as real
  {
    if z == z.Floor as real {
      assert -z == (-(z.Floor)) as real;
    }
    if -z == (-z).Floor as real {
      assert z == (-((-z).Floor)) as real;
    }
  }

  /** The nearest whole number of cents, half a cent going away from zero. */
  lemma Fixed2Is(x: real)
    ensures Currency.Abs(Fixed2(x) - x) <= 0.005 && IsWholeCents(Fixed2(x))
    ensures Currency.Abs(Fixed2(x) - x) == 0.005 ==> Currency.Abs(x) < Currency.Abs(Fixed2(x))
  {
    var y := if x < 0.0 then -x else x;
    var n := (y * 100.0 + 0.5).Floor;
    var z := n as real / 100.0;
    assert z * 100.0 == n as real;
    FloorIs(n as real, n);
    FloorIs((-n) as real, -n);
    assert Fixed2(x) * 100.0 == if x < 0.0 then (-n) as real else n as real;
    assert n as real <= y * 100.0 + 0.5 < n as real + 1.0;
  }

  /** The order created, its payment requested to two decimals unless the amount is zero, the payment started, and
      the requested amount notified. */
  function Delivered(s: Callback.State, o: Orders.Order, now: int): Callback.State {
    var created := Callback.Next(s, Callback.Create(o));
    if o.amount == 0.0 then created
    else
      var started := Callback.Next(created, Callback.Status(o.id, Orders.PayStart, now));
      Callback.Next(started, Callback.Callback(Callback.Notice(true, o.id, Fixed2(o.amount)), now))
  }

  /** The user gets exactly the cents asked for iff the settled amount is a whole number of cents other than
      zero; otherwise the wallet is as it was, and the order still awaits its payment. */
  lemma CreditedIffWholeCents(s: Callback.State, c: Currency.Config, divide: Currency.Divide,
                              cents: int, target: string,
                              id: string, user: string, provider: string, key: string, now: int)
    requires 0 < cents && Settled(c, divide, cents, target).1.None?
    ensures var o := TopupOrder(id, user, provider, key, Settled(c, divide, cents, target).0);
            var s' := Delivered(s, o, now);
            && (s'.book.Balance(user) == s.book.Balance(user) + cents <==> o.amount != 0.0 && IsWholeCents(o.amount))
            && (s'.book.Balance(user) == s.book.Balance(user) + cents ==>
                  s'.store[id] == o.(status := Orders.Completed, paidAt := Some(now)))
            && (s'.book.Balance(user) != s.book.Balance(user) + cents ==>
                  && s'.book == s.book
                  && s'.store[id] == o.(status := if o.amount == 0.0 then Orders.Pending else Orders.Paying))
  {
    WorthWhatWasAsked(c, divide, cents, target, id, user, provider, key);
    var o := TopupOrder(id, user, provider, key, Settled(c, divide, cents, target).0);
    Fixed2KeepsIff(o.amount);
    var created := Callback.Next(s, Callback.Create(o));
    var started := Callback.Next(created, Callback.Status(id, Orders.PayStart, now));
    assert started.store[id] == o.(status := Orders.Paying) && started.book == s.book;
    var n := Callback.Notice(true, id, Fixed2(o.amount));
    if Fixed2(o.amount) == o.amount {
      Callback.AcceptedRun(started, n, now);
      assert Wallet.TOPUP != "";
    } else {
      assert !Callback.Accepts(started.store, n);
    }
  }

  /** Without conversion it always is. */
  lemma UnconvertedIsCredited(s: Callback.State, c: Currency.Config, divide: Currency.Divide,
                              cents: int, target: string,
                              id: string, user: string, provider: string, key: string, now: int)
    requires 0 < cents && Currency.Folded(target) in {"", "CNY"}
    ensures Settled(c, divide, cents, target).1.None?
    ensures var o := TopupOrder(id, user, provider, key, Settled(c, divide, cents, target).0);
            Delivered(s, o, now).book.Balance(user) == s.book.Balance(user) + cents
  {
    YuanAndBack(cents);
    CreditedIffWholeCents(s, c, divide, cents, target, id, user, provider, key, now);
  }

  const THREE_TO_ONE := Currency.Config("CNY", map["LDC" := 3.0])

  lemma SettlesAtAThird(divide: Currency.Divide)
    ensures Settled(THREE_TO_ONE, divide, 100, "LDC").1.None?
    ensures Settled(THREE_TO_ONE, divide, 100, "LDC").0.amount == divide(1.0, 3.0)
  {
    assert Currency.Folded("LDC") == "LDC" && Currency.Folded("CNY") == "CNY";
  }

  lemma AThirdIsNotWhole(x: real)
    requires Currency.Abs(x - 1.0 / 3.0) <= 0.0001
    ensures x != 0.0 && !IsWholeCents(x)
  {
    assert 33.0 < x * 100.0 < 34.0;
  }

  /** At three yuan a unit one yuan settles at a third of a unit: the gateway asks for 0.33, and what it then notifies
      is refused. */
  lemma ThirdOfAUnitIsLost(s: Callback.State, divide: Currency.Divide, e: real,
                           id: string, user: string, provider: string, key: string, now: int)
    requires Currency.Accurate(divide, e) && e <= 0.0001
    ensures var (m, error) := Settled(THREE_TO_ONE, divide, 100, "LDC");
            error.None? && m.amount != 0.0 && Delivered(s, TopupOrder(id, user, provider, key, m), now).book == s.book
  {
    SettlesAtAThird(divide);
    assert Currency.Abs(divide(1.0, 3.0) - Currency.Quotient(1.0, 3.0)) <= e;
    AThirdIsNotWhole(divide(1.0, 3.0));
    CreditedIffWholeCents(s, THREE_TO_ONE, divide, 100, "LDC", id, user, provider, key, now);
  }
}
