/** gateway/internal/gateway/extra_usage_handler.go, CheckAndCharge: a run from the start that ends exactly at the
    bound module Overage proves on passing the cap. */
module Overshoot {
  import opened Overage
  import Wallet

  // ---- calls in flight over part of a run ----

  lemma {:induction false} RunConcat(s: State, a: seq<Step>, b: seq<Step>)
    ensures Run(s, a + b) == Run(Run(s, a), b)
  {
    if b == [] {
      assert a + b == a;
    } else {
      RunConcat(s, a, b[..|b| - 1]);
      assert (a + b)[..|a + b| - 1] == a + b[..|b| - 1];
    }
  }

  lemma InFlightConcat(s: State, a: seq<Step>, b: seq<Step>, u: string, m: string, k: int)
    requires InFlightFrom(s, a, u, m, k) && InFlightFrom(Run(s, a), b, u, m, k)
    ensures InFlightFrom(s, a + b, u, m, k)
  {
    forall n | 0 <= n <= |a + b|
      ensures Count(Run(s, (a + b)[..n]).calls, Pending(u, m)) <= k
    {
      if n <= |a| {
        assert (a + b)[..n] == a[..n];
      } else {
        assert (a + b)[..n] == a + b[..n - |a|];
        RunConcat(s, a, b[..n - |a|]);
      }
    }
  }

  function Starts(es: seq<Step>): nat {
    if es == [] then 0 else Starts(es[..|es| - 1]) + if es[|es| - 1].Begin? then 1 else 0
  }

  lemma {:induction false} StartsOfPrefix(es: seq<Step>, n: nat)
    requires n <= |es|
    ensures Starts(es[..n]) <= Starts(es)
  {
    if n < |es| {
      StartsOfPrefix(es[..|es| - 1], n);
      assert es[..|es| - 1][..n] == es[..n];
    } else {
      assert es[..n] == es;
    }
  }

  /** Only a call that begins raises the number in flight. */
  lemma StepInFlight(s: State, e: Step, u: string, m: string)
    ensures Count(Next(s, e).calls, Pending(u, m)) <= Count(s.calls, Pending(u, m)) + if e.Begin? then 1 else 0
  {
    if Next(s, e).calls != s.calls {
      if e.Begin? {
        SumAppend(s.calls, Call(Priced(e.pricePer1k, e.item), Checked), Pending(u, m));
      } else {
        var i := e.call;
        SumMove(s.calls, i, Next(s, e).calls[i].phase, Pending(u, m));
      }
    }
  }

  lemma {:induction false} RunInFlight(s: State, es: seq<Step>, u: string, m: string)
    ensures Count(Run(s, es).calls, Pending(u, m)) <= Count(s.calls, Pending(u, m)) + Starts(es)
  {
    if es != [] {
      RunInFlight(s, es[..|es| - 1], u, m);
      StepInFlight(Run(s, es[..|es| - 1]), es[|es| - 1], u, m);
    }
  }

  lemma InFlightByStarts(s: State, es: seq<Step>, u: string, m: string, k: int)
    requires Count(s.calls, Pending(u, m)) + Starts(es) <= k
    ensures InFlightFrom(s, es, u, m, k)
  {
    forall n | 0 <= n <= |es|
      ensures Count(Run(s, es[..n]).calls, Pending(u, m)) <= k
    {
      RunInFlight(s, es[..n], u, m);
      StartsOfPrefix(es, n);
    }
  }

  // ---- the run ----

  // At a thousand cents per thousand a call costs its weight.
  const RATE := 1000

  function Weighing(u: string, m: string, w: int): Item { Item(u, m, "", "", w, 0) }

  function Costing(u: string, m: string, w: int): Item { Item(u, m, "", "", w, w) }

  lemma CostsItsWeight(u: string, m: string, w: int)
    requires 0 < w
    ensures Priced(RATE, Weighing(u, m, w)) == Costing(u, m, w)
  {}

  /** A call from begin to record, the i-th of its run. */
  function OneCall(u: string, m: string, cap: int, i: nat, w: int): seq<Step> {
    [Begin(Settings(true, cap), RATE, Weighing(u, m, w)), Debit(i), AddCharge(i, true)]
  }

  /** n calls of one cent each, one after the other. */
  function Serial(u: string, m: string, cap: int, n: nat): seq<Step> {
    if n == 0 then [] else Serial(u, m, cap, n - 1) + OneCall(u, m, cap, n - 1, 1)
  }

  /** n calls of weight w begun at once. */
  function Begins(u: string, m: string, cap: int, w: int, n: nat): seq<Step> {
    if n == 0 then [] else Begins(u, m, cap, w, n - 1) + [Begin(Settings(true, cap), RATE, Weighing(u, m, w))]
  }

  /** Then each of the n calls from i on debited and recorded. */
  function Completions(i: nat, n: nat): seq<Step> {
    if n == 0 then [] else Completions(i, n - 1) + [Debit(i + n - 1), AddCharge(i + n - 1, true)]
  }

  /** Fill the wallet, bring the month one price short of the cap, then let k calls read before any records. */
  function Overshoot(u: string, m: string, cap: int, w: int, k: nat): seq<Step>
    requires 0 < w <= cap
  {
    Fill(u, cap - w + k * w) + Serial(u, m, cap, cap - w) + (Begins(u, m, cap, w, k) + Completions(cap - w, k))
  }

  function Fill(u: string, cents: int): seq<Step> {
    [Other(Wallet.Credit(Wallet.Request(u, cents, Wallet.TOPUP, "", "", "")))]
  }

  lemma {:induction false} CompletionsStartNothing(i: nat, n: nat)
    ensures forall e <- Completions(i, n) :: !e.Begin?
    ensures Starts(Completions(i, n)) == 0
  {
    if n > 0 {
      CompletionsStartNothing(i, n - 1);
    }
    NoStarts(Completions(i, n));
  }

  lemma RunTwo(s: State, a: Step, b: Step)
    ensures Run(s, [a, b]) == Next(Next(s, a), b)
  {
    assert [a, b][..1] == [a] && [a][..0] == [];
    assert Run(s, [a]) == Next(Run(s, [a][..0]), a);
  }

  lemma {:induction false} AllBegin(s: State, u: string, m: string, cap: int, w: int, n: nat)
    requires 0 < w && !OverCap(s.stores, cap, Costing(u, m, w))
    ensures Run(s, Begins(u, m, cap, w, n)) == State(s.stores, s.calls + seq(n, _ => Call(Costing(u, m, w), Checked)))
    ensures Starts(Begins(u, m, cap, w, n)) == n
  {
    if n > 0 {
      AllBegin(s, u, m, cap, w, n - 1);
      CostsItsWeight(u, m, w);
      var es := Begins(u, m, cap, w, n);
      assert es[..|es| - 1] == Begins(u, m, cap, w, n - 1);
    } else {
      assert s.calls + seq(n, _ => Call(Costing(u, m, w), Checked)) == s.calls;
    }
  }

  lemma OneCompletes(s: State, i: nat, it: Item)
    requires i < |s.calls| && s.calls[i] == Call(it, Checked) && 0 < it.price <= s.stores.book.Balance(it.user)
    ensures var s' := Run(s, [Debit(i), AddCharge(i, true)]);
            && MonthTotal(s', it.user, it.month) == MonthTotal(s, it.user, it.month) + it.price
            && s'.stores.book.Balance(it.user) == s.stores.book.Balance(it.user) - it.price
            && s'.calls == s.calls[i := Call(it, Recorded)]
  {
    RunTwo(s, Debit(i), AddCharge(i, true));
    var mid := Next(s, Debit(i));
    assert Wallet.OVERAGE != "";
    assert mid.calls[i] == Call(it, Debited);
  }

  lemma {:induction false} AllComplete(s: State, it: Item, i: nat, n: nat)
    requires i + n <= |s.calls| && (forall j :: i <= j < i + n ==> s.calls[j] == Call(it, Checked))
    requires 0 < it.price && n * it.price <= s.stores.book.Balance(it.user)
    ensures var s' := Run(s, Completions(i, n));
            && MonthTotal(s', it.user, it.month) == MonthTotal(s, it.user, it.month) + n * it.price
            && s'.stores.book.Balance(it.user) == s.stores.book.Balance(it.user) - n * it.price
            && |s'.calls| == |s.calls| && s'.calls[i + n..] == s.calls[i + n..]
  {
    if n > 0 {
      assert n * it.price == (n - 1) * it.price + it.price;
      AllComplete(s, it, i, n - 1);
      var before, last := Run(s, Completions(i, n - 1)), [Debit(i + n - 1), AddCharge(i + n - 1, true)];
      assert before.calls[i + n - 1] == before.calls[i + n - 1..][0] == s.calls[i + n - 1..][0];
      OneCompletes(before, i + n - 1, it);
      RunConcat(s, Completions(i, n - 1), last);
      var after := Run(before, last);
      assert after.calls[i + n..] == before.calls[i + n - 1..][1..] == s.calls[i + n - 1..][1..] == s.calls[i + n..];
    }
  }

  lemma {:induction false} NoStarts(es: seq<Step>)
    requires forall e <- es :: !e.Begin?
    ensures Starts(es) == 0
  {
    if es != [] {
      assert es[|es| - 1] in es;
      NoStarts(es[..|es| - 1]);
    }
  }

  lemma {:induction false} StartsConcat(a: seq<Step>, b: seq<Step>)
    ensures Starts(a + b) == Starts(a) + Starts(b)
  {
    if b == [] {
      assert a + b == a;
    } else {
      StartsConcat(a, b[..|b| - 1]);
      assert (a + b)[..|a + b| - 1] == a + b[..|b| - 1];
    }
  }

  lemma OneCallIs(u: string, m: string, cap: int, i: nat, w: int)
    ensures OneCall(u, m, cap, i, w) == Begins(u, m, cap, w, 1) + [Debit(i), AddCharge(i, true)]
    ensures Starts(OneCall(u, m, cap, i, w)) == 1
  {
    var rest: seq<Step> := [Debit(i), AddCharge(i, true)];
    assert Begins(u, m, cap, w, 0) == [];
    var first := Begins(u, m, cap, w, 1);
    assert first == [OneCall(u, m, cap, i, w)[0]] && first[..0] == [];
    NoStarts(rest);
    StartsConcat(first, rest);
    assert Starts(first) == 1;
  }

  /** A call run through alone adds its weight to the month and is in flight alone. */
  lemma OneCallRuns(s: State, u: string, m: string, cap: int, w: int)
    requires 0 < w <= s.stores.book.Balance(u) && !OverCap(s.stores, cap, Costing(u, m, w))
    requires Count(s.calls, Pending(u, m)) == 0
    ensures var s' := Run(s, OneCall(u, m, cap, |s.calls|, w));
            && MonthTotal(s', u, m) == MonthTotal(s, u, m) + w
            && s'.stores.book.Balance(u) == s.stores.book.Balance(u) - w
            && |s'.calls| == |s.calls| + 1 && Count(s'.calls, Pending(u, m)) == 0
    ensures InFlightFrom(s, OneCall(u, m, cap, |s.calls|, w), u, m, 1)
  {
    var i, it := |s.calls|, Costing(u, m, w);
    OneCallIs(u, m, cap, i, w);
    InFlightByStarts(s, OneCall(u, m, cap, i, w), u, m, 1);
    AllBegin(s, u, m, cap, w, 1);
    RunConcat(s, Begins(u, m, cap, w, 1), [Debit(i), AddCharge(i, true)]);
    var begun := State(s.stores, s.calls + [Call(it, Checked)]);
    assert Run(s, Begins(u, m, cap, w, 1)) == begun;
    OneCompletes(begun, i, it);
    assert begun.calls[i := Call(it, Recorded)] == s.calls + [Call(it, Recorded)];
    SumAppend(s.calls, Call(it, Recorded), Pending(u, m));
  }

  lemma {:induction false} SerialRuns(s: State, u: string, m: string, cap: int, n: nat)
    requires n <= cap && n <= s.stores.book.Balance(u) && MonthTotal(s, u, m) == 0 && s.calls == []
    ensures var s' := Run(s, Serial(u, m, cap, n));
            && MonthTotal(s', u, m) == n && s'.stores.book.Balance(u) == s.stores.book.Balance(u) - n
            && |s'.calls| == n && Count(s'.calls, Pending(u, m)) == 0
    ensures InFlightFrom(s, Serial(u, m, cap, n), u, m, 1)
  {
    if n > 0 {
      SerialRuns(s, u, m, cap, n - 1);
      var front, last := Serial(u, m, cap, n - 1), OneCall(u, m, cap, n - 1, 1);
      OneCallRuns(Run(s, front), u, m, cap, 1);
      RunConcat(s, front, last);
      InFlightConcat(s, front, last, u, m, 1);
    }
  }

  /** k calls that all read before any records add all their prices, from any state with room for one. */
  lemma TogetherRuns(s: State, u: string, m: string, cap: int, w: int, k: nat)
    requires 0 < w && k * w <= s.stores.book.Balance(u) && !OverCap(s.stores, cap, Costing(u, m, w))
    requires Count(s.calls, Pending(u, m)) == 0
    ensures var es := Begins(u, m, cap, w, k) + Completions(|s.calls|, k);
            MonthTotal(Run(s, es), u, m) == MonthTotal(s, u, m) + k * w && InFlightFrom(s, es, u, m, k)
  {
    var es := Begins(u, m, cap, w, k) + Completions(|s.calls|, k);
    AllBegin(s, u, m, cap, w, k);
    RunConcat(s, Begins(u, m, cap, w, k), Completions(|s.calls|, k));
    AllComplete(Run(s, Begins(u, m, cap, w, k)), Costing(u, m, w), |s.calls|, k);
    CompletionsStartNothing(|s.calls|, k);
    StartsConcat(Begins(u, m, cap, w, k), Completions(|s.calls|, k));
    InFlightByStarts(s, es, u, m, k);
  }

  lemma {:induction false} SerialTariff(u: string, m: string, cap: int, n: nat)
    ensures forall e <- Serial(u, m, cap, n) :: e.Begin? ==> e == OneCall(u, m, cap, 0, 1)[0]
  {
    if n > 0 {
      SerialTariff(u, m, cap, n - 1);
    }
  }

  lemma {:induction false} TogetherTariff(u: string, m: string, cap: int, w: int, i: nat, n: nat)
    ensures forall e <- Begins(u, m, cap, w, n) + Completions(i, n) :: e.Begin? ==> e == OneCall(u, m, cap, 0, w)[0]
  {
    if n > 0 {
      TogetherTariff(u, m, cap, w, i, n - 1);
    }
  }

  lemma Filled(u: string, cents: int, m: string)
    requires 0 < cents
    ensures var s := Run(START, Fill(u, cents));
            && s.calls == [] && MonthTotal(s, u, m) == 0 && s.stores.book.Balance(u) == cents
            && InFlightFrom(START, Fill(u, cents), u, m, 0)
  {
    var fill := Fill(u, cents);
    assert Wallet.TOPUP != "" && Wallet.TOPUP != Wallet.OVERAGE && Wallet.TOPUP != Wallet.REFUND;
    assert fill[..0] == [];
    assert Run(START, fill) == Next(Run(START, fill[..0]), fill[0]);
    InFlightByStarts(START, fill, u, m, 0);
  }

  lemma OvershootTariff(u: string, m: string, cap: int, w: int, maxPrice: int, k: nat)
    requires 0 < w <= cap && w <= maxPrice
    ensures var es := Overshoot(u, m, cap, w, k);
            Tariff(es, u, m, cap, maxPrice) && ConstantPrice(es, u, m, RATE)
  {
    SerialTariff(u, m, cap, cap - w);
    TogetherTariff(u, m, cap, w, cap - w, k);
    CostsItsWeight(u, m, 1);
    CostsItsWeight(u, m, w);
  }

  lemma OvershootRuns(u: string, m: string, cap: int, w: int, k: nat)
    requires 0 < w <= cap && 1 <= k
    ensures var es := Overshoot(u, m, cap, w, k);
            AtMostInFlight(es, u, m, k) && MonthTotal(Run(START, es), u, m) == cap - w + k * w
  {
    var fill := Fill(u, cap - w + k * w);
    var serial, together := Serial(u, m, cap, cap - w), Begins(u, m, cap, w, k) + Completions(cap - w, k);
    Filled(u, cap - w + k * w, m);
    SerialRuns(Run(START, fill), u, m, cap, cap - w);
    RunConcat(START, fill, serial);
    InFlightConcat(START, fill, serial, u, m, k);
    TogetherRuns(Run(START, fill + serial), u, m, cap, w, k);
    RunConcat(START, fill + serial, together);
    InFlightConcat(START, fill + serial, together, u, m, k);
  }

  /** For every k, cap and highest price, a run from the start, within them and at one rate for all its calls,
      ends exactly at the bound. */
  lemma OvershootIsAttained(u: string, m: string, cap: int, maxPrice: int, k: nat)
    requires 0 < cap && 1 <= maxPrice && 1 <= k
    ensures var es := Overshoot(u, m, cap, Min(maxPrice, cap), k);
            && Tariff(es, u, m, cap, maxPrice) && AtMostInFlight(es, u, m, k) && ConstantPrice(es, u, m, RATE)
            && MonthTotal(Run(START, es), u, m) == cap + (k - 1) * Min(maxPrice, cap)
  {
    var w := Min(maxPrice, cap);
    OvershootTariff(u, m, cap, w, maxPrice, k);
    OvershootRuns(u, m, cap, w, k);
    assert k * w - w == (k - 1) * w;
  }
}
