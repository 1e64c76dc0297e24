/** gateway/internal/gateway/extra_usage_handler.go and extra_usage_repo.go: the in-memory store and one
    uninterrupted CheckAndCharge, tied to the interleaved steps of module Overage. */
module OverageService {
  import opened Overage
  import Wallet

  datatype Reason = Charged | Disabled | NotPayAsYouGo | CapExceeded | InsufficientBalance

  datatype Decision =
    | Decision(allow: bool, priceCents: int, usedCents: int, capCents: int, balanceAfter: int, reason: Reason)
    | StoreError

  /** The five steps of one call with nothing in between; steps that do not apply change nothing. */
  function Uninterrupted(s: Stores, settings: Settings, pricePer1k: int, it: Item, addOk: bool): Stores {
    var begun := Next(State(s, []), Begin(settings, pricePer1k, it));
    var debited := Next(begun, Step.Debit(0));
    var recorded := Next(debited, AddCharge(0, addOk));
    var refunded := Next(recorded, Refund(0));
    Next(refunded, RecordEvent(0, true)).stores
  }

  predicate Rejects(s: Stores, settings: Settings, pricePer1k: int, it: Item) {
    !settings.enabled || pricePer1k <= 0 || OverCap(s, settings.capCents, Priced(pricePer1k, it))
  }

  /** Why a call is turned away before its debit, the first ground first; Charged when it is not. */
  function Ground(s: Stores, settings: Settings, pricePer1k: int, it: Item): (r: Reason)
    ensures r == Charged <==> !Rejects(s, settings, pricePer1k, it)
  {
    if !settings.enabled then Disabled
    else if pricePer1k <= 0 then NotPayAsYouGo
    else if OverCap(s, settings.capCents, Priced(pricePer1k, it)) then CapExceeded
    else Charged
  }

  /** What the steps after the cap check leave, by whether the debit and the record succeed. */
  function Settled(s: Stores, item: Item, addOk: bool): Stores {
    var paid := s.(book := Wallet.Next(s.book, Wallet.Debit(DebitRequest(item))));
    if s.book.Balance(item.user) < item.price then s
    else if addOk then WithEvent(WithCharge(paid, item), item)
    else s.(book := Wallet.Next(paid.book, Wallet.Credit(RefundRequest(item))))
  }

  /** One call run alone is one pass through the interleaved machine. */
  lemma UninterruptedIs(s: Stores, settings: Settings, pricePer1k: int, it: Item, addOk: bool)
    ensures Uninterrupted(s, settings, pricePer1k, it, addOk)
         == if Rejects(s, settings, pricePer1k, it) then s else Settled(s, Priced(pricePer1k, it), addOk)
  {
    if !Rejects(s, settings, pricePer1k, it) {
      PriceIsPositive(pricePer1k, Weight(it.weight));
      assert Wallet.OVERAGE != "";
      var begun := Next(State(s, []), Begin(settings, pricePer1k, it));
      assert begun.calls == [Call(Priced(pricePer1k, it), Checked)];
    }
  }

  /** Wallet and charge move together by the price, or not at all. */
  lemma SettledEffect(s: Stores, item: Item, addOk: bool)
    requires 0 < item.price
    ensures var s', done := Settled(s, item, addOk), addOk && item.price <= s.book.Balance(item.user);
            && s'.ChargeOf(item.user, item.month).amountCents
                 == s.ChargeOf(item.user, item.month).amountCents + (if done then item.price else 0)
            && s'.book.Balance(item.user) == s.book.Balance(item.user) - if done then item.price else 0
  {
    assert Wallet.OVERAGE != "" && Wallet.REFUND != "";
  }

  class MemExtraUsageRepo {
    var settings: map<string, Settings>
    var charges: map<string, map<string, Charge>>
    var events: map<string, seq<UsageEvent>>
    var nextID: int

    ghost function View(book: Wallet.Book): Stores
      reads this
    {
      Stores(book, charges, events, nextID)
    }

    constructor ()
      ensures View(Wallet.EMPTY) == START.stores && settings == map[]
    {
      settings, charges, events, nextID := map[], map[], map[], 0;
    }

    function GetSettings(user: string): (s: Settings)
      reads this
      ensures user in settings ==> s == settings[user]
      ensures user !in settings ==> !s.enabled && s.capCents == 0
    {
      if user in settings then settings[user] else Settings(false, 0)
    }

    method UpsertSettings(user: string, s: Settings)
      modifies this`settings
      ensures GetSettings(user) == s && forall u :: u != user ==> GetSettings(u) == old(GetSettings(u))
    {
      settings := settings[user := s];
    }

    method GetCharge(user: string, month: string) returns (c: Charge)
      ensures c == View(Wallet.EMPTY).ChargeOf(user, month)
    {
      if user in charges && month in charges[user] {
        return charges[user][month];
      }
      return Charge("", 0, 0, 0);
    }

    method AddCharge(it: Item) returns (c: Charge)
      modifies this`charges
      ensures forall b :: View(b) == WithCharge(old(View(b)), it)
      ensures c == View(Wallet.EMPTY).ChargeOf(it.user, it.month)
      ensures var before := old(View(Wallet.EMPTY)).ChargeOf(it.user, it.month);
              && c.count == before.count + 1 && c.weightSum == before.weightSum + it.weight
              && c.amountCents == before.amountCents + it.price
    {
      if it.user !in charges {
        charges := charges[it.user := map[]];
      }
      c := if it.month in charges[it.user] then charges[it.user][it.month] else Charge(it.planId, 0, 0, 0);
      if it.planId != "" {
        c := c.(planId := it.planId);
      }
      c := c.(count := c.count + 1);
      c := c.(weightSum := c.weightSum + it.weight);
      c := c.(amountCents := c.amountCents + it.price);
      charges := charges[it.user := charges[it.user][it.month := c]];
    }

    method RecordEvent(it: Item)
      modifies this`events, this`nextID
      ensures forall b :: View(b) == WithEvent(old(View(b)), it)
      ensures nextID == old(nextID) + 1 && it.user in events
      ensures events == old(events)[it.user := (if it.user in old(events) then old(events)[it.user] else [])
                                               + [UsageEvent(nextID, it)]]
    {
      nextID := nextID + 1;
      events := events[it.user := (if it.user in events then events[it.user] else []) + [UsageEvent(nextID, it)]];
    }
  }

  class ExtraUsageService {
    const repo: MemExtraUsageRepo
    const balance: Wallet.MemBalanceRepo

    constructor (repo: MemExtraUsageRepo, balance: Wallet.MemBalanceRepo)
      ensures this.repo == repo && this.balance == balance
    {
      this.repo, this.balance := repo, balance;
    }

    ghost function View(): Stores
      reads repo, balance
    {
      repo.View(balance.View())
    }

    /** The debit, the record and the compensation of a call that passed the cap check. */
    method Settle(item: Item, used: int, cap: int, addFails: bool) returns (d: Decision)
      requires 0 < item.price
      modifies repo, balance
      ensures View() == Settled(old(View()), item, !addFails)
      ensures d == if old(View()).book.Balance(item.user) < item.price
                   then Decision(false, item.price, used, cap, 0, InsufficientBalance)
                   else if addFails then StoreError
                   else Decision(true, item.price, View().ChargeOf(item.user, item.month).amountCents, cap,
                                 View().book.Balance(item.user), Charged)
    {
      assert Wallet.OVERAGE != "" && Wallet.REFUND != "";
      var debit := balance.Debit(DebitRequest(item));
      if debit.Failed? {
        return Decision(false, item.price, used, cap, 0, InsufficientBalance);
      }
      if addFails {
        var _ := balance.Credit(RefundRequest(item));
        return StoreError;
      }
      var updated := repo.AddCharge(item);
      repo.RecordEvent(item);
      return Decision(true, item.price, updated.amountCents, cap, debit.account.balance, Charged);
    }

    /** The part of CheckAndCharge up to the cap check; `it` carries the raw weight and no price. */
    method Quote(it: Item, pricePer1k: int) returns (d: Decision, settings: Settings)
      ensures d.Decision? && settings == repo.GetSettings(it.user)
      ensures d.allow <==> !Rejects(View(), settings, pricePer1k, it)
      ensures d.reason == Ground(View(), settings, pricePer1k, it)
      ensures d.reason == Disabled <==> !settings.enabled
      ensures d.reason == NotPayAsYouGo <==> settings.enabled && pricePer1k <= 0
      ensures settings.enabled && 0 < pricePer1k ==>
                (d.reason == CapExceeded
                 <==> 0 < settings.capCents < View().ChargeOf(it.user, it.month).amountCents + d.priceCents)
      ensures settings.enabled && 0 < pricePer1k ==>
                var w := if 1 <= it.weight then it.weight else 1;
                1 <= d.priceCents && pricePer1k * w <= 1000 * d.priceCents <= pricePer1k * w + 999
      ensures it.user !in repo.settings ==> d.reason == Disabled
      ensures d.reason in {CapExceeded, Charged} ==>
                && d.priceCents == Priced(pricePer1k, it).price > 0 && d.capCents == settings.capCents
                && d.usedCents == View().ChargeOf(it.user, it.month).amountCents
    {
      var weight := if it.weight <= 0 then 1 else it.weight;
      settings := repo.GetSettings(it.user);
      if !settings.enabled {
        return Decision(false, 0, 0, 0, 0, Disabled), settings;
      }
      if pricePer1k <= 0 {
        return Decision(false, 0, 0, 0, 0, NotPayAsYouGo), settings;
      }
      PriceIsPositive(pricePer1k, weight);
      var priceCents := (pricePer1k * weight + 999) / 1000;
      if priceCents <= 0 {
        priceCents := 1;
      }
      var cur := repo.GetCharge(it.user, it.month);
      var projected := cur.amountCents + priceCents;
      var over := settings.capCents > 0 && projected > settings.capCents;
      return Decision(!over, priceCents, cur.amountCents, settings.capCents, 0, if over then CapExceeded else Charged),
             settings;
    }

    /** `addFails` is the store's error on AddCharge. Run alone, a call charges the price to wallet and
        month together or not at all, within the cap. */
    method CheckAndCharge(it: Item, pricePer1k: int, addFails: bool) returns (d: Decision)
      modifies repo, balance
      ensures View() == if Rejects(old(View()), old(repo.GetSettings(it.user)), pricePer1k, it) then old(View())
                        else Settled(old(View()), Priced(pricePer1k, it), !addFails)
      ensures d.Decision? ==> (d.allow <==> d.reason == Charged)
      ensures d.Decision? && d.reason == Disabled <==> !old(repo.GetSettings(it.user)).enabled
      ensures d.Decision? && d.reason == NotPayAsYouGo <==> old(repo.GetSettings(it.user)).enabled && pricePer1k <= 0
      ensures old(repo.GetSettings(it.user)).enabled && 0 < pricePer1k ==>
                (d.Decision? && d.reason == CapExceeded
                 <==> 0 < old(repo.GetSettings(it.user)).capCents
                        < old(View()).ChargeOf(it.user, it.month).amountCents + Priced(pricePer1k, it).price)
      ensures var done, price := d.Decision? && d.allow, Priced(pricePer1k, it).price;
              && View().ChargeOf(it.user, it.month).amountCents
                   == old(View()).ChargeOf(it.user, it.month).amountCents + (if done then price else 0)
              && View().book.Balance(it.user) == old(View()).book.Balance(it.user) - if done then price else 0
      ensures d.Decision? && d.allow ==>
                && d.usedCents == View().ChargeOf(it.user, it.month).amountCents
                && d.balanceAfter == View().book.Balance(it.user)
                && (d.capCents > 0 ==> d.usedCents <= d.capCents)
      ensures var ground := Ground(old(View()), old(repo.GetSettings(it.user)), pricePer1k, it);
              var short := old(View()).book.Balance(it.user) < Priced(pricePer1k, it).price;
              if ground != Charged then d.Decision? && d.reason == ground
              else if short then d.Decision? && d.reason == InsufficientBalance
              else if addFails then d.StoreError?
              else d.Decision? && d.reason == Charged
      ensures d.Decision? && d.reason in {CapExceeded, InsufficientBalance, Charged} ==>
                && d.priceCents == Priced(pricePer1k, it).price > 0
                && d.capCents == old(repo.GetSettings(it.user)).capCents
    {
      var quote, settings := Quote(it, pricePer1k);
      if !quote.allow {
        return quote;
      }
      var item := Priced(pricePer1k, it);
      SettledEffect(View(), item, !addFails);
      d := Settle(item, quote.usedCents, settings.capCents, addFails);
    }
  }
}
