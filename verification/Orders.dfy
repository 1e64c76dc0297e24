/** gateway/internal/billing/order.go and service.go: the order state machine, its in-memory repository
    and the service over it. */
module Orders {
  import opened Common

  datatype Status = Pending | Paying | Paid | Completed | Failed | Expired | Canceled | Refunded

  datatype Trigger = PayStart | CallbackOK | CallbackFail | Timeout | UserCancel | Fulfill

  const TOPUP := "topup"

  /** An amount is an exact decimal; a time is None when it was never set. */
  datatype Order = Order(id: string, userId: string, planId: string, amount: real, currency: string, status: Status,
                         purpose: string, provider: string, externalId: string, idemKey: string,
                         paidAt: Option<int>, expiresAt: Option<int>,
                         originalAmount: real, originalCurrency: string, fxRate: real)

  type Store = map<string, Order>

  datatype Error = InvalidTransition | OrderNotFound | DuplicateOrder

  datatype Outcome = Ok(order: Order) | Err(error: Error)

  /** The table of allowed transitions; None where the event is not allowed. */
  function NextStatus(from: Status, t: Trigger): Option<Status> {
    match (from, t)
    case (Pending, PayStart) => Some(Paying)
    case (Pending, UserCancel) => Some(Canceled)
    case (Pending, Timeout) => Some(Expired)
    case (Paying, CallbackOK) => Some(Paid)
    case (Paying, CallbackFail) => Some(Failed)
    case (Paying, Timeout) => Some(Expired)
    case (Paid, Fulfill) => Some(Completed)
    case _ => None
  }

  predicate CanTransition(from: Status, t: Trigger) { NextStatus(from, t).Some? }

  function Rank(s: Status): nat {
    match s
    case Pending => 0
    case Paying => 1
    case Paid => 2
    case Completed => 3
    case Failed => 4
    case Expired => 4
    case Canceled => 4
    case Refunded => 5
  }

  /** The allowed transitions form no cycle, and which event leads where. */
  lemma TransitionsClimb(from: Status, t: Trigger)
    ensures CanTransition(from, t) ==> Rank(from) < Rank(NextStatus(from, t).value)
    ensures NextStatus(from, t) == Some(Paid) <==> from == Paying && t == CallbackOK
    ensures NextStatus(from, t) == Some(Completed) <==> from == Paid && t == Fulfill
    ensures NextStatus(from, t) == Some(Paying) <==> from == Pending && t == PayStart
    ensures NextStatus(from, t) == Some(Canceled) <==> from == Pending && t == UserCancel
    ensures NextStatus(from, t) == Some(Failed) <==> from == Paying && t == CallbackFail
    ensures NextStatus(from, t) == Some(Expired) <==> from in {Pending, Paying} && t == Timeout
    ensures CanTransition(from, t)
       <==> (from == Pending && t in {PayStart, UserCancel, Timeout})
            || (from == Paying && t in {CallbackOK, CallbackFail, Timeout}) || (from == Paid && t == Fulfill)
  {}

  function Moved(o: Order, to: Status, now: int): Order {
    o.(status := to, paidAt := if to == Paid then Some(now) else o.paidAt)
  }

  function Transitioned(store: Store, id: string, t: Trigger, now: int): Store {
    if id in store && CanTransition(store[id].status, t)
    then store[id := Moved(store[id], NextStatus(store[id].status, t).value, now)]
    else store
  }

  predicate Due(o: Order, now: int) {
    o.expiresAt.Some? && o.expiresAt.value < now && (o.status == Pending || o.status == Paying)
  }

  function Swept(store: Store, now: int): Store {
    map id <- store :: if Due(store[id], now) then store[id].(status := Expired) else store[id]
  }

  function ExpiredOnly(store: Store, ids: set<string>): Store {
    map id <- store :: if id in ids then store[id].(status := Expired) else store[id]
  }

  lemma ExpireOneMore(store: Store, ids: set<string>, id: string)
    requires id in store
    ensures ExpiredOnly(store, ids)[id := store[id].(status := Expired)] == ExpiredOnly(store, ids + {id})
  {}

  function DueIds(store: Store, now: int): set<string> { set id <- store | Due(store[id], now) }

  lemma SweptIsDueOnly(store: Store, now: int)
    requires forall id <- store :: store[id].id == id
    ensures Swept(store, now) == ExpiredOnly(store, DueIds(store, now))
    ensures forall id <- Swept(store, now) :: Swept(store, now)[id].id == id
  {}

  /** Of the first i orders, the due ones are done. */
  ghost predicate DoneUpTo(orders: seq<Order>, i: nat, done: set<string>, now: int) {
    forall j :: 0 <= j < |orders| ==> (orders[j].id in done <==> j < i && Due(orders[j], now))
  }

  lemma DoneOneMore(orders: seq<Order>, i: nat, done: set<string>, now: int)
    requires i < |orders| && DoneUpTo(orders, i, done, now)
    requires forall j, k :: 0 <= j < k < |orders| ==> orders[j].id != orders[k].id
    ensures DoneUpTo(orders, i + 1, if Due(orders[i], now) then done + {orders[i].id} else done, now)
  {}

  /** The service with its in-memory repository. */
  class Service {
    var store: Store
    var idemx: map<string, string>

    /** Orders are kept under their own ids, and every idempotency key leads to an order. */
    ghost predicate Valid()
      reads this
    {
      && (forall id <- store :: store[id].id == id)
      && forall k <- idemx :: idemx[k] in store
    }

    constructor ()
      ensures Valid() && store == map[] && idemx == map[]
    {
      store, idemx := map[], map[];
    }

    method Create(o: Order) returns (r: Outcome)
      requires Valid()
      modifies this
      ensures Valid()
      ensures o.idemKey != "" && o.idemKey in old(idemx) ==>
                r == Err(DuplicateOrder) && store == old(store) && idemx == old(idemx)
      ensures o.idemKey == "" || o.idemKey !in old(idemx) ==> r == Ok(o) && store == old(store)[o.id := o]
      ensures idemx == if r.Ok? && o.idemKey != "" then old(idemx)[o.idemKey := o.id] else old(idemx)
    {
      if o.idemKey != "" {
        if o.idemKey in idemx {
          return Err(DuplicateOrder);
        }
        idemx := idemx[o.idemKey := o.id];
      }
      store := store[o.id := o];
      return Ok(o);
    }

    /** A repeated idempotency key returns the order first created under it and creates nothing. */
    method CreateOrder(o: Order) returns (r: Outcome)
      requires Valid()
      modifies this
      ensures Valid() && r.Ok?
      ensures if o.idemKey != "" && o.idemKey in old(idemx)
              then r.order == old(store)[old(idemx)[o.idemKey]] && store == old(store) && idemx == old(idemx)
              else r.order == o && store == old(store)[o.id := o]
      ensures idemx == if o.idemKey == "" || o.idemKey in old(idemx) then old(idemx) else old(idemx)[o.idemKey := o.id]
      ensures o.idemKey != "" ==> o.idemKey in idemx && idemx[o.idemKey] == r.order.id
    {
      if o.idemKey != "" && o.idemKey in idemx {
        return Ok(store[idemx[o.idemKey]]);
      }
      r := Create(o);
    }

    method Get(id: string) returns (r: Outcome)
      ensures r == if id in store then Ok(store[id]) else Err(OrderNotFound)
    {
      if id !in store {
        return Err(OrderNotFound);
      }
      return Ok(store[id]);
    }

    method Update(o: Order) returns (found: bool)
      modifies this`store
      ensures found == (o.id in old(store))
      ensures store == if found then old(store)[o.id := o] else old(store)
    {
      if o.id !in store {
        return false;
      }
      store := store[o.id := o];
      return true;
    }

    method Transition(id: string, t: Trigger, now: int) returns (r: Outcome)
      requires Valid()
      modifies this`store
      ensures Valid() && store == Transitioned(old(store), id, t, now)
      ensures r == if id !in old(store) then Err(OrderNotFound)
                   else if !CanTransition(old(store)[id].status, t) then Err(InvalidTransition)
                   else Ok(store[id])
    {
      var got := Get(id);
      if got.Err? {
        return got;
      }
      var o := got.order;
      var next := NextStatus(o.status, t);
      if next.None? {
        return Err(InvalidTransition);
      }
      o := o.(status := next.value);
      if next.value == Paid {
        o := o.(paidAt := Some(now));
      }
      var _ := Update(o);
      return Ok(o);
    }

    /** The orders whose time is up, in the arbitrary order of a map. */
    method ListExpired(now: int) returns (out: seq<Order>)
      requires Valid()
      ensures forall i :: 0 <= i < |out| ==> out[i].id in store && store[out[i].id] == out[i]
      ensures forall i, j :: 0 <= i < j < |out| ==> out[i].id != out[j].id
      ensures forall id <- store :: (store[id] in out) == (store[id].expiresAt.Some? && store[id].expiresAt.value < now)
    {
      out := [];
      var rest := store.Keys;
      while rest != {}
        invariant rest <= store.Keys
        invariant forall i :: 0 <= i < |out| ==> out[i].id in store && store[out[i].id] == out[i] && out[i].id !in rest
        invariant forall i, j :: 0 <= i < j < |out| ==> out[i].id != out[j].id
        invariant forall id <- store :: (store[id] in out)
                    == (id !in rest && store[id].expiresAt.Some? && store[id].expiresAt.value < now)
        decreases |rest|
      {
        var id :| id in rest;
        rest := rest - {id};
        var o := store[id];
        if o.expiresAt.Some? && o.expiresAt.value < now {
          out := out + [o];
        }
      }
    }

    /** One turn of the sweep: an order still awaiting payment is stored as expired. */
    method ExpireIfWaiting(o: Order) returns (did: bool)
      requires o.id in store
      modifies this`store
      ensures did == (o.status == Pending || o.status == Paying)
      ensures store == if did then old(store)[o.id := o.(status := Expired)] else old(store)
    {
      did := (o.status == Pending || o.status == Paying) && CanTransition(o.status, Timeout);
      if did {
        did := Update(o.(status := NextStatus(o.status, Timeout).value));
      }
    }

    method ExpireAll(orders: seq<Order>, now: int) returns (swept: int)
      requires forall i :: 0 <= i < |orders| ==> orders[i].id in store && store[orders[i].id] == orders[i]
      requires forall i :: 0 <= i < |orders| ==> orders[i].expiresAt.Some? && orders[i].expiresAt.value < now
      requires forall i, j :: 0 <= i < j < |orders| ==> orders[i].id != orders[j].id
      requires forall id <- DueIds(store, now) :: store[id].id == id && store[id] in orders
      modifies this`store
      ensures store == ExpiredOnly(old(store), DueIds(old(store), now)) && swept == |DueIds(old(store), now)|
    {
      swept := 0;
      ghost var s0, done := store, {};
      var i := 0;
      while i < |orders|
        invariant 0 <= i <= |orders|
        invariant store == ExpiredOnly(s0, done)
        invariant DoneUpTo(orders, i, done, now)
        invariant swept == |done| && done <= DueIds(s0, now)
      {
        ExpireOneMore(s0, done, orders[i].id);
        DoneOneMore(orders, i, done, now);
        var did := ExpireIfWaiting(orders[i]);
        if did {
          done := done + {orders[i].id};
          swept := swept + 1;
        }
        i := i + 1;
      }
      forall id <- DueIds(s0, now)
        ensures id in done
      {
        var j :| 0 <= j < |orders| && orders[j] == s0[id];
      }
      assert done == DueIds(s0, now);
    }

    /** Expires every order whose time is up and that still awaits payment, and no other. */
    method SweepExpired(now: int) returns (swept: int)
      requires Valid()
      modifies this`store
      ensures Valid() && store == Swept(old(store), now)
      ensures swept == |DueIds(old(store), now)|
    {
      SweptIsDueOnly(store, now);
      var orders := ListExpired(now);
      swept := ExpireAll(orders, now);
    }

    method CreateRefund(id: string) returns (found: bool)
      requires Valid()
      modifies this`store
      ensures Valid() && found == (id in old(store))
      ensures store == if found then old(store)[id := old(store)[id].(status := Refunded)] else old(store)
    {
      if id !in store {
        return false;
      }
      store := store[id := store[id].(status := Refunded)];
      return true;
    }
  }
}
