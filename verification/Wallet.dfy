/** gateway/internal/gateway/balance_repo.go, memBalanceRepo: user balances and the ledger behind them. */
module Wallet {

  const TOPUP := "topup"
  const OVERAGE := "overage"
  const REFUND := "refund"
  const ADJUST := "adjust"

  datatype Account = Account(balance: int, version: int)

  datatype Entry = Entry(id: int, user: string, amount: int, kind: string, orderId: string, reference: string,
                         description: string, balanceAfter: int)

  type Ledger = seq<Entry>

  datatype Error = InvalidAmount | KindRequired | InsufficientBalance

  datatype Result = Posted(account: Account, entry: Entry) | Failed(error: Error)

  datatype Request = Request(user: string, amount: int, kind: string, orderId: string,
                               reference: string, description: string)

  /** The repository as a value. */
  datatype Book = Book(accounts: map<string, Account>, txns: map<string, Ledger>, nextID: int) {
    function AccountOf(u: string): Account { if u in accounts then accounts[u] else Account(0, 0) }

    function LedgerOf(u: string): Ledger { if u in txns then txns[u] else [] }

    function Balance(u: string): int { AccountOf(u).balance }
  }

  const EMPTY := Book(map[], map[], 0)

  // ---- operations on values ----

  /** A request for a signed amount: the next entry of its user's ledger. */
  function NextEntry(b: Book, r: Request, amount: int): Entry {
    Entry(b.nextID + 1, r.user, amount, r.kind, r.orderId, r.reference, r.description, b.Balance(r.user) + amount)
  }

  function Post(b: Book, r: Request, amount: int): Book {
    Book(b.accounts[r.user := Account(b.Balance(r.user) + amount, b.AccountOf(r.user).version + 1)],
         b.txns[r.user := b.LedgerOf(r.user) + [NextEntry(b, r, amount)]],
         b.nextID + 1)
  }

  function Outcome(b: Book, r: Request, amount: int): Result {
    Posted(Post(b, r, amount).AccountOf(r.user), NextEntry(b, r, amount))
  }

  datatype Verdict = Accept | Refuse(error: Error)

  function JudgeCredit(r: Request): Verdict {
    if r.amount <= 0 then Refuse(InvalidAmount) else if r.kind == "" then Refuse(KindRequired) else Accept
  }

  function JudgeDebit(b: Book, r: Request): Verdict {
    if JudgeCredit(r).Refuse? then JudgeCredit(r)
    else if b.Balance(r.user) < r.amount then Refuse(InsufficientBalance)
    else Accept
  }

  function Adjustment(r: Request): Request {
    r.(kind := ADJUST, orderId := "", description := if r.description == "" then "admin set balance" else r.description)
  }

  datatype Op = Credit(req: Request) | Debit(req: Request) | SetBalance(req: Request)

  function Next(b: Book, op: Op): Book {
    match op
    case Credit(r) => if JudgeCredit(r).Accept? then Post(b, r, r.amount) else b
    case Debit(r) => if JudgeDebit(b, r).Accept? then Post(b, r, -r.amount) else b
    case SetBalance(r) => if r.amount < 0 then b else Post(b, Adjustment(r), r.amount - b.Balance(r.user))
  }

  function Run(ops: seq<Op>): Book {
    if ops == [] then EMPTY else Next(Run(ops[..|ops| - 1]), ops[|ops| - 1])
  }

  // ---- what every run keeps ----

  function Sum(l: Ledger): int {
    if l == [] then 0 else Sum(l[..|l| - 1]) + l[|l| - 1].amount
  }

  /** u's ledger, read from the newest entry down, ends at this balance and below this id. */
  ghost predicate Chained(l: Ledger, u: string, balance: int, maxId: int) {
    if l == [] then balance == 0
    else
      var e := l[|l| - 1];
      && 0 <= e.balanceAfter == balance && e.user == u && 0 < e.id <= maxId
      && Chained(l[..|l| - 1], u, balance - e.amount, e.id - 1)
  }

  ghost predicate Reconciled(b: Book, u: string) {
    b.AccountOf(u).version == |b.LedgerOf(u)| && Chained(b.LedgerOf(u), u, b.Balance(u), b.nextID)
  }

  ghost predicate IdsDistinct(b: Book, u: string, v: string) {
    u != v ==>
      forall i, j :: 0 <= i < |b.LedgerOf(u)| && 0 <= j < |b.LedgerOf(v)| ==>
        b.LedgerOf(u)[i].id != b.LedgerOf(v)[j].id
  }

  ghost predicate Sound(b: Book) {
    && 0 <= b.nextID
    && (forall u :: Reconciled(b, u))
    && forall u, v :: IdsDistinct(b, u, v)
  }

  lemma {:induction false} ChainedIdsBelow(l: Ledger, u: string, balance: int, maxId: int)
    requires Chained(l, u, balance, maxId)
    ensures 0 <= balance == Sum(l)
    ensures forall e <- l :: e.user == u && 0 < e.id <= maxId
  {
    if l != [] {
      ChainedIdsBelow(l[..|l| - 1], u, balance - l[|l| - 1].amount, l[|l| - 1].id - 1);
      assert l == l[..|l| - 1] + [l[|l| - 1]];
    }
  }

  lemma ChainedUpTo(l: Ledger, u: string, balance: int, maxId: int, m: int)
    requires Chained(l, u, balance, maxId) && maxId <= m
    ensures Chained(l, u, balance, m)
  {}

  /** Each balance-after is the sum of the entries so far. */
  lemma {:induction false} PrefixSumAt(l: Ledger, u: string, balance: int, maxId: int, k: nat)
    requires Chained(l, u, balance, maxId) && k < |l|
    ensures 0 <= l[k].balanceAfter == Sum(l[..k + 1])
  {
    var n := |l| - 1;
    if k < n {
      PrefixSumAt(l[..n], u, balance - l[n].amount, l[n].id - 1, k);
      assert l[..n][..k + 1] == l[..k + 1];
    } else {
      ChainedIdsBelow(l, u, balance, maxId);
      assert l[..k + 1] == l;
    }
  }

  /** Ids grow along the ledger. */
  lemma {:induction false} IdsGrow(l: Ledger, u: string, balance: int, maxId: int, k: nat, i: nat)
    requires Chained(l, u, balance, maxId) && k < i < |l|
    ensures l[k].id < l[i].id
  {
    var n := |l| - 1;
    if i < n {
      IdsGrow(l[..n], u, balance - l[n].amount, l[n].id - 1, k, i);
    } else {
      ChainedIdsBelow(l[..n], u, balance - l[n].amount, l[n].id - 1);
      assert l[..n][k] in l[..n];
    }
  }

  lemma ChainedAppend(l: Ledger, u: string, balance: int, maxId: int, e: Entry)
    requires Chained(l, u, balance, maxId)
    requires e.balanceAfter == balance + e.amount >= 0 && e.user == u && e.id == maxId + 1 > 0
    ensures Chained(l + [e], u, balance + e.amount, maxId + 1)
  {
    assert (l + [e])[..|l|] == l;
  }

  lemma PostReconciles(b: Book, r: Request, amount: int, u: string)
    requires Reconciled(b, u) && 0 <= b.nextID && 0 <= b.Balance(r.user) + amount
    ensures Reconciled(Post(b, r, amount), u)
  {
    if u == r.user {
      ChainedAppend(b.LedgerOf(u), u, b.Balance(u), b.nextID, NextEntry(b, r, amount));
    } else {
      ChainedUpTo(b.LedgerOf(u), u, b.Balance(u), b.nextID, b.nextID + 1);
    }
  }

  lemma PostIsDistinct(b: Book, r: Request, amount: int, u: string, v: string)
    requires IdsDistinct(b, u, v) && Reconciled(b, u) && Reconciled(b, v)
    ensures IdsDistinct(Post(b, r, amount), u, v)
  {
    ChainedIdsBelow(b.LedgerOf(u), u, b.Balance(u), b.nextID);
    ChainedIdsBelow(b.LedgerOf(v), v, b.Balance(v), b.nextID);
  }

  lemma PostKeeps(b: Book, r: Request, amount: int)
    requires Sound(b) && 0 <= b.Balance(r.user) + amount
    ensures Sound(Post(b, r, amount))
  {
    var b' := Post(b, r, amount);
    forall u
      ensures Reconciled(b', u)
    {
      assert Reconciled(b, u);
      PostReconciles(b, r, amount, u);
    }
    forall u, v
      ensures IdsDistinct(b', u, v)
    {
      assert IdsDistinct(b, u, v) && Reconciled(b, u) && Reconciled(b, v);
      PostIsDistinct(b, r, amount, u, v);
    }
  }

  lemma NextKeeps(b: Book, op: Op)
    requires Sound(b)
    ensures Sound(Next(b, op))
  {
    assert Reconciled(b, op.req.user);
    ChainedIdsBelow(b.LedgerOf(op.req.user), op.req.user, b.Balance(op.req.user), b.nextID);
    if Next(b, op) != b {
      match op
      case Credit(r) => PostKeeps(b, r, r.amount);
      case Debit(r) => PostKeeps(b, r, -r.amount);
      case SetBalance(r) => PostKeeps(b, Adjustment(r), r.amount - b.Balance(r.user));
    }
  }

  lemma {:induction false} RunIsSound(ops: seq<Op>)
    ensures Sound(Run(ops))
  {
    if ops != [] {
      RunIsSound(ops[..|ops| - 1]);
      NextKeeps(Run(ops[..|ops| - 1]), ops[|ops| - 1]);
    }
  }

  /** After any sequence of credits, debits and overrides over any users: every balance is nonnegative
      and its ledger's sum, every balance-after a prefix sum, the version the number of entries, and
      ids grow within a ledger and never repeat across ledgers. */
  lemma EveryRunReconciles(ops: seq<Op>, u: string, v: string)
    ensures var b, l := Run(ops), Run(ops).LedgerOf(u);
            && 0 <= b.Balance(u) == Sum(l) && b.AccountOf(u).version == |l|
            && (forall e <- l :: e.user == u && 0 < e.id <= b.nextID)
            && (forall k :: 0 <= k < |l| ==> 0 <= l[k].balanceAfter == Sum(l[..k + 1]))
            && (forall k, i :: 0 <= k < i < |l| ==> l[k].id < l[i].id)
            && IdsDistinct(b, u, v)
  {
    var b, l := Run(ops), Run(ops).LedgerOf(u);
    RunIsSound(ops);
    assert Reconciled(b, u) && IdsDistinct(b, u, v);
    ChainedIdsBelow(b.LedgerOf(u), u, b.Balance(u), b.nextID);
    forall k | 0 <= k < |l|
      ensures 0 <= l[k].balanceAfter == Sum(l[..k + 1])
    {
      PrefixSumAt(l, u, b.Balance(u), b.nextID, k);
    }
    forall k, i | 0 <= k < i < |l|
      ensures l[k].id < l[i].id
    {
      IdsGrow(l, u, b.Balance(u), b.nextID, k, i);
    }
  }

  // ---- paging ----

  function Reverse(l: Ledger): (r: Ledger)
    ensures |r| == |l|
  {
    if l == [] then [] else [l[|l| - 1]] + Reverse(l[..|l| - 1])
  }

  lemma {:induction false} ReverseAt(l: Ledger, k: nat)
    requires k < |l|
    ensures Reverse(l)[k] == l[|l| - 1 - k]
  {
    if k > 0 {
      ReverseAt(l[..|l| - 1], k - 1);
    }
  }

  function Min(a: int, b: int): int { if a < b then a else b }

  /** The page of the newest-first ledger at an offset. */
  function Page(l: Ledger, limit: nat, offset: nat): Ledger {
    Reverse(l)[Min(offset, |l|)..Min(offset + limit, |l|)]
  }

  lemma PageIs(l: Ledger, limit: nat, offset: nat)
    ensures |Page(l, limit, offset)|
         == if |l| <= offset then 0 else if |l| - offset < limit then |l| - offset else limit
    ensures forall k :: 0 <= k < |Page(l, limit, offset)| ==> Page(l, limit, offset)[k] == l[|l| - 1 - offset - k]
  {
    forall k | 0 <= k < |Page(l, limit, offset)|
      ensures Page(l, limit, offset)[k] == l[|l| - 1 - offset - k]
    {
      ReverseAt(l, offset + k);
    }
  }

  lemma SliceMore<T>(s: seq<T>, a: nat, n: nat)
    requires a + n < |s|
    ensures s[a..a + n + 1] == s[a..a + n] + [s[a + n]]
  {}

  /** The first n pages one after the other. */
  function Pages(l: Ledger, limit: nat, n: nat): Ledger {
    if n == 0 then [] else Pages(l, limit, n - 1) + Page(l, limit, (n - 1) * limit)
  }

  lemma {:induction false} PagesAreAPrefix(l: Ledger, limit: nat, n: nat)
    ensures Pages(l, limit, n) == Reverse(l)[..Min(n * limit, |l|)]
  {
    if n > 0 {
      PagesAreAPrefix(l, limit, n - 1);
      assert n * limit == (n - 1) * limit + limit;
    }
  }

  /** Successive pages of any size, once they reach the end, are the ledger newest first. */
  lemma PagesCoverTheLedger(l: Ledger, limit: nat, n: nat)
    requires |l| <= n * limit
    ensures Pages(l, limit, n) == Reverse(l)
  {
    PagesAreAPrefix(l, limit, n);
  }

  // ---- the repository ----

  /** The entry of a request carries its fields, this amount and the balance after. */
  predicate IsEntryOf(e: Entry, r: Request, amount: int, balance: int) {
    && e.user == r.user && e.amount == amount && e.kind == r.kind
    && e.orderId == r.orderId && e.reference == r.reference
    && e.description == r.description && e.balanceAfter == balance
  }

  class MemBalanceRepo {
    var balances: map<string, Account>
    var txns: map<string, Ledger>
    var nextID: int

    ghost function View(): Book
      reads this
    {
      Book(balances, txns, nextID)
    }

    constructor ()
      ensures View() == EMPTY
    {
      balances, txns, nextID := map[], map[], 0;
    }

    /** The part the three writers share: the entry is written after the balance. */
    method Append(r: Request, amount: int, ghost before: Book) returns (res: Result)
      requires r.user in balances
      requires before.accounts[r.user := balances[r.user]] == balances && before.txns == txns && before.nextID == nextID
      requires balances[r.user] == Account(before.Balance(r.user) + amount, before.AccountOf(r.user).version + 1)
      modifies this`txns, this`nextID
      ensures View() == Post(before, r, amount) && res == Outcome(before, r, amount)
    {
      nextID := nextID + 1;
      var e := Entry(nextID, r.user, amount, r.kind, r.orderId, r.reference, r.description, balances[r.user].balance);
      txns := txns[r.user := (if r.user in txns then txns[r.user] else []) + [e]];
      res := Posted(balances[r.user], e);
    }

    method Credit(r: Request) returns (res: Result)
      modifies this
      ensures View() == Next(old(View()), Op.Credit(r))
      ensures res == match JudgeCredit(r) case Accept => Outcome(old(View()), r, r.amount) case Refuse(e) => Failed(e)
      ensures r.amount <= 0 ==> res == Failed(InvalidAmount)
      ensures 0 < r.amount && r.kind == "" ==> res == Failed(KindRequired)
      ensures 0 < r.amount && r.kind != "" ==>
                res.Posted? && res.account.balance == old(View()).Balance(r.user) + r.amount
      ensures res.Posted? ==> IsEntryOf(res.entry, r, r.amount, res.account.balance)
    {
      if r.amount <= 0 {
        return Failed(InvalidAmount);
      }
      if r.kind == "" {
        return Failed(KindRequired);
      }
      var b := if r.user in balances then balances[r.user] else Account(0, 0);
      b := b.(balance := b.balance + r.amount);
      b := b.(version := b.version + 1);
      balances := balances[r.user := b];
      res := Append(r, r.amount, old(View()));
    }

    method Debit(r: Request) returns (res: Result)
      modifies this
      ensures View() == Next(old(View()), Op.Debit(r))
      ensures r.amount <= 0 ==> res == Failed(InvalidAmount)
      ensures 0 < r.amount && r.kind == "" ==> res == Failed(KindRequired)
      ensures 0 < r.amount && r.kind != "" ==>
                if old(View()).Balance(r.user) < r.amount then res == Failed(InsufficientBalance)
                else res.Posted? && res.account.balance == old(View()).Balance(r.user) - r.amount
      ensures res.Posted? ==> IsEntryOf(res.entry, r, -r.amount, res.account.balance)
      ensures res == match JudgeDebit(old(View()), r) case Accept => Outcome(old(View()), r, -r.amount)
                          case Refuse(e) => Failed(e)
    {
      if r.amount <= 0 {
        return Failed(InvalidAmount);
      }
      if r.kind == "" {
        return Failed(KindRequired);
      }
      if r.user !in balances || balances[r.user].balance < r.amount {
        return Failed(InsufficientBalance);
      }
      var b := balances[r.user];
      b := b.(balance := b.balance - r.amount);
      b := b.(version := b.version + 1);
      balances := balances[r.user := b];
      res := Append(r, -r.amount, old(View()));
    }

    method SetBalance(r: Request) returns (res: Result)
      modifies this
      ensures View() == Next(old(View()), Op.SetBalance(r))
      ensures r.amount < 0 ==> res == Failed(InvalidAmount)
      ensures r.amount >= 0 ==> res == Outcome(old(View()), Adjustment(r), r.amount - old(View()).Balance(r.user))
      ensures r.amount >= 0 ==> View().Balance(r.user) == r.amount
      ensures r.amount >= 0 ==>
                && res.Posted? && res.account.balance == r.amount
                && res.entry.kind == "adjust" && res.entry.orderId == ""
                && res.entry.amount == r.amount - old(View()).Balance(r.user) && res.entry.reference == r.reference
                && res.entry.description == if r.description == "" then "admin set balance" else r.description
    {
      if r.amount < 0 {
        return Failed(InvalidAmount);
      }
      var b := if r.user in balances then balances[r.user] else Account(0, 0);
      var delta := r.amount - b.balance;
      b := b.(balance := r.amount);
      b := b.(version := b.version + 1);
      balances := balances[r.user := b];
      res := Append(Adjustment(r), delta, old(View()));
    }

    /** Newest first; a limit below one means fifty, a negative offset means zero. */
    method ListTransactions(user: string, rawLimit: int, rawOffset: int) returns (out: Ledger, total: int)
      ensures total == |View().LedgerOf(user)|
      ensures out == Page(View().LedgerOf(user),
                          if rawLimit <= 0 then 50 else rawLimit, if rawOffset < 0 then 0 else rawOffset)
      ensures var all, limit := View().LedgerOf(user), if rawLimit <= 0 then 50 else rawLimit;
              var offset := if rawOffset < 0 then 0 else rawOffset;
              && |out| == (if |all| <= offset then 0 else if |all| - offset < limit then |all| - offset else limit)
              && forall k :: 0 <= k < |out| ==> out[k] == all[|all| - 1 - offset - k]
    {
      var limit := if rawLimit <= 0 then 50 else rawLimit;
      var offset := if rawOffset < 0 then 0 else rawOffset;
      var all := if user in txns then txns[user] else [];
      total := |all|;
      out := ReadBack(all, limit, offset);
      PageIs(all, limit, offset);
    }
  }

  /** The loop of ListTransactions, from the newest entry past the offset down. */
  method ReadBack(all: Ledger, limit: nat, offset: nat) returns (out: Ledger)
    ensures out == Page(all, limit, offset)
  {
    var total := |all|;
    out := [];
    ghost var newest, first := Reverse(all), Min(offset, total);
    var i := total - 1 - offset;
    while i >= 0 && |out| < limit
      invariant i == total - 1 - offset - |out|
      invariant |out| <= limit && first + |out| <= total && out == newest[first..first + |out|]
    {
      ReverseAt(all, total - 1 - i);
      SliceMore(newest, first, |out|);
      out := out + [all[i]];
      i := i - 1;
    }
  }
}
