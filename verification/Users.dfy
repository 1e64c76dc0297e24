/** gateway/internal/auth/service.go: the in-memory user repository with its two indexes, and the base-36
    ids it issues. */
module Users {

  const MAX_INT64 := 0x7fff_ffff_ffff_ffff
  const MIN_INT64 := -0x8000_0000_0000_0000
  const BUFFER := 16

  // ---- ids ----

  /** Entry d of the table "0123456789abcdefghijklmnopqrstuvwxyz". */
  function Digit(d: nat): char
    requires d < 36
  {
    if d < 10 then '0' + d as char else 'a' + (d - 10) as char
  }

  function Base36(n: nat): string {
    if n == 0 then "" else Base36(n / 36) + [Digit(n % 36)]
  }

  const DIGITS := "0123456789abcdefghijklmnopqrstuvwxyz"

  lemma DigitIs(d: nat)
    requires d < 36
    ensures Digit(d) == DIGITS[d]
  {}

  /** Zero and negative numbers fall out of the scheme: zero has no prefix, negatives no digits. */
  function IdOf(n: int): string {
    if n == 0 then "0" else if n < 0 then "u_" else "u_" + Base36(n)
  }

  /** A text read as digits of the table, the first the most significant; -1 for any other. */
  function DigitValue(c: char): int {
    if '0' <= c <= '9' then c as int - '0' as int else if 'a' <= c <= 'z' then c as int - 'a' as int + 10 else -1
  }

  function ValueOf(s: string): int {
    if s == "" then 0 else 36 * ValueOf(s[..|s| - 1]) + DigitValue(s[|s| - 1])
  }

  /** The digits of a number read back as it. */
  lemma {:induction false} Base36RoundTrip(n: nat)
    ensures ValueOf(Base36(n)) == n
    ensures forall c <- Base36(n) :: c in DIGITS
    ensures n > 0 ==> Base36(n)[0] != '0'
  {
    if n > 0 {
      Base36RoundTrip(n / 36);
      DigitIs(n % 36);
      var s := Base36(n);
      assert s[..|s| - 1] == Base36(n / 36) && s[|s| - 1] == Digit(n % 36);
    }
  }

  function Power36(k: nat): nat { if k == 0 then 1 else 36 * Power36(k - 1) }

  lemma {:induction false} Base36Length(n: nat, k: nat)
    requires n < Power36(k)
    ensures |Base36(n)| <= k
  {
    if n > 0 && k > 0 {
      Base36Length(n / 36, k - 1);
    }
  }

  /** Thirteen digits are enough for every int64, so sixteen bytes always suffice. */
  lemma Int64FitsTheBuffer(n: nat)
    requires n <= MAX_INT64
    ensures |Base36(n)| <= 13 < BUFFER
  {
    assert Power36(4) == 1679616;
    assert Power36(8) == 36 * (36 * (36 * (36 * Power36(4)))) == 2821109907456;
    assert Power36(12) == 36 * (36 * (36 * (36 * Power36(8)))) == 4738381338321616896;
    Base36Length(n, 13);
  }

  lemma {:induction false} Base36Injective(a: nat, b: nat)
    requires Base36(a) == Base36(b)
    ensures a == b
  {
    if a > 0 && b > 0 {
      var x, y := Base36(a), Base36(b);
      assert x[..|x| - 1] == Base36(a / 36) && y[..|y| - 1] == Base36(b / 36);
      assert x[|x| - 1] == y[|y| - 1];
      assert a % 36 == b % 36;
      Base36Injective(a / 36, b / 36);
    }
  }

  /** Ids collide only between negative numbers. */
  lemma IdsCollideIff(a: int, b: int)
    ensures IdOf(a) == IdOf(b) <==> a == b || (a < 0 && b < 0)
  {
    if IdOf(a) == IdOf(b) {
      assert IdOf(0)[0] == '0';
      if a > 0 {
        assert IdOf(a)[0] == 'u';
        assert IdOf(a)[2..] == Base36(a);
      }
      if b > 0 {
        assert IdOf(b)[0] == 'u';
        assert IdOf(b)[2..] == Base36(b);
      }
      if a > 0 && b > 0 {
        Base36Injective(a, b);
      }
    }
  }

  /** Fills the buffer from its end; never runs off its start for an int64. */
  method FormatID(n: int) returns (id: string)
    requires MIN_INT64 <= n <= MAX_INT64
    ensures id == IdOf(n)
  {
    if n == 0 {
      return "0";
    }
    var b := new char[BUFFER](_ => '\0');
    var i := BUFFER;
    var rest := n;
    if n > 0 {
      Int64FitsTheBuffer(n);
    }
    while rest > 0
      invariant 0 <= i <= BUFFER && (n > 0 ==> rest >= 0) && (n < 0 ==> rest == n && i == BUFFER)
      invariant n > 0 ==> Base36(n) == Base36(rest) + b[i..] && |Base36(n)| <= 13
      decreases if rest > 0 then rest else 0
    {
      assert |Base36(rest)| > 0;
      ghost var tail := b[i..];
      i := i - 1;
      b[i] := Digit(rest % 36);
      assert b[i..] == [Digit(rest % 36)] + tail;
      rest := rest / 36;
    }
    return "u_" + b[i..];
  }

  // ---- the two indexes ----

  datatype User = User(id: string, email: string, profile: string)

  datatype Error = UserExists | UserNotFound

  datatype Outcome = Ok(user: User) | Err(error: Error)

  /** The repository as a value. */
  datatype Repo = Repo(byEmail: map<string, User>, byID: map<string, User>, nextID: int)

  const EMPTY := Repo(map[], map[], 0)

  /** Both indexes hold the same records, one to one. */
  ghost predicate Paired(r: Repo) {
    && (forall e <- r.byEmail :: var u := r.byEmail[e]; u.email == e && u.id in r.byID && r.byID[u.id] == u)
    && (forall i <- r.byID :: var u := r.byID[i]; u.id == i && u.email in r.byEmail && r.byEmail[u.email] == u)
  }

  /** Ids in use come from numbers issued so far. */
  ghost predicate Issued(r: Repo) {
    0 <= r.nextID && forall i <- r.byID :: IssuedBy(i, r.nextID)
  }

  ghost predicate IssuedBy(id: string, last: int) {
    exists n :: 0 < n <= last && id == IdOf(n)
  }

  function Created(r: Repo, u: User): Repo {
    var stored := if u.id == "" then u.(id := IdOf(r.nextID + 1)) else u;
    if u.email in r.byEmail then r
    else Stored(r, stored)
  }

  function Stored(r: Repo, u: User): Repo { Repo(r.byEmail[u.email := u], r.byID[u.id := u], r.nextID + 1) }

  function Updated(r: Repo, u: User): Repo {
    if u.id !in r.byID then r else r.(byID := r.byID[u.id := u], byEmail := r.byEmail[u.email := u])
  }

  datatype Op = Create(u: User) | Update(u: User)

  function Next(r: Repo, op: Op): Repo {
    match op
    case Create(u) => Created(r, u)
    case Update(u) => Updated(r, u)
  }

  function Run(ops: seq<Op>): Repo {
    if ops == [] then EMPTY else Next(Run(ops[..|ops| - 1]), ops[|ops| - 1])
  }

  /** Creations leave the id to the repository; updates keep the email of the record they replace. */
  predicate Ordinary(r: Repo, op: Op) {
    match op
    case Create(u) => u.id == ""
    case Update(u) => u.id in r.byID ==> r.byID[u.id].email == u.email
  }

  ghost predicate AllOrdinary(ops: seq<Op>) {
    ops != [] ==> AllOrdinary(ops[..|ops| - 1]) && Ordinary(Run(ops[..|ops| - 1]), ops[|ops| - 1])
  }

  lemma FreeIdKeepsPaired(r: Repo, u: User)
    requires Paired(r) && u.email !in r.byEmail && u.id !in r.byID
    ensures Paired(Stored(r, u))
  {}

  lemma TakenIdBreaksPaired(r: Repo, u: User)
    requires Paired(r) && u.email !in r.byEmail && u.id in r.byID
    ensures !Paired(Stored(r, u))
  {
    var other, r' := r.byID[u.id], Stored(r, u);
    assert other.email in r'.byEmail && r'.byEmail[other.email] == other;
    assert r'.byID[u.id] == u;
  }

  lemma StoredKeepsPairedIff(r: Repo, u: User)
    requires Paired(r) && u.email !in r.byEmail
    ensures Paired(Stored(r, u)) <==> u.id !in r.byID
  {
    if u.id in r.byID {
      TakenIdBreaksPaired(r, u);
    } else {
      FreeIdKeepsPaired(r, u);
    }
  }

  /** A creation keeps the indexes paired iff the email is taken or the id is free. */
  lemma CreateKeepsPairedIff(r: Repo, u: User)
    requires Paired(r)
    ensures var id := if u.id == "" then IdOf(r.nextID + 1) else u.id;
            Paired(Created(r, u)) <==> u.email in r.byEmail || id !in r.byID
  {
    if u.email !in r.byEmail {
      StoredKeepsPairedIff(r, if u.id == "" then u.(id := IdOf(r.nextID + 1)) else u);
    }
  }

  /** An update keeps them paired iff the id is unknown or the email is the stored one. */
  lemma UpdateKeepsPairedIff(r: Repo, u: User)
    requires Paired(r)
    ensures Paired(Updated(r, u)) <==> u.id !in r.byID || r.byID[u.id].email == u.email
  {
    if u.id in r.byID && r.byID[u.id].email != u.email {
      var stored, r' := r.byID[u.id], Updated(r, u);
      assert stored.email in r'.byEmail && r'.byEmail[stored.email] == stored;
      assert r'.byID[stored.id] == u;
    }
  }

  lemma NextIdIsNew(id: string, last: int)
    requires 0 <= last && IssuedBy(id, last)
    ensures id != IdOf(last + 1) && IssuedBy(id, last + 1)
  {
    var n :| 0 < n <= last && id == IdOf(n);
    IdsCollideIff(n, last + 1);
  }

  lemma NewIdIsFree(r: Repo)
    requires Issued(r)
    ensures IdOf(r.nextID + 1) !in r.byID
  {
    forall i <- r.byID
      ensures i != IdOf(r.nextID + 1)
    {
      NextIdIsNew(i, r.nextID);
    }
  }

  lemma IssuedStep(r: Repo, op: Op)
    requires Issued(r) && Ordinary(r, op)
    ensures Issued(Next(r, op))
  {
    var r' := Next(r, op);
    assert IssuedBy(IdOf(r.nextID + 1), r.nextID + 1);
    forall i <- r'.byID
      ensures IssuedBy(i, r'.nextID)
    {
      if i in r.byID {
        NextIdIsNew(i, r.nextID);
      }
    }
  }

  /** Over every run of such creations and updates the indexes hold the same records one to one. */
  lemma {:induction false} EveryRunIsPaired(ops: seq<Op>)
    requires AllOrdinary(ops)
    ensures Paired(Run(ops)) && Issued(Run(ops))
  {
    if ops != [] {
      var r, op := Run(ops[..|ops| - 1]), ops[|ops| - 1];
      EveryRunIsPaired(ops[..|ops| - 1]);
      NewIdIsFree(r);
      IssuedStep(r, op);
      match op
      case Create(u) => CreateKeepsPairedIff(r, u);
      case Update(u) => UpdateKeepsPairedIff(r, u);
    }
  }

  /** So no two emails ever share an id. */
  lemma IdsAreDistinct(ops: seq<Op>, e: string, f: string)
    requires AllOrdinary(ops)
    requires e in Run(ops).byEmail && f in Run(ops).byEmail && e != f
    ensures Run(ops).byEmail[e].id != Run(ops).byEmail[f].id
  {
    EveryRunIsPaired(ops);
  }

  class MemUserRepo {
    var byEmail: map<string, User>
    var byID: map<string, User>
    var nextID: int

    ghost function View(): Repo
      reads this
    {
      Repo(byEmail, byID, nextID)
    }

    constructor ()
      ensures View() == EMPTY
    {
      byEmail, byID, nextID := map[], map[], 0;
    }

    method Create(u: User) returns (r: Outcome)
      requires 0 <= nextID < MAX_INT64
      modifies this
      ensures View() == Created(old(View()), u)
      ensures if u.email in old(byEmail) then byEmail == old(byEmail) && byID == old(byID) && nextID == old(nextID)
              else
                && r == Ok(u.(id := if u.id == "" then IdOf(nextID) else u.id)) && nextID == old(nextID) + 1
                && byEmail == old(byEmail)[u.email := r.user] && byID == old(byID)[r.user.id := r.user]
      ensures if u.email in old(byEmail) then r == Err(UserExists)
              else r.Ok? && r.user.email == u.email
                   && r.user.id in byID && byID[r.user.id] == byEmail[u.email] == r.user
    {
      if u.email in byEmail {
        return Err(UserExists);
      }
      nextID := nextID + 1;
      var stored := u;
      if stored.id == "" {
        var id := FormatID(nextID);
        stored := stored.(id := id);
      }
      byEmail := byEmail[u.email := stored];
      byID := byID[stored.id := stored];
      return Ok(stored);
    }

    method Update(u: User) returns (r: Outcome)
      modifies this
      ensures View() == Updated(old(View()), u)
      ensures if u.id in old(byID) then byEmail == old(byEmail)[u.email := u] && byID == old(byID)[u.id := u]
              else byEmail == old(byEmail) && byID == old(byID)
      ensures r == if u.id in old(byID) then Ok(u) else Err(UserNotFound)
    {
      if u.id !in byID {
        return Err(UserNotFound);
      }
      byID := byID[u.id := u];
      byEmail := byEmail[u.email := u];
      return Ok(u);
    }
  }
}
