/** gateway/internal/billing/currency.go: conversion through a base currency, with exact decimals taken as
    reals and decimal division as any function within e of the true quotient. */
module Currency {
  import opened Common

  datatype Error = InvalidCode | Duplicate | SelfRate | RateInvalid | Unknown

  datatype Result<+T> = Ok(value: T) | Err(error: Error)

  type Divide = (real, real) -> real

  // ---- codes ----

  predicate IsUpper(c: char) { 'A' <= c <= 'Z' }

  predicate IsSpace(c: char) { c == ' ' || '\t' <= c <= '\r' }

  function Upper(c: char): char { if 'a' <= c <= 'z' then c - 'a' + 'A' else c }

  function TrimLeft(s: string): string {
    if s != "" && IsSpace(s[0]) then TrimLeft(s[1..]) else s
  }

  function TrimRight(s: string): string {
    if s != "" && IsSpace(s[|s| - 1]) then TrimRight(s[..|s| - 1]) else s
  }

  function Folded(s: string): string {
    var t := TrimRight(TrimLeft(s));
    seq(|t|, i requires 0 <= i < |t| => Upper(t[i]))
  }

  predicate IsCode(s: string) { |s| == 3 && IsUpper(s[0]) && IsUpper(s[1]) && IsUpper(s[2]) }

  function NormalizeCode(s: string): Result<string> {
    if IsCode(Folded(s)) then Ok(Folded(s)) else Err(InvalidCode)
  }

  /** A space, tab, line feed, vertical tab, form feed or carriage return. */
  predicate IsBlank(c: char) { c as int in {32, 9, 10, 11, 12, 13} }

  ghost predicate Spaces(s: string) {
    forall i :: 0 <= i < |s| ==> IsBlank(s[i])
  }

  /** u is c, or c is a small letter and u the same capital. */
  predicate IsCapitalOf(u: char, c: char) {
    'A' <= u <= 'Z' && (c == u || c as int == u as int + 32)
  }

  lemma {:induction false} TrimLeftDrops(l: string, s: string)
    requires Spaces(l) && (s != "" ==> !IsSpace(s[0]))
    ensures TrimLeft(l + s) == s
  {
    if l != "" {
      assert (l + s)[1..] == l[1..] + s;
      assert IsBlank(l[0]);
      TrimLeftDrops(l[1..], s);
    } else {
      assert l + s == s;
    }
  }

  lemma {:induction false} TrimRightDrops(s: string, r: string)
    requires Spaces(r) && (s != "" ==> !IsSpace(s[|s| - 1]))
    ensures TrimRight(s + r) == s
  {
    if r != "" {
      assert (s + r)[..|s + r| - 1] == s + r[..|r| - 1];
      assert IsBlank(r[|r| - 1]);
      TrimRightDrops(s, r[..|r| - 1]);
    } else {
      assert s + r == s;
    }
  }

  /** Any three letters, in any case and with any spaces around, are the code of their capitals. */
  lemma NormalizesTo(l: string, s: string, r: string, code: string)
    requires Spaces(l) && Spaces(r) && |s| == |code| == 3
    requires forall i :: 0 <= i < 3 ==> IsCapitalOf(code[i], s[i])
    ensures NormalizeCode(l + s + r) == Ok(code)
  {
    assert IsCapitalOf(code[0], s[0]) && IsCapitalOf(code[1], s[1]) && IsCapitalOf(code[2], s[2]);
    assert l + s + r == l + (s + r) && (s + r)[0] == s[0];
    TrimLeftDrops(l, s + r);
    TrimRightDrops(s, r);
    assert Folded(l + s + r) == code;
  }

  lemma {:induction false} TrimLeftSplits(s: string) returns (l: string)
    ensures s == l + TrimLeft(s) && Spaces(l)
  {
    if s != "" && IsSpace(s[0]) {
      var rest := TrimLeftSplits(s[1..]);
      l := [s[0]] + rest;
      assert IsBlank(s[0]) && s == [s[0]] + s[1..];
    } else {
      l := "";
    }
  }

  lemma {:induction false} TrimRightSplits(s: string) returns (r: string)
    ensures s == TrimRight(s) + r && Spaces(r)
  {
    if s != "" && IsSpace(s[|s| - 1]) {
      var rest := TrimRightSplits(s[..|s| - 1]);
      r := rest + [s[|s| - 1]];
      assert IsBlank(s[|s| - 1]) && s == s[..|s| - 1] + [s[|s| - 1]];
    } else {
      r := "";
    }
  }

  /** And nothing else is a code. */
  lemma NormalizedFrom(x: string) returns (l: string, s: string, r: string)
    requires NormalizeCode(x).Ok?
    ensures x == l + s + r && Spaces(l) && Spaces(r) && |s| == |NormalizeCode(x).value| == 3
    ensures forall i :: 0 <= i < 3 ==> IsCapitalOf(NormalizeCode(x).value[i], s[i])
  {
    l := TrimLeftSplits(x);
    r := TrimRightSplits(TrimLeft(x));
    s := TrimRight(TrimLeft(x));
    var code := NormalizeCode(x).value;
    assert code == Folded(x) && |s| == |code|;
    assert IsCapitalOf(code[0], s[0]) && IsCapitalOf(code[1], s[1]) && IsCapitalOf(code[2], s[2]);
  }

  /** A normalized code is its own normal form. */
  lemma NormalizeIsIdempotent(s: string)
    ensures NormalizeCode(s).Ok? ==>
              IsCode(NormalizeCode(s).value) && NormalizeCode(NormalizeCode(s).value) == NormalizeCode(s)
  {
    if NormalizeCode(s).Ok? {
      var c := NormalizeCode(s).value;
      assert TrimLeft(c) == c && TrimRight(c) == c;
      assert Folded(c) == c;
    }
  }

  // ---- configuration ----

  datatype RateInput = RateInput(code: string, rate: Option<real>)  // None: not a decimal

  datatype Config = Config(base: string, rates: map<string, real>)

  /** What Validate guarantees: rates are positive, keyed by codes, and never of the base. */
  ghost predicate Sound(c: Config) {
    IsCode(c.base) && forall k <- c.rates :: IsCode(k) && k != c.base && c.rates[k] > 0.0
  }

  /** What is wrong with row i, in the order it is checked; None if nothing is. */
  function Fault(base: string, rows: seq<RateInput>, i: nat): Option<Error>
    requires i < |rows|
  {
    var code := NormalizeCode(rows[i].code);
    if code.Err? then Some(InvalidCode)
    else if code.value == base then Some(SelfRate)
    else if exists j :: 0 <= j < i && NormalizeCode(rows[j].code) == code then Some(Duplicate)
    else if rows[i].rate.None? || rows[i].rate.value <= 0.0 then Some(RateInvalid)
    else None
  }

  /** Which fault a row has, one after the other: no code, the base's, taken before, no positive rate. */
  lemma FaultIs(base: string, rows: seq<RateInput>, i: nat)
    requires i < |rows|
    ensures var code, fault := NormalizeCode(rows[i].code), Fault(base, rows, i);
            var taken := exists j :: 0 <= j < i && NormalizeCode(rows[j].code) == code;
            && (fault == Some(InvalidCode) <==> code == Err(InvalidCode))
            && (fault == Some(SelfRate) <==> code == Ok(base))
            && (fault == Some(Duplicate) <==> code.Ok? && code != Ok(base) && taken)
            && (fault == Some(RateInvalid) <==>
                  code.Ok? && code != Ok(base) && !taken && (rows[i].rate.None? || rows[i].rate.value <= 0.0))
            && fault != Some(Unknown)
  {}

  /** Row i is the first at fault, with this error. */
  ghost predicate FirstFault(base: string, rows: seq<RateInput>, i: nat, error: Error) {
    && i < |rows| && Fault(base, rows, i) == Some(error)
    && forall j :: 0 <= j < i ==> Fault(base, rows, j).None?
  }

  ghost predicate Answers(r: Result<Config>, base: string, rows: seq<RateInput>) {
    match r
    case Ok(c) =>
      && Sound(c) && c.base == base
      && (forall i :: 0 <= i < |rows| ==> Fault(base, rows, i).None?)
      && forall i :: 0 <= i < |rows| ==> Stored(c.rates, rows[i])
    case Err(error) => exists i :: FirstFault(base, rows, i, error)
  }

  /** Accepts exactly the inputs with no fault, storing every row's rate, and otherwise reports the first. */
  method Validate(base: string, rows: seq<RateInput>) returns (r: Result<Config>)
    ensures match NormalizeCode(base)
            case Err(_) => r == Err(InvalidCode)
            case Ok(def) => Answers(r, def, rows)
  {
    var d := NormalizeCode(base);
    if d.Err? {
      return Err(InvalidCode);
    }
    r := ValidateRows(d.value, rows);
  }

  method ValidateRows(def: string, rows: seq<RateInput>) returns (r: Result<Config>)
    requires IsCode(def)
    ensures Answers(r, def, rows)
  {
    var rates: map<string, real> := map[];
    var i := 0;
    while i < |rows|
      invariant 0 <= i <= |rows| && Taken(def, rows, i, rates)
    {
      var fault := CheckRow(def, rows, i, rates);
      if fault.Some? {
        assert FirstFault(def, rows, i, fault.value);
        return Err(fault.value);
      }
      TakeOneMore(def, rows, i, rates);
      rates := rates[NormalizeCode(rows[i].code).value := rows[i].rate.value];
      i := i + 1;
    }
    return Ok(Config(def, rates));
  }

  /** The first i rows are faultless and these are their rates. */
  ghost predicate Taken(def: string, rows: seq<RateInput>, i: nat, rates: map<string, real>)
    requires i <= |rows|
  {
    && Sound(Config(def, rates))
    && (forall j :: 0 <= j < i ==> Fault(def, rows, j).None?)
    && (forall k <- rates :: Listed(rows[..i], k))
    && forall j :: 0 <= j < i ==> Stored(rates, rows[j])
  }

  lemma TakeOneMore(def: string, rows: seq<RateInput>, i: nat, rates: map<string, real>)
    requires i < |rows| && Taken(def, rows, i, rates) && Fault(def, rows, i).None?
    requires NormalizeCode(rows[i].code).Ok? && NormalizeCode(rows[i].code).value !in rates && rows[i].rate.Some?
    ensures Taken(def, rows, i + 1, rates[NormalizeCode(rows[i].code).value := rows[i].rate.value])
  {
    ListedMore(rows, i, rates, NormalizeCode(rows[i].code).value);
  }

  predicate Listed(rows: seq<RateInput>, code: string) {
    exists r <- rows :: NormalizeCode(r.code) == Ok(code)
  }

  predicate Stored(rates: map<string, real>, r: RateInput) {
    var code := NormalizeCode(r.code);
    code.Ok? && code.value in rates && Some(rates[code.value]) == r.rate
  }

  lemma ListedMore(rows: seq<RateInput>, i: nat, rates: map<string, real>, code: string)
    requires i < |rows| && NormalizeCode(rows[i].code) == Ok(code) && forall k <- rates :: Listed(rows[..i], k)
    ensures forall k <- rates.Keys + {code} :: Listed(rows[..i + 1], k)
  {
    assert rows[..i + 1] == rows[..i] + [rows[i]];
  }

  /** The checks of one turn of Validate's loop, given the rates taken so far. */
  method CheckRow(base: string, rows: seq<RateInput>, i: nat, rates: map<string, real>) returns (fault: Option<Error>)
    requires i < |rows|
    requires forall k <- rates :: Listed(rows[..i], k)
    requires forall j :: 0 <= j < i ==> Stored(rates, rows[j])
    ensures fault == Fault(base, rows, i)
    ensures fault.None? ==> NormalizeCode(rows[i].code).Ok? && NormalizeCode(rows[i].code).value !in rates
  {
    var code := NormalizeCode(rows[i].code);
    if code.Err? {
      return Some(InvalidCode);
    }
    if code.value == base {
      return Some(SelfRate);
    }
    if code.value in rates {
      var r :| r in rows[..i] && NormalizeCode(r.code) == code;
      return Some(Duplicate);
    }
    assert forall j :: 0 <= j < i ==> NormalizeCode(rows[j].code) != code by {
      assert forall j :: 0 <= j < i ==> Stored(rates, rows[j]);
    }
    if rows[i].rate.None? || rows[i].rate.value <= 0.0 {
      return Some(RateInvalid);
    }
    return None;
  }

  // ---- conversion ----

  function Times(x: real, y: real): real { x * y }

  function Convert(c: Config, divide: Divide, amount: real, from: string, to: string): Result<real> {
    var f, t := NormalizeCode(from), NormalizeCode(to);
    if f.Err? then Err(f.error)
    else if t.Err? then Err(t.error)
    else if f.value == t.value then Ok(amount)
    else if c.base == "" then Err(Unknown)
    else if f.value != c.base && f.value !in c.rates then Err(Unknown)
    else
      var inBase := if f.value == c.base then amount else Times(amount, c.rates[f.value]);
      if t.value == c.base then Ok(inBase)
      else if t.value !in c.rates then Err(Unknown)
      else Ok(divide(inBase, c.rates[t.value]))
  }

  /** Units of base currency for one unit of a code. */
  function RateOf(c: Config, code: string): real
    requires code == c.base || code in c.rates
  {
    if code == c.base then 1.0 else c.rates[code]
  }

  predicate Known(c: Config, code: string) {
    var n := NormalizeCode(code);
    n.Ok? && (n.value == c.base || n.value in c.rates)
  }

  function RateFor(c: Config, code: string): real
    requires Known(c, code)
  {
    RateOf(c, NormalizeCode(code).value)
  }

  function Quotient(x: real, y: real): real { if y == 0.0 then 0.0 else x / y }

  function Abs(x: real): real { if x < 0.0 then -x else x }

  /** Divisions are within e of the truth, and exact for a zero numerator. */
  ghost predicate Accurate(divide: Divide, e: real) {
    && 0.0 <= e
    && (forall x, y :: y != 0.0 ==> Abs(divide(x, y) - Quotient(x, y)) <= e)
    && forall y :: y != 0.0 ==> divide(0.0, y) == 0.0
  }

  /** Conversion succeeds exactly for the same valid code twice or for two known codes. */
  lemma ConvertSucceedsIff(c: Config, divide: Divide, amount: real, from: string, to: string)
    requires Sound(c)
    ensures Convert(c, divide, amount, from, to).Ok?
       <==> (NormalizeCode(from).Ok? && NormalizeCode(from) == NormalizeCode(to)) || (Known(c, from) && Known(c, to))
    ensures NormalizeCode(from).Ok? && NormalizeCode(from) == NormalizeCode(to) ==>
              Convert(c, divide, amount, from, to) == Ok(amount)
    ensures Convert(c, divide, amount, from, to) == Err(InvalidCode)
       <==> NormalizeCode(from).Err? || NormalizeCode(to).Err?
  {}

  lemma DivideBack(x: real, y: real)
    requires y != 0.0
    ensures Quotient(x, y) * y == x
  {}

  lemma ProductOverItself(a: real, r: real)
    requires r > 0.0
    ensures Quotient(Times(a, r), r) == a
  {
    var q := (a * r) / r;
    assert q * r == a * r;
    NoZeroDivisor(q - a, r);
  }

  lemma NoZeroDivisor(x: real, r: real)
    requires x * r == 0.0 && r != 0.0
    ensures x == 0.0
  {}

  lemma RatesArePositive(c: Config, code: string)
    requires Sound(c) && Known(c, code)
    ensures RateFor(c, code) > 0.0
  {}

  /** What conversion between known codes computes, with the base's rate counted as one. */
  function Computed(divide: Divide, amount: real, from: string, to: string, base: string, ra: real, rb: real): real {
    if from == to then amount else if to == base then Times(amount, ra) else divide(Times(amount, ra), rb)
  }

  lemma ConvertComputes(c: Config, divide: Divide, amount: real, from: string, to: string)
    requires Sound(c) && Known(c, from) && Known(c, to)
    ensures Convert(c, divide, amount, from, to)
         == Ok(Computed(divide, amount, NormalizeCode(from).value, NormalizeCode(to).value,
                        c.base, RateFor(c, from), RateFor(c, to)))
  {
    assert Times(amount, 1.0) == amount;
  }

  lemma ComputedWithin(divide: Divide, e: real, amount: real, from: string, to: string,
                       base: string, ra: real, rb: real)
    requires Accurate(divide, e) && ra > 0.0 && rb > 0.0 && (from == to ==> ra == rb) && (to == base ==> rb == 1.0)
    ensures Abs(Computed(divide, amount, from, to, base, ra, rb) - Quotient(Times(amount, ra), rb)) <= e
    ensures amount == 0.0 ==> Computed(divide, amount, from, to, base, ra, rb) == 0.0
  {
    ProductOverItself(amount, ra);
    assert amount == 0.0 ==> Times(amount, ra) == 0.0;
  }

  /** Every known conversion multiplies by the source's rate and divides by the target's, within e. */
  lemma ConvertWithin(c: Config, divide: Divide, e: real, amount: real, from: string, to: string)
    requires Sound(c) && Accurate(divide, e) && Known(c, from) && Known(c, to)
    ensures Convert(c, divide, amount, from, to).Ok?
    ensures Abs(Convert(c, divide, amount, from, to).value
                   - Quotient(Times(amount, RateFor(c, from)), RateFor(c, to))) <= e
    ensures amount == 0.0 ==> Convert(c, divide, amount, from, to).value == 0.0
  {
    var f, t := NormalizeCode(from).value, NormalizeCode(to).value;
    RatesArePositive(c, from);
    RatesArePositive(c, to);
    ConvertComputes(c, divide, amount, from, to);
    ComputedWithin(divide, e, amount, f, t, c.base, RateFor(c, from), RateFor(c, to));
  }

  lemma ExactDivision()
    ensures Accurate(Quotient, 0.0)
  {
    forall y | y != 0.0
      ensures Quotient(0.0, y) == 0.0
    {
      DivideBack(0.0, y);
      NoZeroDivisor(Quotient(0.0, y), y);
    }
  }

  lemma ExactConvert(c: Config, amount: real, from: string, to: string)
    requires Sound(c) && Known(c, from) && Known(c, to)
    ensures Convert(c, Quotient, amount, from, to) == Ok(Quotient(Times(amount, RateFor(c, from)), RateFor(c, to)))
  {
    ExactDivision();
    ConvertWithin(c, Quotient, 0.0, amount, from, to);
  }

  /** In exact arithmetic the route does not matter: by way of any known currency, or directly. */
  lemma PathIndependent(c: Config, amount: real, a: string, b: string, d: string)
    requires Sound(c) && Known(c, a) && Known(c, b) && Known(c, d)
    ensures var via := Convert(c, Quotient, amount, a, b);
            via.Ok? && Convert(c, Quotient, via.value, b, d) == Convert(c, Quotient, amount, a, d)
  {
    var via := Convert(c, Quotient, amount, a, b);
    ExactConvert(c, amount, a, b);
    ExactConvert(c, via.value, b, d);
    ExactConvert(c, amount, a, d);
    RatesArePositive(c, b);
    TimesBack(Times(amount, RateFor(c, a)), RateFor(c, b));
  }

  /** Conversion along a route of codes, one after the other. */
  function Routed(c: Config, divide: Divide, amount: real, from: string, route: seq<string>): Result<real>
    decreases |route|
  {
    if route == [] then Ok(amount)
    else
      var step := Convert(c, divide, amount, from, route[0]);
      if step.Err? then step else Routed(c, divide, step.value, route[0], route[1..])
  }

  /** So along any route of known currencies the amount comes out as converted directly to the last. */
  lemma {:induction false} RouteIndependent(c: Config, amount: real, from: string, route: seq<string>)
    requires Sound(c) && Known(c, from) && route != [] && forall code <- route :: Known(c, code)
    ensures Routed(c, Quotient, amount, from, route) == Convert(c, Quotient, amount, from, route[|route| - 1])
    decreases |route|
  {
    var step := Convert(c, Quotient, amount, from, route[0]);
    ExactConvert(c, amount, from, route[0]);
    if |route| > 1 {
      RouteIndependent(c, step.value, route[0], route[1..]);
      PathIndependent(c, amount, from, route[0], route[|route| - 1]);
    }
  }

  lemma TimesBack(x: real, y: real)
    requires y != 0.0
    ensures Times(Quotient(x, y), y) == x
  {
    DivideBack(x, y);
  }

  /** There and back again differs from the start by at most e * (rateB / rateA + 1). */
  lemma RoundTripWithin(c: Config, divide: Divide, e: real, amount: real, a: string, b: string)
    requires Sound(c) && Accurate(divide, e) && Known(c, a) && Known(c, b)
    ensures var there := Convert(c, divide, amount, a, b);
            there.Ok? &&
            var back := Convert(c, divide, there.value, b, a);
            back.Ok? && Abs(back.value - amount) <= Bound(e, RateFor(c, a), RateFor(c, b))
  {
    ConvertWithin(c, divide, e, amount, a, b);
    var x := Convert(c, divide, amount, a, b).value;
    ConvertWithin(c, divide, e, x, b, a);
    RatesArePositive(c, a);
    RatesArePositive(c, b);
    RoundTripError(amount, x, Convert(c, divide, x, b, a).value, RateFor(c, a), RateFor(c, b), e);
  }

  function Bound(e: real, ra: real, rb: real): real { e * (Quotient(rb, ra) + 1.0) }

  lemma RoundTripError(amount: real, x: real, y: real, ra: real, rb: real, e: real)
    requires ra > 0.0 && rb > 0.0 && 0.0 <= e
    requires Abs(x - Quotient(Times(amount, ra), rb)) <= e && Abs(y - Quotient(Times(x, rb), ra)) <= e
    ensures Abs(y - amount) <= Bound(e, ra, rb)
  {
    var k, start := Quotient(rb, ra), Quotient(Times(amount, ra), rb);
    PositiveRatio(rb, ra);
    Associate(x, rb, ra);
    Associate(start, rb, ra);
    DivideBack(Times(amount, ra), rb);
    ProductOverItself(amount, ra);
    assert Times(start, rb) == Times(amount, ra);
    AddErrors(amount, x, start, y, k, e);
  }

  lemma AddErrors(amount: real, x: real, start: real, y: real, k: real, e: real)
    requires k > 0.0 && Abs(x - start) <= e && Abs(y - Times(x, k)) <= e && Times(start, k) == amount
    ensures Abs(y - amount) <= e * (k + 1.0)
  {
    ScaledError(x - start, k, e);
    assert (x - start) * k == x * k - start * k;
    assert e * (k + 1.0) == e * k + e;
  }

  lemma PositiveRatio(a: real, b: real)
    requires a > 0.0 && b > 0.0
    ensures Quotient(a, b) > 0.0
  {
    DivideBack(a, b);
  }

  lemma Associate(x: real, a: real, b: real)
    requires b > 0.0
    ensures Quotient(Times(x, a), b) == Times(x, Quotient(a, b))
  {
    DivideBack(a, b);
    ProductOverItself(x * Quotient(a, b), b);
    assert x * Quotient(a, b) * b == x * a;
  }

  lemma ScaledError(d: real, k: real, e: real)
    requires Abs(d) <= e && k > 0.0
    ensures Abs(d * k) <= e * k
  {
    assert (e - d) * k >= 0.0;
    assert (e + d) * k >= 0.0;
  }

  // ---- orders ----

  /** The money fields of an order. */
  class Order {
    var amount: real
    var currency: string
    var originalAmount: real
    var originalCurrency: string
    var fxRate: real

    constructor (amount: real, currency: string)
      ensures this.amount == amount && this.currency == currency
    {
      this.amount, this.currency := amount, currency;
      originalAmount, originalCurrency, fxRate := 0.0, "", 0.0;
    }

    function View(): Money
      reads this
    {
      Money(amount, currency, originalAmount, originalCurrency, fxRate)
    }
  }

  /** The fields as a value. */
  datatype Money = Money(amount: real, currency: string, originalAmount: real, originalCurrency: string, fxRate: real)

  /** What ApplyCurrency makes of them; on error the snapshot is cleared and the rest untouched. */
  function Applied(c: Config, divide: Divide, m: Money, rawTarget: string): (Money, Option<Error>) {
    var target := Folded(rawTarget);
    var snapshot := m.(originalAmount := m.amount, originalCurrency := m.currency, fxRate := 1.0);
    if target == "" || target == m.currency then (snapshot, None)
    else
      var converted := Convert(c, divide, m.amount, m.currency, target);
      if converted.Err? then (m.(originalAmount := 0.0, originalCurrency := "", fxRate := 0.0), Some(converted.error))
      else
        (Money(converted.value, target, m.amount, m.currency,
               if m.amount == 0.0 then 1.0 else divide(converted.value, m.amount)), None)
  }

  /** Converts the order, or on error leaves amount and currency alone with the snapshot cleared. */
  method ApplyCurrency(c: Config, divide: Divide, order: Order, rawTarget: string) returns (error: Option<Error>)
    modifies order
    ensures (order.View(), error) == Applied(c, divide, old(order.View()), rawTarget)
    ensures error.Some? ==> order.amount == old(order.amount) && order.currency == old(order.currency)
    ensures error.Some? ==> order.originalAmount == 0.0 && order.originalCurrency == "" && order.fxRate == 0.0
    ensures var target := Folded(rawTarget);
            if target == "" || target == old(order.currency)
            then
              && error.None? && order.amount == old(order.amount) && order.currency == old(order.currency)
              && order.fxRate == 1.0
            else
              var converted := Convert(c, divide, old(order.amount), old(order.currency), target);
              && (error.Some? <==> converted.Err?)
              && (converted.Ok? ==>
                    && order.amount == converted.value && order.currency == target
                    && order.fxRate == if old(order.amount) == 0.0 then 1.0
                                       else divide(converted.value, old(order.amount)))
    ensures error.None? ==> order.originalAmount == old(order.amount) && order.originalCurrency == old(order.currency)
    ensures error.None? && (Sound(c) || old(order.amount) != 0.0) ==>
              forall e :: Accurate(divide, e) ==> Reproduces(order.amount, order.originalAmount, order.fxRate, e)
  {
    var target := Folded(rawTarget);
    forall e | Accurate(divide, e) && (Sound(c) || order.amount != 0.0)
      ensures var (m, error) := Applied(c, divide, order.View(), rawTarget);
              error.None? ==> Reproduces(m.amount, m.originalAmount, m.fxRate, e)
    {
      AppliedReproduces(c, divide, e, order.View(), rawTarget);
    }
    order.originalAmount := order.amount;
    order.originalCurrency := order.currency;
    order.fxRate := 1.0;
    if target == "" || target == order.currency {
      return None;
    }
    var converted := Convert(c, divide, order.amount, order.currency, target);
    if converted.Err? {
      order.originalAmount := 0.0;
      order.originalCurrency := "";
      order.fxRate := 0.0;
      return Some(converted.error);
    }
    if order.originalAmount != 0.0 {
      order.fxRate := divide(converted.value, order.originalAmount);
    }
    order.amount := converted.value;
    order.currency := target;
    return None;
  }

  /** The snapshot reproduces the amount, an amount of zero included when the configuration is sound. */
  lemma AppliedReproduces(c: Config, divide: Divide, e: real, m: Money, rawTarget: string)
    requires Accurate(divide, e) && (Sound(c) || m.amount != 0.0)
    ensures var (m', error) := Applied(c, divide, m, rawTarget);
            error.None? ==> Reproduces(m'.amount, m'.originalAmount, m'.fxRate, e)
  {
    var (m', error) := Applied(c, divide, m, rawTarget);
    UnconvertedReproduces(divide, e, m.amount);
    if error.None? {
      if m.amount != 0.0 {
        SnapshotReproduces(divide, e, m.amount, m'.amount);
      } else {
        ZeroConvertsToZero(c, divide, e, m.currency, Folded(rawTarget));
      }
    }
  }

  lemma ZeroConvertsToZero(c: Config, divide: Divide, e: real, from: string, to: string)
    requires Sound(c) && Accurate(divide, e)
    ensures Convert(c, divide, 0.0, from, to).Ok? ==> Convert(c, divide, 0.0, from, to) == Ok(0.0)
  {
    ConvertSucceedsIff(c, divide, 0.0, from, to);
    if Known(c, from) && Known(c, to) {
      ConvertWithin(c, divide, e, 0.0, from, to);
    }
  }

  /** Original amount times rate is within |original| * e of the amount. */
  ghost predicate Reproduces(amount: real, original: real, rate: real, e: real) {
    Abs(amount - original * rate) <= Abs(original) * e
  }

  lemma SnapshotReproduces(divide: Divide, e: real, original: real, converted: real)
    requires Accurate(divide, e) && original != 0.0
    ensures Reproduces(converted, original, divide(converted, original), e)
  {
    var q, r := Quotient(converted, original), divide(converted, original);
    DivideBack(converted, original);
    assert Abs(r - q) <= e;
    assert converted - original * r == (q - r) * original;
    if original > 0.0 {
      ScaledError(q - r, original, e);
    } else {
      ScaledError(q - r, -original, e);
      assert (q - r) * -original == -((q - r) * original);
    }
  }

  lemma UnconvertedReproduces(divide: Divide, e: real, amount: real)
    requires Accurate(divide, e)
    ensures Reproduces(amount, amount, 1.0, e)
  {
    assert Abs(amount) * e >= 0.0;
  }
}
