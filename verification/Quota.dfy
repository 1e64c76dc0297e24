/** gateway/internal/quota/quota.go: the day and month counters of one user, provider and endpoint,
    each script one atomic step. */
module Quota {

  const DAY_MS := 86400000

  /** A UTC date as the window keys use it: months counted from any origin, days from 1. */
  datatype Date = Date(month: nat, day: nat) {
    predicate Valid() { 1 <= day <= 31 }

    predicate Before(other: Date) { month < other.month || (month == other.month && day < other.day) }
  }

  /** The two counters one request uses. A caller may set the windows apart; left alone they are the
      day it is made and that day's month. */
  datatype Window = Window(day: Date, month: nat)

  function Current(d: Date): Window { Window(d, d.month) }

  /** An absent key counts as zero. */
  datatype Counters = Counters(days: map<Date, int>, months: map<nat, int>) {
    function Day(d: Date): int { if d in days then days[d] else 0 }

    function Month(m: nat): int { if m in months then months[m] else 0 }

    function With(k: Window, day: int, month: int): Counters {
      Counters(days[k.day := day], months[k.month := month])
    }
  }

  /** A limit of zero or less is no limit. */
  datatype Limits = Limits(day: int, month: int)

  datatype Decision = Allow | SoftLimit | HardLimit

  datatype Result = EmptyUser | Checked(decision: Decision, dayUsed: int, monthUsed: int, retryAfterMs: int)

  datatype Event =
    | Check(at: Window, weight: int)
    | Refund(at: Window, weight: int)

  const NOTHING := Counters(map[], map[])

  function Weight(w: int): int { if w <= 0 then 1 else w }

  function Min(a: int, b: int): int { if a < b then a else b }

  /** What a refund takes off a counter: never below zero. */
  function Taken(weight: int, used: int): int { if Min(weight, used) > 0 then Min(weight, used) else 0 }

  predicate Exceeds(used: int, limit: int) { limit > 0 && used > limit }

  predicate OverLimit(c: Counters, l: Limits, k: Window, w: int) {
    Exceeds(c.Day(k.day) + Weight(w), l.day) || Exceeds(c.Month(k.month) + Weight(w), l.month)
  }

  function AfterCheck(c: Counters, l: Limits, k: Window, w: int): Counters {
    if OverLimit(c, l, k, w) then c.With(k, c.Day(k.day), c.Month(k.month))
    else c.With(k, c.Day(k.day) + Weight(w), c.Month(k.month) + Weight(w))
  }

  function AfterRefund(c: Counters, k: Window, w: int): Counters {
    c.With(k, c.Day(k.day) - Taken(Weight(w), c.Day(k.day)), c.Month(k.month) - Taken(Weight(w), c.Month(k.month)))
  }

  function Next(c: Counters, l: Limits, e: Event): Counters {
    match e
    case Check(k, w) => AfterCheck(c, l, k, w)
    case Refund(k, w) => AfterRefund(c, k, w)
  }

  function Run(l: Limits, es: seq<Event>): Counters {
    if es == [] then NOTHING else Next(Run(l, es[..|es| - 1]), l, es[|es| - 1])
  }

  // ---- any windows ----

  ghost predicate WithinLimits(c: Counters, l: Limits) {
    && (forall d :: 0 <= c.Day(d) && !Exceeds(c.Day(d), l.day))
    && forall m :: 0 <= c.Month(m) && !Exceeds(c.Month(m), l.month)
  }

  lemma StepWithinLimits(c: Counters, l: Limits, e: Event)
    requires WithinLimits(c, l)
    ensures WithinLimits(Next(c, l, e), l)
  {
    var k, c' := e.at, Next(c, l, e);
    assert 0 <= c.Day(k.day) && !Exceeds(c.Day(k.day), l.day);
    assert 0 <= c.Month(k.month) && !Exceeds(c.Month(k.month), l.month);
    forall d
      ensures 0 <= c'.Day(d) && !Exceeds(c'.Day(d), l.day)
    {
      assert 0 <= c.Day(d) && !Exceeds(c.Day(d), l.day);
    }
    forall m
      ensures 0 <= c'.Month(m) && !Exceeds(c'.Month(m), l.month)
    {
      assert 0 <= c.Month(m) && !Exceeds(c.Month(m), l.month);
    }
  }

  /** Over every run of checks and refunds on any windows in any order, no counter is negative or passes
      its limit. */
  lemma {:induction false} EveryRunWithinLimits(l: Limits, es: seq<Event>)
    ensures WithinLimits(Run(l, es), l)
  {
    if es != [] {
      EveryRunWithinLimits(l, es[..|es| - 1]);
      StepWithinLimits(Run(l, es[..|es| - 1]), l, es[|es| - 1]);
    }
  }

  // ---- current windows ----

  /** Every window is the current one, and the dates never go back. */
  ghost predicate Forward(es: seq<Event>) {
    && (forall e <- es :: e.at.day.Valid() && e.at == Current(e.at.day))
    && forall i, j :: 0 <= i < j < |es| ==> !es[j].at.day.Before(es[i].at.day)
  }

  /** The sum of the month's day counters, days 1 to n. */
  function SumDays(c: Counters, m: nat, n: nat): int {
    if n == 0 then 0 else SumDays(c, m, n - 1) + c.Day(Date(m, n))
  }

  ghost predicate Invariant(c: Counters, l: Limits, today: Date) {
    && (forall d :: 0 <= c.Day(d) && !Exceeds(c.Day(d), l.day))
    && (forall m :: 0 <= c.Month(m) <= SumDays(c, m, 31) && !Exceeds(c.Month(m), l.month))
    && c.Day(today) <= c.Month(today.month)
    && (forall d: Date :: today.Before(d) ==> c.Day(d) == 0)
  }

  lemma {:induction false} SumChange(c: Counters, k: Window, day: int, month: int, m: nat, n: nat)
    requires k.day.Valid()
    ensures SumDays(c.With(k, day, month), m, n)
         == SumDays(c, m, n) + if m == k.day.month && k.day.day <= n then day - c.Day(k.day) else 0
  {
    if n > 0 {
      SumChange(c, k, day, month, m, n - 1);
    }
  }

  lemma {:induction false} SumCovers(c: Counters, d: Date, n: nat)
    requires forall x :: 0 <= c.Day(x)
    ensures 0 <= SumDays(c, d.month, n)
    ensures 1 <= d.day <= n ==> c.Day(d) <= SumDays(c, d.month, n)
  {
    if n > 0 {
      SumCovers(c, d, n - 1);
      assert d.day == n ==> d == Date(d.month, n);
    }
  }

  /** New values for one day and its month keep the invariant when they stay within these bounds. */
  lemma WithKeeps(c: Counters, l: Limits, today: Date, d: Date, day: int, month: int)
    requires Invariant(c, l, today) && d.Valid() && !d.Before(today)
    requires 0 <= day <= month && !Exceeds(day, l.day) && !Exceeds(month, l.month)
    requires month <= SumDays(c, d.month, 31) + day - c.Day(d)
    ensures Invariant(c.With(Current(d), day, month), l, d)
  {
    var c' := c.With(Current(d), day, month);
    forall m: nat
      ensures 0 <= c'.Month(m) <= SumDays(c', m, 31) && !Exceeds(c'.Month(m), l.month)
    {
      SumChange(c, Current(d), day, month, m, 31);
      assert 0 <= c.Month(m) <= SumDays(c, m, 31) && !Exceeds(c.Month(m), l.month);
    }
    forall x: Date
      ensures 0 <= c'.Day(x) && !Exceeds(c'.Day(x), l.day) && (d.Before(x) ==> c'.Day(x) == 0)
    {
      assert 0 <= c.Day(x) && !Exceeds(c.Day(x), l.day) && (today.Before(x) ==> c.Day(x) == 0);
    }
  }

  lemma StepKeeps(c: Counters, l: Limits, today: Date, e: Event)
    requires Invariant(c, l, today) && e.at.day.Valid() && e.at == Current(e.at.day) && !e.at.day.Before(today)
    ensures Invariant(Next(c, l, e), l, e.at.day)
  {
    var d := e.at.day;
    SumCovers(c, d, 31);
    assert 0 <= c.Day(d) && !Exceeds(c.Day(d), l.day);
    assert c.Month(d.month) <= SumDays(c, d.month, 31) && !Exceeds(c.Month(d.month), l.month);
    assert c.Day(d) <= c.Month(d.month) by {
      assert d == today || today.Before(d);
    }
    var c' := Next(c, l, e);
    WithKeeps(c, l, today, d, c'.Day(d), c'.Month(d.month));
  }

  lemma {:induction false} ZeroSums(m: nat, n: nat)
    ensures SumDays(NOTHING, m, n) == 0
  {
    if n > 0 {
      ZeroSums(m, n - 1);
    }
  }

  /** Over every run of checks and refunds whose dates never go back: each day stays within the day
      limit, each month within the month limit and its days' sum, and today's use within this month's. */
  lemma {:induction false} EveryRun(l: Limits, es: seq<Event>)
    requires es != [] && Forward(es)
    ensures Invariant(Run(l, es), l, es[|es| - 1].at.day)
  {
    var front, e := es[..|es| - 1], es[|es| - 1];
    if front == [] {
      forall m: nat
        ensures SumDays(NOTHING, m, 31) == 0
      {
        ZeroSums(m, 31);
      }
      assert Run(l, front) == NOTHING && Invariant(NOTHING, l, e.at.day);
      StepKeeps(NOTHING, l, e.at.day, e);
    } else {
      EveryRun(l, front);
      StepKeeps(Run(l, front), l, front[|front| - 1].at.day, e);
    }
  }

  // ---- past days ----

  /** Each month is exactly the sum of its days. */
  ghost predicate Exact(c: Counters) {
    && (forall d :: 0 <= c.Day(d))
    && forall m :: c.Month(m) == SumDays(c, m, 31)
  }

  lemma ExactDayWithinMonth(c: Counters, d: Date)
    requires Exact(c) && d.Valid()
    ensures c.Day(d) <= c.Month(d.month)
  {
    SumCovers(c, d, 31);
  }

  /** A check keeps each month exact. */
  lemma CheckKeepsExact(c: Counters, l: Limits, d: Date, w: int)
    requires Exact(c) && d.Valid()
    ensures Exact(AfterCheck(c, l, Current(d), w))
  {
    var c' := AfterCheck(c, l, Current(d), w);
    assert 0 <= c.Day(d);
    forall m: nat
      ensures c'.Month(m) == SumDays(c', m, 31)
    {
      SumChange(c, Current(d), c'.Day(d), c'.Month(d.month), m, 31);
      assert c.Month(m) == SumDays(c, m, 31);
    }
    forall x
      ensures 0 <= c'.Day(x)
    {
      assert 0 <= c.Day(x);
    }
  }

  /** On any windows: an admitted check keeps them exact iff its month is its day's. The service reads the clock once
      for each window, so that a check at the turn of a month may take the old day and the new month. */
  lemma CheckKeepsExactIff(c: Counters, l: Limits, k: Window, w: int)
    requires Exact(c) && k.day.Valid() && !OverLimit(c, l, k, w)
    ensures Exact(AfterCheck(c, l, k, w)) <==> k.month == k.day.month
  {
    var c' := AfterCheck(c, l, k, w);
    if k.month == k.day.month {
      assert k == Current(k.day);
      CheckKeepsExact(c, l, k.day, w);
    } else {
      SumChange(c, k, c'.Day(k.day), c'.Month(k.month), k.month, 31);
      assert c'.Month(k.month) == c.Month(k.month) + Weight(w) && c.Month(k.month) == SumDays(c, k.month, 31);
    }
  }

  /** How far these events may have moved month m apart from its days: the checks counted on m with another month's
      day, and the refunds of m's days counted on another month. */
  function Drift(es: seq<Event>, m: nat): nat {
    if es == [] then 0 else Drift(es[..|es| - 1], m) + DriftOf(es[|es| - 1], m)
  }

  function DriftOf(e: Event, m: nat): nat {
    match e
    case Check(k, w) => if k.month == m && k.day.month != m then Weight(w) else 0
    case Refund(k, w) => if k.month != m && k.day.month == m then Weight(w) else 0
  }

  lemma DriftStep(c: Counters, l: Limits, e: Event, m: nat)
    requires WithinLimits(c, l) && e.at.day.Valid()
    ensures SumDays(Next(c, l, e), m, 31) - Next(c, l, e).Month(m)
         >= Min(SumDays(c, m, 31) - c.Month(m), 0) - DriftOf(e, m)
  {
    var k, c' := e.at, Next(c, l, e);
    assert 0 <= c.Day(k.day) && 0 <= c.Month(k.month) && 0 <= c.Month(m);
    SumChange(c, k, c'.Day(k.day), c'.Month(k.month), m, 31);
    StepWithinLimits(c, l, e);
    NoNegativeSum(c', l, m, 31);
  }

  lemma {:induction false} NoNegativeSum(c: Counters, l: Limits, m: nat, n: nat)
    requires WithinLimits(c, l)
    ensures 0 <= SumDays(c, m, n)
  {
    if n > 0 {
      NoNegativeSum(c, l, m, n - 1);
      assert 0 <= c.Day(Date(m, n));
    }
  }

  /** Over every run on any windows in any order a month exceeds the sum of its days by its drift at most; with current
      windows there is none. */
  lemma {:induction false} MonthWithinDaysAndDrift(l: Limits, es: seq<Event>, m: nat)
    requires forall e <- es :: e.at.day.Valid()
    ensures Run(l, es).Month(m) <= SumDays(Run(l, es), m, 31) + Drift(es, m)
    ensures (forall e <- es :: e.at == Current(e.at.day)) ==> Drift(es, m) == 0
  {
    if es == [] {
      ZeroSums(m, 31);
    } else {
      var front, e := es[..|es| - 1], es[|es| - 1];
      assert e in es && forall x <- front :: x in es;
      MonthWithinDaysAndDrift(l, front, m);
      EveryRunWithinLimits(l, front);
      DriftStep(Run(l, front), l, e, m);
    }
  }

  /** One check at the turn of a month: the new month counts what no day of it does. */
  lemma TurnOfMonthSplits(l: Limits, w: int)
    requires l.day <= 0 && l.month <= 0
    ensures var c := Run(l, [Check(Window(Date(0, 31), 1), w)]);
            c.Month(1) == Weight(w) > 0 && SumDays(c, 1, 31) == 0
  {
    var es := [Check(Window(Date(0, 31), 1), w)];
    assert es[..0] == [];
    assert Run(l, es) == Next(Run(l, es[..0]), l, es[0]);
    SumChange(NOTHING, es[0].at, Weight(w), Weight(w), 1, 31);
    ZeroSums(1, 31);
  }

  /** A refund keeps them exact iff its day still holds its weight, or the whole of its month. */
  lemma RefundKeepsExactIff(c: Counters, d: Date, w: int)
    requires Exact(c) && d.Valid()
    ensures Exact(AfterRefund(c, Current(d), w)) <==> Weight(w) <= c.Day(d) || c.Day(d) == c.Month(d.month)
  {
    var c' := AfterRefund(c, Current(d), w);
    ExactDayWithinMonth(c, d);
    assert 0 <= c.Day(d);
    SumChange(c, Current(d), c'.Day(d), c'.Month(d.month), d.month, 31);
    if Weight(w) <= c.Day(d) || c.Day(d) == c.Month(d.month) {
      forall m: nat
        ensures c'.Month(m) == SumDays(c', m, 31)
      {
        SumChange(c, Current(d), c'.Day(d), c'.Month(d.month), m, 31);
        assert c.Month(m) == SumDays(c, m, 31);
      }
      forall x
        ensures 0 <= c'.Day(x)
      {
        assert 0 <= c.Day(x);
      }
    } else {
      assert c'.Month(d.month) != SumDays(c', d.month, 31);
    }
  }

  /** After a refund another day of its month lies within the month iff the month had that much to spare. */
  lemma PastDayWithinMonthIff(c: Counters, d: Date, w: int, x: Date)
    requires 0 <= c.Month(d.month) && x.month == d.month && x != d
    ensures var c' := AfterRefund(c, Current(d), w);
            c'.Day(x) <= c'.Month(d.month) <==> Min(Weight(w), c.Month(d.month)) <= c.Month(d.month) - c.Day(x)
  {}

  /** So "day within month" holds of today only: a refund on the next day empties the month, not the day before. */
  lemma PastDayMayExceedItsMonth()
    ensures var c := Run(Limits(0, 0), [Check(Current(Date(0, 1)), 5), Refund(Current(Date(0, 2)), 5)]);
            c.Day(Date(0, 1)) == 5 && c.Month(0) == 0
  {
    var check, refund := Check(Current(Date(0, 1)), 5), Refund(Current(Date(0, 2)), 5);
    var first, both := [check], [check, refund];
    assert first[..0] == [] && both[..1] == first;
    assert Run(Limits(0, 0), first) == Next(Run(Limits(0, 0), first[..0]), Limits(0, 0), first[0]);
    assert Run(Limits(0, 0), both) == Next(Run(Limits(0, 0), both[..1]), Limits(0, 0), both[1]);
  }

  // ---- the limits, spelled out ----

  /** A check of a positive weight counts nothing iff it would take a positive limit's counter past it. */
  lemma CountsNothingIff(c: Counters, l: Limits, k: Window, w: int)
    requires 0 < w
    ensures AfterCheck(c, l, k, w).Day(k.day) == c.Day(k.day)
       <==> 0 < l.day < c.Day(k.day) + w || 0 < l.month < c.Month(k.month) + w
    ensures AfterCheck(c, l, k, w).Month(k.month) == c.Month(k.month)
       <==> 0 < l.day < c.Day(k.day) + w || 0 < l.month < c.Month(k.month) + w
  {}

  /** What a check adds when it does, and that nothing else moves; a weight below one counts as one. */
  lemma CheckAdds(c: Counters, l: Limits, k: Window, w: int)
    ensures var c' := AfterCheck(c, l, k, w);
            && c'.Day(k.day) - c.Day(k.day) == c'.Month(k.month) - c.Month(k.month)
            && c'.Day(k.day) - c.Day(k.day) in {0, if 1 <= w then w else 1}
            && (forall d :: d != k.day ==> c'.Day(d) == c.Day(d))
            && forall m :: m != k.month ==> c'.Month(m) == c.Month(m)
  {}

  /** What a refund takes: never more than the weight or what is there, and one of the two exactly. */
  lemma RefundTakes(c: Counters, k: Window, w: int)
    requires 0 <= c.Day(k.day) && 0 <= c.Month(k.month)
    ensures var c', weight := AfterRefund(c, k, w), if 1 <= w then w else 1;
            && 0 <= c'.Day(k.day) && 0 <= c'.Month(k.month)
            && (c.Day(k.day) - c'.Day(k.day) == weight || (c'.Day(k.day) == 0 && c.Day(k.day) <= weight))
            && (c.Month(k.month) - c'.Month(k.month) == weight
               || (c'.Month(k.month) == 0 && c.Month(k.month) <= weight))
            && (forall d :: d != k.day ==> c'.Day(d) == c.Day(d))
            && forall m :: m != k.month ==> c'.Month(m) == c.Month(m)
  {}

  /** n checks of one day, a unit each. */
  function Units(d: Date, n: nat): seq<Event> {
    if n == 0 then [] else Units(d, n - 1) + [Check(Current(d), 1)]
  }

  /** A run reaches positive limits exactly: the day's whole limit is counted when the month has as much. */
  lemma {:induction false} LimitIsReached(l: Limits, d: Date, n: nat)
    requires 0 < l.day <= l.month && n <= l.day
    ensures Run(l, Units(d, n)).Day(d) == n && Run(l, Units(d, n)).Month(d.month) == n
  {
    if n > 0 {
      LimitIsReached(l, d, n - 1);
      assert Units(d, n)[..|Units(d, n)| - 1] == Units(d, n - 1);
    }
  }

  // ---- one check, one refund ----

  /** A hard-limit answer leaves every counter as it was. */
  lemma HardLimitChangesNothing(c: Counters, l: Limits, k: Window, w: int)
    ensures OverLimit(c, l, k, w)
       <==> AfterCheck(c, l, k, w).Day(k.day) == c.Day(k.day)
            && AfterCheck(c, l, k, w).Month(k.month) == c.Month(k.month)
    ensures OverLimit(c, l, k, w) ==>
              && (forall x :: AfterCheck(c, l, k, w).Day(x) == c.Day(x))
              && (forall m :: AfterCheck(c, l, k, w).Month(m) == c.Month(m))
  {}

  /** A refund in the same windows undoes an admitted check of that weight. */
  lemma RefundUndoesCheck(c: Counters, l: Limits, k: Window, w: int, x: Date, m: nat)
    requires 0 <= c.Day(k.day) && 0 <= c.Month(k.month) && !OverLimit(c, l, k, w)
    ensures var c' := AfterRefund(AfterCheck(c, l, k, w), k, w);
            c'.Day(x) == c.Day(x) && c'.Month(m) == c.Month(m)
  {}

  class Service {
    var days: map<Date, int>
    var months: map<nat, int>

    ghost function View(): Counters
      reads this
    {
      Counters(days, months)
    }

    constructor ()
      ensures View() == NOTHING
    {
      days, months := map[], map[];
    }

    method IncrDay(d: Date, delta: int) returns (used: int)
      modifies this`days
      ensures used == old(View()).Day(d) + delta && days == old(days)[d := used]
    {
      used := (if d in days then days[d] else 0) + delta;
      days := days[d := used];
    }

    method IncrMonth(m: nat, delta: int) returns (used: int)
      modifies this`months
      ensures used == old(View()).Month(m) + delta && months == old(months)[m := used]
    {
      used := (if m in months then months[m] else 0) + delta;
      months := months[m := used];
    }

    /** checkLuaScript, one atomic step: both counters up, and down again past a hard limit. */
    method CheckScript(k: Window, weight: int, l: Limits, softPct: int)
      returns (decision: Decision, dayUsed: int, monthUsed: int)
      requires 0 < weight
      modifies this
      ensures View() == AfterCheck(old(View()), l, k, weight)
      ensures dayUsed == View().Day(k.day) && monthUsed == View().Month(k.month)
      ensures decision == HardLimit <==> OverLimit(old(View()), l, k, weight)
      ensures decision == HardLimit
         <==> 0 < l.day < old(View()).Day(k.day) + weight || 0 < l.month < old(View()).Month(k.month) + weight
      ensures decision != HardLimit ==>
                (decision == SoftLimit <==> softPct > 0 && l.month > 0 && monthUsed * 100 > l.month * softPct)
    {
      dayUsed := IncrDay(k.day, weight);
      monthUsed := IncrMonth(k.month, weight);
      if (l.day > 0 && dayUsed > l.day) || (l.month > 0 && monthUsed > l.month) {
        dayUsed := IncrDay(k.day, -weight);
        monthUsed := IncrMonth(k.month, -weight);
        return HardLimit, dayUsed, monthUsed;
      }
      if softPct > 0 && l.month > 0 && monthUsed * 100 > l.month * softPct {
        return SoftLimit, dayUsed, monthUsed;
      }
      return Allow, dayUsed, monthUsed;
    }

    /** A refusal waits until midnight UTC, a soft limit five to thirty seconds. */
    method CheckAndConsume(user: string, k: Window, nowMs: int, rawWeight: int, l: Limits, softPct: int)
      returns (r: Result)
      modifies this
      ensures user == "" ==> r == EmptyUser && View() == old(View())
      ensures user != "" ==> r.Checked? && View() == AfterCheck(old(View()), l, k, rawWeight)
      ensures user != "" ==> r.dayUsed == View().Day(k.day) && r.monthUsed == View().Month(k.month)
      ensures user != "" ==> (r.decision == HardLimit <==> OverLimit(old(View()), l, k, rawWeight))
      ensures user != "" ==>
                var weight := if 1 <= rawWeight then rawWeight else 1;
                r.decision == HardLimit
                <==> 0 < l.day < old(View()).Day(k.day) + weight || 0 < l.month < old(View()).Month(k.month) + weight
      ensures user != "" && r.decision != HardLimit ==>
                (r.decision == SoftLimit <==> softPct > 0 && l.month > 0 && r.monthUsed * 100 > l.month * softPct)
      ensures user != "" ==> match r.decision
                             case HardLimit => 0 < r.retryAfterMs <= DAY_MS && (nowMs + r.retryAfterMs) % DAY_MS == 0
                             case SoftLimit =>
                               && 5000 <= r.retryAfterMs <= 30000 && l.month > 0
                               && r.retryAfterMs == (5000.0 + (r.monthUsed as real / l.month as real) * 25000.0).Floor
                             case Allow => r.retryAfterMs == 0
    {
      if user == "" {
        return EmptyUser;
      }
      var weight := if rawWeight <= 0 then 1 else rawWeight;
      var decision, dayUsed, monthUsed := CheckScript(k, weight, l, softPct);
      var retryAfterMs := 0;
      if decision == HardLimit {
        ToMidnight(nowMs);
        var nextDay := nowMs - nowMs % DAY_MS + DAY_MS;
        retryAfterMs := nextDay - nowMs;
      } else if decision == SoftLimit {
        retryAfterMs := SoftBackoff(monthUsed, l.month, softPct);
      }
      return Checked(decision, dayUsed, monthUsed, retryAfterMs);
    }

    method Refund(k: Window, rawWeight: int) returns (dayUsed: int, monthUsed: int)
      modifies this
      ensures forall x :: View().Day(x) == AfterRefund(old(View()), k, rawWeight).Day(x)
      ensures forall m :: View().Month(m) == AfterRefund(old(View()), k, rawWeight).Month(m)
      ensures 0 <= old(View()).Day(k.day) ==> dayUsed == View().Day(k.day)
      ensures 0 <= old(View()).Month(k.month) ==> monthUsed == View().Month(k.month)
    {
      var weight := if rawWeight <= 0 then 1 else rawWeight;
      dayUsed := if k.day in days then days[k.day] else 0;
      monthUsed := if k.month in months then months[k.month] else 0;
      var dayDec := Min(weight, dayUsed);
      var monthDec := Min(weight, monthUsed);
      if dayDec > 0 {
        var _ := IncrDay(k.day, -dayDec);
      }
      if monthDec > 0 {
        var _ := IncrMonth(k.month, -monthDec);
      }
      dayUsed, monthUsed := dayUsed - dayDec, monthUsed - monthDec;
    }
  }

  /** A soft limit is answered below the hard limit, so its use ratio lies between 0 and 1. */
  method SoftBackoff(used: int, limit: int, pct: int) returns (ms: int)
    requires pct > 0 && limit > 0 && used * 100 > limit * pct && used <= limit
    ensures ms == (5000.0 + (used as real / limit as real) * 25000.0).Floor && 5000 <= ms <= 30000
  {
    assert limit * pct > 0;
    var ratio := used as real / limit as real;
    assert ratio * limit as real == used as real;
    assert 0.0 < ratio;
    assert ratio <= 1.0;
    ms := (5000.0 + ratio * 25000.0).Floor;
  }

  lemma ToMidnight(nowMs: int)
    ensures var wait := nowMs - nowMs % DAY_MS + DAY_MS - nowMs;
            0 < wait <= DAY_MS && (nowMs + wait) % DAY_MS == 0
  {
    assert nowMs - nowMs % DAY_MS + DAY_MS == DAY_MS * (nowMs / DAY_MS + 1);
  }
}
