/** gateway/internal/quota/quota.go: the counter keys as Redis keeps them, each check putting off their expiry.
    Expiry is proved never to show in the windows a request uses. */
module QuotaExpiry {
  import opened Quota

  const DAY_SECONDS := 86400
  const DAY_TTL := 2 * DAY_SECONDS
  const MONTH_TTL := 35 * DAY_SECONDS

  datatype Key = Key(used: int, expires: int)

  type Keys<K> = map<K, Key>

  /** What INCRBY and GET see: an expired key is gone. */
  function Live<K>(m: Keys<K>, k: K, now: int): int {
    if k in m && now < m[k].expires then m[k].used else 0
  }

  /** INCRBY and EXPIRE. */
  function Incremented<K>(m: Keys<K>, k: K, now: int, delta: int, ttl: int): Keys<K> {
    m[k := Key(Live(m, k, now) + delta, now + ttl)]
  }

  /** DECRBY by no more than is there; the expiry stays. */
  function Decremented<K>(m: Keys<K>, k: K, now: int, weight: int): Keys<K> {
    if Taken(weight, Live(m, k, now)) > 0 then m[k := m[k].(used := m[k].used - Taken(weight, Live(m, k, now)))] else m
  }

  // ---- one kind of window ----

  /** From second 0 on, no window outlives a key set within it. */
  ghost predicate Lasts<K(!new)>(window: int -> K, ttl: int) {
    forall s, t :: 0 <= s <= t && window(s) == window(t) ==> t < s + ttl
  }

  /** From clock on, the current window's live key holds its count. */
  ghost predicate Agrees<K(!new)>(m: Keys<K>, window: int -> K, count: K -> int, clock: int) {
    forall now :: clock <= now ==> Live(m, window(now), now) == count(window(now))
  }

  lemma IncrementAgrees<K(!new)>(m: Keys<K>, window: int -> K, count: K -> int, count': K -> int,
                                clock: int, now: int, delta: int, ttl: int)
    requires Agrees(m, window, count, clock) && Lasts(window, ttl) && clock <= now && 0 <= now
    requires forall k :: count'(k) == count(k) + if k == window(now) then delta else 0
    ensures Agrees(Incremented(m, window(now), now, delta, ttl), window, count', now)
  {
    forall t | now <= t
      ensures Live(Incremented(m, window(now), now, delta, ttl), window(t), t) == count'(window(t))
    {
      assert Live(m, window(t), t) == count(window(t));
    }
  }

  lemma DecrementAgrees<K(!new)>(m: Keys<K>, window: int -> K, count: K -> int, count': K -> int,
                                clock: int, now: int, weight: int)
    requires Agrees(m, window, count, clock) && clock <= now
    requires forall k :: count'(k) == count(k) - if k == window(now) then Taken(weight, count(k)) else 0
    ensures Agrees(Decremented(m, window(now), now, weight), window, count', now)
  {
    assert Live(m, window(now), now) == count(window(now));
    forall t | now <= t
      ensures Live(Decremented(m, window(now), now, weight), window(t), t) == count'(window(t))
    {
      assert Live(m, window(t), t) == count(window(t));
    }
  }

  // ---- the scripts, by the clock ----

  datatype Store = Store(days: Keys<Date>, months: Keys<nat>)

  datatype Timed =
    | CheckAt(now: int, weight: int)
    | RefundAt(now: int, weight: int)

  /** The UTC date of a second. */
  type Calendar = int -> Date

  /** From second 0 on, days are at most a day long and months at most thirty-one. */
  ghost predicate Regular(calendar: Calendar) {
    && (forall s, t :: 0 <= s <= t && calendar(s) == calendar(t) ==> t - s < DAY_SECONDS)
    && forall s, t :: 0 <= s <= t && calendar(s).month == calendar(t).month ==> t - s < 31 * DAY_SECONDS
  }

  function EventOf(calendar: Calendar, e: Timed): Event {
    match e
    case CheckAt(now, w) => Check(Current(calendar(now)), w)
    case RefundAt(now, w) => Refund(Current(calendar(now)), w)
  }

  function EventsOf(calendar: Calendar, es: seq<Timed>): seq<Event> {
    seq(|es|, i requires 0 <= i < |es| => EventOf(calendar, es[i]))
  }

  function LiveCounters(s: Store, d: Date, now: int): Counters {
    Counters(map[d := Live(s.days, d, now)], map[d.month := Live(s.months, d.month, now)])
  }

  /** What a check adds to its two counters: nothing past a limit. */
  function Gain(c: Counters, l: Limits, k: Window, w: int): int { if OverLimit(c, l, k, w) then 0 else Weight(w) }

  lemma CheckGains(c: Counters, l: Limits, k: Window, w: int)
    ensures forall d :: AfterCheck(c, l, k, w).Day(d) == c.Day(d) + if d == k.day then Gain(c, l, k, w) else 0
    ensures forall m :: AfterCheck(c, l, k, w).Month(m) == c.Month(m) + if m == k.month then Gain(c, l, k, w) else 0
  {}

  function NextStore(s: Store, calendar: Calendar, l: Limits, e: Timed): Store {
    var d, w := calendar(e.now), Weight(e.weight);
    match e
    case CheckAt(now, _) =>
      var delta := Gain(LiveCounters(s, d, now), l, Current(d), w);
      Store(Incremented(s.days, d, now, delta, DAY_TTL), Incremented(s.months, d.month, now, delta, MONTH_TTL))
    case RefundAt(now, _) => Store(Decremented(s.days, d, now, w), Decremented(s.months, d.month, now, w))
  }

  function RunStore(calendar: Calendar, l: Limits, es: seq<Timed>): Store {
    if es == [] then Store(map[], map[])
    else NextStore(RunStore(calendar, l, es[..|es| - 1]), calendar, l, es[|es| - 1])
  }

  function DayCount(c: Counters): Date -> int { (d: Date) => c.Day(d) }

  function MonthCount(c: Counters): nat -> int { (m: nat) => c.Month(m) }

  function MonthOf(calendar: Calendar): int -> nat { (t: int) => calendar(t).month }

  /** Both current counters, at any moment from clock on, are those of the counters that never expire. */
  ghost predicate Refines(s: Store, c: Counters, calendar: Calendar, clock: int) {
    Agrees(s.days, calendar, DayCount(c), clock) && Agrees(s.months, MonthOf(calendar), MonthCount(c), clock)
  }

  /** The scripts read the current counters as if keys never expired. */
  lemma ReadsAlike(s: Store, c: Counters, calendar: Calendar, clock: int, now: int)
    requires Refines(s, c, calendar, clock) && clock <= now
    ensures Live(s.days, calendar(now), now) == c.Day(calendar(now))
    ensures Live(s.months, calendar(now).month, now) == c.Month(calendar(now).month)
  {
    assert MonthOf(calendar)(now) == calendar(now).month;
  }

  lemma CheckRefines(s: Store, c: Counters, calendar: Calendar, l: Limits, clock: int, now: int, weight: int)
    requires Regular(calendar) && Refines(s, c, calendar, clock) && clock <= now && 0 <= now
    ensures Refines(NextStore(s, calendar, l, CheckAt(now, weight)),
                    AfterCheck(c, l, Current(calendar(now)), weight), calendar, now)
  {
    var d, c' := calendar(now), AfterCheck(c, l, Current(calendar(now)), weight);
    ReadsAlike(s, c, calendar, clock, now);
    CheckGains(c, l, Current(d), weight);
    var delta := Gain(c, l, Current(d), weight);
    assert Gain(LiveCounters(s, d, now), l, Current(d), Weight(weight)) == delta;
    IncrementAgrees(s.days, calendar, DayCount(c), DayCount(c'), clock, now, delta, DAY_TTL);
    assert MonthOf(calendar)(now) == d.month;
    IncrementAgrees(s.months, MonthOf(calendar), MonthCount(c), MonthCount(c'), clock, now, delta, MONTH_TTL);
  }

  lemma RefundRefines(s: Store, c: Counters, calendar: Calendar, l: Limits, clock: int, now: int, weight: int)
    requires Refines(s, c, calendar, clock) && clock <= now
    ensures Refines(NextStore(s, calendar, l, RefundAt(now, weight)),
                    AfterRefund(c, Current(calendar(now)), weight), calendar, now)
  {
    var d, w, c' := calendar(now), Weight(weight), AfterRefund(c, Current(calendar(now)), weight);
    ReadsAlike(s, c, calendar, clock, now);
    assert MonthOf(calendar)(now) == d.month;
    DecrementAgrees(s.days, calendar, DayCount(c), DayCount(c'), clock, now, w);
    DecrementAgrees(s.months, MonthOf(calendar), MonthCount(c), MonthCount(c'), clock, now, w);
  }

  lemma StepRefines(s: Store, c: Counters, calendar: Calendar, l: Limits, clock: int, e: Timed)
    requires Regular(calendar) && Refines(s, c, calendar, clock) && clock <= e.now && 0 <= e.now
    ensures Refines(NextStore(s, calendar, l, e), Next(c, l, EventOf(calendar, e)), calendar, e.now)
  {
    match e
    case CheckAt(now, w) => CheckRefines(s, c, calendar, l, clock, now, w);
    case RefundAt(now, w) => RefundRefines(s, c, calendar, l, clock, now, w);
  }

  /** Over every run on a clock that never runs backwards, at any later moment, the keys alive for the current
      day and month read as the counters that never expire: two days and thirty-five are long enough. */
  lemma {:induction false} ExpiryIsInvisible(calendar: Calendar, l: Limits, es: seq<Timed>, now: int)
    requires Regular(calendar) && forall i, j :: 0 <= i < j < |es| ==> es[i].now <= es[j].now
    requires forall e <- es :: 0 <= e.now <= now
    ensures Refines(RunStore(calendar, l, es), Run(l, EventsOf(calendar, es)), calendar, now)
  {
    if es != [] {
      var front, e := es[..|es| - 1], es[|es| - 1];
      assert e in es;
      ExpiryIsInvisible(calendar, l, front, e.now);
      assert EventsOf(calendar, es)[..|es| - 1] == EventsOf(calendar, front);
      StepRefines(RunStore(calendar, l, front), Run(l, EventsOf(calendar, front)), calendar, l, e.now, e);
    }
  }

  // ---- real calendars ----

  /** starts(m) is the second month m begins, in whole days after month 0 began at second 0. */
  ghost predicate MonthStarts(starts: nat -> int) {
    && starts(0) == 0
    && forall m: nat :: DAY_SECONDS <= starts(m + 1) - starts(m) <= 31 * DAY_SECONDS
  }

  /** The calendar counts months and, from 1, the days of each, as UTC does from any month on. */
  ghost predicate CountsFrom(calendar: Calendar, starts: nat -> int) {
    forall m: nat, t :: starts(m) <= t < starts(m + 1) ==> calendar(t) == Date(m, (t - starts(m)) / DAY_SECONDS + 1)
  }

  ghost function DateAt(starts: nat -> int, t: int): Date {
    if exists m: nat :: starts(m) <= t < starts(m + 1) then
      var m: nat :| starts(m) <= t < starts(m + 1);
      Date(m, (t - starts(m)) / DAY_SECONDS + 1)
    else Date(0, 1)
  }

  /** Any such months have their calendar. */
  lemma CalendarExists(starts: nat -> int)
    requires MonthStarts(starts)
    ensures exists calendar :: CountsFrom(calendar, starts)
  {
    ghost var calendar: Calendar := t => DateAt(starts, t);
    forall m: nat, t | starts(m) <= t < starts(m + 1)
      ensures calendar(t) == Date(m, (t - starts(m)) / DAY_SECONDS + 1)
    {
      forall n: nat | starts(n) <= t < starts(n + 1)
        ensures n == m
      {
        if n < m {
          StartsGrow(starts, n + 1, m);
        } else if m < n {
          StartsGrow(starts, m + 1, n);
        }
      }
    }
    assert CountsFrom(calendar, starts);
  }

  lemma {:induction false} StartsGrow(starts: nat -> int, m: nat, n: nat)
    requires MonthStarts(starts) && m <= n
    ensures starts(m) + (n - m) <= starts(n)
    decreases n
  {
    if m < n {
      StartsGrow(starts, m, n - 1);
      assert DAY_SECONDS <= starts(n - 1 + 1) - starts(n - 1);
    }
  }

  lemma {:induction false} MonthBefore(starts: nat -> int, t: nat, n: nat) returns (m: nat)
    requires MonthStarts(starts) && t < starts(n)
    ensures starts(m) <= t < starts(m + 1)
    decreases n
  {
    if starts(n - 1) <= t {
      m := n - 1;
    } else {
      m := MonthBefore(starts, t, n - 1);
    }
  }

  /** Every second from 0 on lies in one month. */
  lemma MonthOfSecond(starts: nat -> int, t: nat) returns (m: nat)
    requires MonthStarts(starts)
    ensures starts(m) <= t < starts(m + 1)
  {
    StartsGrow(starts, 0, t + 1);
    m := MonthBefore(starts, t, t + 1);
  }

  lemma DateOfSecond(calendar: Calendar, starts: nat -> int, t: nat) returns (m: nat)
    requires MonthStarts(starts) && CountsFrom(calendar, starts)
    ensures starts(m) <= t < starts(m + 1) <= starts(m) + 31 * DAY_SECONDS
    ensures calendar(t) == Date(m, (t - starts(m)) / DAY_SECONDS + 1) && calendar(t).Valid()
  {
    m := MonthOfSecond(starts, t);
    assert starts(m + 1) - starts(m) <= 31 * DAY_SECONDS;
  }

  /** Such a calendar is regular, its dates are valid, and they never go back. */
  lemma CalendarsAreRegular(calendar: Calendar, starts: nat -> int)
    requires MonthStarts(starts) && CountsFrom(calendar, starts)
    ensures Regular(calendar)
    ensures forall t :: 0 <= t ==> calendar(t).Valid()
    ensures forall s, t :: 0 <= s <= t ==> !calendar(t).Before(calendar(s))
  {
    forall t | 0 <= t
      ensures calendar(t).Valid()
    {
      var _ := DateOfSecond(calendar, starts, t);
    }
    forall s, t | 0 <= s <= t
      ensures !calendar(t).Before(calendar(s))
      ensures calendar(s) == calendar(t) ==> t - s < DAY_SECONDS
      ensures calendar(s).month == calendar(t).month ==> t - s < 31 * DAY_SECONDS
    {
      var m := DateOfSecond(calendar, starts, s);
      var n := DateOfSecond(calendar, starts, t);
      if n < m {
        StartsGrow(starts, n + 1, m);
      }
    }
  }

  /** Over every run by a forward clock and such a calendar, at any later moment: the live day and month keys lie
      from zero to their limits, and the day's within the month's. */
  lemma LiveKeysWithinLimits(calendar: Calendar, starts: nat -> int, l: Limits, es: seq<Timed>, now: int)
    requires MonthStarts(starts) && CountsFrom(calendar, starts)
    requires forall i, j :: 0 <= i < j < |es| ==> es[i].now <= es[j].now
    requires es != [] && forall e <- es :: 0 <= e.now <= now
    ensures var s, d := RunStore(calendar, l, es), calendar(now);
            var day, month := Live(s.days, d, now), Live(s.months, d.month, now);
            0 <= day <= month && !Exceeds(day, l.day) && !Exceeds(month, l.month)
  {
    var last := es[|es| - 1];
    assert last in es;
    CalendarsAreRegular(calendar, starts);
    EventsGoForward(calendar, starts, es);
    EveryRun(l, EventsOf(calendar, es));
    CountersWithin(Run(l, EventsOf(calendar, es)), l, calendar(last.now), calendar(now));
    ExpiryIsInvisible(calendar, l, es, now);
    ReadsAlike(RunStore(calendar, l, es), Run(l, EventsOf(calendar, es)), calendar, now, now);
  }

  lemma CountersWithin(c: Counters, l: Limits, today: Date, d: Date)
    requires Invariant(c, l, today) && !d.Before(today)
    ensures 0 <= c.Day(d) <= c.Month(d.month) && !Exceeds(c.Day(d), l.day) && !Exceeds(c.Month(d.month), l.month)
  {
    assert d == today || today.Before(d);
    assert 0 <= c.Day(d) && !Exceeds(c.Day(d), l.day);
    assert 0 <= c.Month(d.month) && !Exceeds(c.Month(d.month), l.month);
  }

  lemma EventsGoForward(calendar: Calendar, starts: nat -> int, es: seq<Timed>)
    requires MonthStarts(starts) && CountsFrom(calendar, starts)
    requires forall i, j :: 0 <= i < j < |es| ==> es[i].now <= es[j].now
    requires forall e <- es :: 0 <= e.now
    ensures Forward(EventsOf(calendar, es))
  {
    CalendarsAreRegular(calendar, starts);
    var events := EventsOf(calendar, es);
    forall i | 0 <= i < |es|
      ensures events[i].at == Current(calendar(es[i].now)) && 0 <= es[i].now
    {
      assert es[i] in es;
    }
  }
}
