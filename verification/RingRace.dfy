/** gateway/internal/gateway/usage_handler.go, advance with its steps apart: the clock is swapped, the buckets are
    cleared one by one, and only then does bucketIdx move, while other calls record. */
module RingRace {
  import UsageRing

  const SIZE := 60

  /** One counter of each bucket. from is the second an advance under way has left, next the first of its clearing
      turns still to come, gap their number. */
  datatype Phase = Idle | Clearing(from: int, next: int, gap: int)

  datatype State = State(counts: seq<int>, bucketIdx: int, lastTick: int, phase: Phase)

  datatype Step =
    | Swap(now: int)  // lastTick moves; the caller goes on to clear
    | Clear           // one turn of the loop
    | Store           // bucketIdx moves, the loop being over
    | Record          // the index is loaded and the counter raised
    | Late(idx: int)  // the counter is raised on an index loaded before

  predicate Valid(s: State) {
    && |s.counts| == SIZE && 0 <= s.bucketIdx && 0 <= s.lastTick
    && (s.phase.Clearing? ==> 0 <= s.phase.from && 1 <= s.phase.next <= s.phase.gap + 1 && 1 <= s.phase.gap <= SIZE)
  }

  /** The bucket of a clearing turn. */
  function BucketOf(from: int, turn: int): int { (from % SIZE + turn) % SIZE }

  function Raised(s: State, b: int): State
    requires |s.counts| == SIZE && 0 <= b < SIZE
  {
    s.(counts := s.counts[b := s.counts[b] + 1])
  }

  function Next(s: State, e: Step): (s': State)
    requires Valid(s)
    ensures Valid(s')
  {
    match e
    case Swap(now) =>
      if s.phase.Idle? && s.lastTick < now then
        var gap := if now - s.lastTick > SIZE then SIZE else now - s.lastTick;
        s.(lastTick := now, phase := Clearing(s.lastTick, 1, gap))
      else s
    case Clear =>
      if s.phase.Clearing? && s.phase.next <= s.phase.gap then
        s.(counts := s.counts[BucketOf(s.phase.from, s.phase.next) := 0], phase := s.phase.(next := s.phase.next + 1))
      else s
    case Store =>
      if s.phase.Clearing? && s.phase.next > s.phase.gap then s.(bucketIdx := s.lastTick, phase := Idle) else s
    case Record => Raised(s, s.bucketIdx % SIZE)
    case Late(idx) => if 0 <= idx then Raised(s, idx % SIZE) else s
  }

  /** The advance under way brought to its end. */
  function Finished(s: State): (s': State)
    requires Valid(s)
    ensures Valid(s') && s'.phase.Idle?
    decreases if s.phase.Clearing? then s.phase.gap + 1 - s.phase.next else 0
  {
    if s.phase.Idle? then s
    else if s.phase.next <= s.phase.gap then Finished(Next(s, Clear))
    else Next(s, Store)
  }

  /** Will the advance under way clear bucket b? */
  predicate ToClear(s: State, b: int) {
    s.phase.Clearing? && exists turn :: s.phase.next <= turn <= s.phase.gap && BucketOf(s.phase.from, turn) == b
  }

  // ---- what is lost ----

  /** When the advance is over, bucket b holds what it held, or nothing if it was still to be cleared. */
  lemma {:induction false} FinishedCounts(s: State, b: int)
    requires Valid(s) && 0 <= b < SIZE
    ensures Finished(s).counts[b] == if ToClear(s, b) then 0 else s.counts[b]
    decreases if s.phase.Clearing? then s.phase.gap + 1 - s.phase.next else 0
  {
    if s.phase.Clearing? && s.phase.next <= s.phase.gap {
      var s' := Next(s, Clear);
      FinishedCounts(s', b);
      var here := BucketOf(s.phase.from, s.phase.next);
      assert here == b ==> ToClear(s, b);
      if ToClear(s', b) {
        assert ToClear(s, b);
      }
      if ToClear(s, b) && here != b {
        var turn :| s.phase.next <= turn <= s.phase.gap && BucketOf(s.phase.from, turn) == b;
        assert turn != s.phase.next;
        assert ToClear(s', b);
      }
    }
  }

  /** A record, on whatever index, is lost to the advance under way iff its bucket is still to be cleared. */
  lemma LostIff(s: State, idx: int)
    requires Valid(s) && 0 <= idx
    ensures Finished(Next(s, Late(idx))).counts[idx % SIZE]
         == Finished(s).counts[idx % SIZE] + if ToClear(s, idx % SIZE) then 0 else 1
  {
    var s' := Next(s, Late(idx));
    FinishedCounts(s, idx % SIZE);
    FinishedCounts(s', idx % SIZE);
    assert s'.phase == s.phase;
    assert ToClear(s', idx % SIZE) == ToClear(s, idx % SIZE);
  }

  // ---- what is misfiled ----

  /** bucketIdx stands for the second the ring was at before the advance under way, or for nothing yet. */
  ghost predicate InStep(s: State, born: int) {
    && Valid(s)
    && match s.phase
       case Idle => s.bucketIdx == s.lastTick || (s.lastTick == born && s.bucketIdx == 0)
       case Clearing(from, _, gap) =>
         && (s.bucketIdx == from || (from == born && s.bucketIdx == 0))
         && from < s.lastTick && gap == if s.lastTick - from > SIZE then SIZE else s.lastTick - from
  }

  lemma StepKeepsInStep(s: State, e: Step, born: int)
    requires InStep(s, born)
    ensures InStep(Next(s, e), born)
  {}

  lemma TurnIs(from: int, turn: int)
    requires 0 <= from && 1 <= turn <= SIZE
    ensures BucketOf(from, turn) == (from + turn) % SIZE
    ensures BucketOf(from, turn) == from % SIZE <==> turn == SIZE
  {}

  /** A record on the bucket of any second of the ring's last minute is lost iff the clock has moved past that second
      by a minute or more and the turn of its bucket is still to come. */
  lemma LateIsLostIff(s: State, born: int, idx: int)
    requires InStep(s, born) && s.phase.Clearing? && s.phase.from - SIZE < idx <= s.phase.from && 0 <= idx
    ensures ToClear(s, idx % SIZE)
       <==> idx + SIZE <= s.lastTick && s.phase.next <= idx + SIZE - s.phase.from
  {
    var from, gap := s.phase.from, s.phase.gap;
    var turn := idx + SIZE - from;
    assert 1 <= turn <= SIZE;
    forall t | 1 <= t <= SIZE
      ensures BucketOf(from, t) == idx % SIZE <==> t == turn
    {
      SameBucketIff(from, t, idx);
    }
    if s.phase.next <= turn <= gap {
      assert BucketOf(from, turn) == idx % SIZE;
    }
  }

  lemma SameBucketIff(from: int, t: int, idx: int)
    requires 0 <= from && 1 <= t <= SIZE && from - SIZE < idx <= from
    ensures BucketOf(from, t) == idx % SIZE <==> t == idx + SIZE - from
  {
    UsageRing.SecondOfIs(from + t, idx % SIZE, from + t);
    var d := from + t - idx;
    assert 1 <= d < 2 * SIZE;
    assert BucketOf(from, t) == (from + t) % SIZE;
  }
  /** The second whose bucket bucketIdx points at: the one before the advance, or bucket 0's before the first. */
  function PointedAt(s: State): int
    requires s.phase.Clearing?
  {
    if s.bucketIdx == s.phase.from then s.phase.from else s.phase.from - s.phase.from % SIZE
  }

  lemma SameBucketAs(t: int, u: int)
    ensures t % SIZE == u % SIZE <==> (u - t) % SIZE == 0
  {}

  /** A record made while an advance is under way counts for a second gone by. It is in the new second's bucket iff
      the clock is whole minutes past that one, and it is lost iff the clock is a minute or more past it and its
      bucket's turn still to come. */
  lemma RecordDuringAdvance(s: State, born: int)
    requires InStep(s, born) && s.phase.Clearing?
    ensures Next(s, Record) == Next(s, Late(PointedAt(s))) && PointedAt(s) < s.lastTick
    ensures s.bucketIdx % SIZE == s.lastTick % SIZE <==> (s.lastTick - PointedAt(s)) % SIZE == 0
    ensures ToClear(s, s.bucketIdx % SIZE)
       <==> PointedAt(s) + SIZE <= s.lastTick && s.phase.next <= PointedAt(s) + SIZE - s.phase.from
  {
    assert PointedAt(s) % SIZE == s.bucketIdx % SIZE;
    SameBucketAs(PointedAt(s), s.lastTick);
    LateIsLostIff(s, born, PointedAt(s));
  }
  // ---- with nothing in between ----

  /** The buckets an advance clears are those whose second is new; with nothing in between, the ring then holds for
      each bucket what it held if its second is still in the minute, and nothing otherwise. */
  lemma AdvanceAtOnce(s: State, now: int, b: int)
    requires Valid(s) && s.phase.Idle? && s.lastTick < now && 0 <= b < SIZE
    ensures Finished(Next(s, Swap(now))).counts[b]
         == if UsageRing.SecondOf(now, b) == UsageRing.SecondOf(s.lastTick, b) then s.counts[b] else 0
    ensures Finished(Next(s, Swap(now))).lastTick == Finished(Next(s, Swap(now))).bucketIdx == now
  {
    var last, s' := s.lastTick, Next(s, Swap(now));
    var idx := UsageRing.SecondOf(last, b);
    UsageRing.SecondOfIs(last, b, idx);
    UsageRing.SecondOfIs(now, b, idx);
    FinishedCounts(s', b);
    FinishedTicks(s');
    ClearsIff(last, s'.phase.gap, b);
    assert ToClear(s', b) <==> idx + SIZE - last <= s'.phase.gap;
  }

  lemma {:induction false} FinishedTicks(s: State)
    requires Valid(s)
    ensures Finished(s).lastTick == s.lastTick && (s.phase.Clearing? ==> Finished(s).bucketIdx == s.lastTick)
    decreases if s.phase.Clearing? then s.phase.gap + 1 - s.phase.next else 0
  {
    if s.phase.Clearing? && s.phase.next <= s.phase.gap {
      FinishedTicks(Next(s, Clear));
    }
  }

  lemma ClearsIff(last: int, gap: int, b: int)
    requires 0 <= last && 1 <= gap <= SIZE && 0 <= b < SIZE
    ensures (exists turn :: 1 <= turn <= gap && BucketOf(last, turn) == b)
       <==> UsageRing.SecondOf(last, b) + SIZE - last <= gap
  {
    var idx := UsageRing.SecondOf(last, b);
    UsageRing.SecondOfIs(last, b, idx);
    var turn := idx + SIZE - last;
    forall t | 1 <= t <= SIZE
      ensures BucketOf(last, t) == b <==> t == turn
    {
      SameBucketIff(last, t, idx);
    }
    assert BucketOf(last, turn) == b;
  }
}
