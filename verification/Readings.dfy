/** gateway/internal/billing/payment/sign.go: which signing strings can be read as those of two parameter maps. */
module Readings {
  import opened Signing

  ghost predicate NamesClean(m: Params) {
    forall k <- m :: EQUALS !in k && AMPERSAND !in k
  }

  /** The last two pairs read as one, the second inside the value of the first. */
  function Merged(r: Params, j: Bytes, k: Bytes): Params
    requires j in r && k in r
  {
    (r - {k})[j := r[j] + Next(k, r[k])]
  }

  /** A pair with the separator before it. */
  function Next(k: Bytes, v: Bytes): Bytes { [AMPERSAND] + Pair(k, v) }

  lemma PairGrows(k: Bytes, v: Bytes, t: Bytes)
    ensures Pair(k, v + t) == Pair(k, v) + t && Next(k, v + t) == Next(k, v) + t
  {}

  lemma Regroup(x: Bytes, y: Bytes, z: Bytes)
    ensures x + y + z == x + (y + z)
  {}

  lemma JoinedSnoc(rest: seq<Bytes>, k: Bytes, m: Params)
    requires rest != [] && k in m && forall x <- rest :: x in m
    ensures (forall x <- rest + [k] :: x in m) && Joined(rest + [k], m) == Joined(rest, m) + Next(k, m[k])
  {
    assert (rest + [k])[..|rest|] == rest;
    JoinedMore(rest + [k], m);
    Regroup(Joined(rest, m), [AMPERSAND], Pair(k, m[k]));
  }

  /** A last value that goes on is the string going on. */
  lemma LastValueGrows(rest: seq<Bytes>, j: Bytes, m: Params, n: Params, t: Bytes)
    requires j in m && j in n && n[j] == m[j] + t && forall x <- rest :: x in m && x in n && m[x] == n[x]
    ensures (forall x <- rest + [j] :: x in m && x in n) && Joined(rest + [j], n) == Joined(rest + [j], m) + t
  {
    PairGrows(j, m[j], t);
    if rest == [] {
      assert rest + [j] == [j];
      JoinedOne(j, m);
      JoinedOne(j, n);
    } else {
      JoinedAgrees(rest, n, m);
      JoinedSnoc(rest, j, m);
      JoinedSnoc(rest, j, n);
      Regroup(Joined(rest, m), Next(j, m[j]), t);
    }
  }

  lemma MergedJoins(rest: seq<Bytes>, j: Bytes, k: Bytes, r: Params)
    requires j in r && k in r && j != k && forall x <- rest :: x in r && x != j && x != k
    ensures (forall x <- rest + [j] :: x in Merged(r, j, k)) && (forall x <- rest + [j] + [k] :: x in r)
    ensures Joined(rest + [j], Merged(r, j, k)) == Joined(rest + [j] + [k], r)
  {
    var n := Merged(r, j, k);
    LastValueGrows(rest, j, r, n, Next(k, r[k]));
    JoinedSnoc(rest + [j], k, r);
  }

  lemma FrontElements(ks: seq<Bytes>)
    requires Ascending(ks) && ks != []
    ensures Ascending(ks[..|ks| - 1]) && Elements(ks[..|ks| - 1]) == Elements(ks) - {ks[|ks| - 1]}
  {
    var front, k := ks[..|ks| - 1], ks[|ks| - 1];
    assert ks == front + [k];
    forall x <- front
      ensures x != k
    {
      var i :| 0 <= i < |front| && front[i] == x;
      LessTotal(ks[i], k);
    }
  }

  /** A listing of two or more keys, its last two set apart. */
  lemma LastTwo(ks: seq<Bytes>) returns (rest: seq<Bytes>, j: Bytes, k: Bytes)
    requires Ascending(ks) && |ks| >= 2
    ensures ks == rest + [j] + [k] && j != k && forall x <- rest :: x in ks && x != j && x != k
    ensures j in ks && k in ks && Ascending(rest + [j]) && Elements(rest + [j]) == Elements(ks) - {k}
  {
    var front := ks[..|ks| - 1];
    rest, j, k := ks[..|ks| - 2], ks[|ks| - 2], ks[|ks| - 1];
    assert front == rest + [j] && front[..|front| - 1] == rest && ks == front + [k];
    FrontElements(ks);
    FrontElements(front);
    assert j in front && k !in Elements(front);
    assert forall x <- rest :: x in Elements(rest) && x in front && x in Elements(front);
  }

  lemma MergedIsRelevant(m: Params, excluded: set<Bytes>, j: Bytes, k: Bytes)
    requires j in Relevant(m, excluded) && k in Relevant(m, excluded) && j != k
    ensures var n := Merged(Relevant(m, excluded), j, k);
            Relevant(n, excluded) == n && n.Keys == Relevant(m, excluded).Keys - {k}
  {}

  /** Every map that signs two or more fields, whatever they hold, shares its string with a map that signs fewer. */
  lemma TwoFieldsMerge(s: Bytes, m: Params, excluded: set<Bytes>, suffix: Bytes) returns (n: Params)
    requires IsCanonical(s, m, excluded, suffix) && |Relevant(m, excluded)| >= 2
    ensures IsCanonical(s, n, excluded, suffix) && Relevant(n, excluded).Keys < Relevant(m, excluded).Keys
  {
    var r := Relevant(m, excluded);
    var ks :| Ascending(ks) && Elements(ks) == r.Keys && s == Joined(ks, r) + suffix;
    SizeOf(ks, r);
    var rest, j, k := LastTwo(ks);
    assert forall x <- ks :: x in Elements(ks);
    MergedJoins(rest, j, k, r);
    n := Merged(r, j, k);
    MergedIsRelevant(m, excluded, j, k);
    ListsFields(rest + [j], n, excluded, suffix);
  }

  lemma {:induction false} ListingSize(ks: seq<Bytes>)
    requires Ascending(ks)
    ensures |Elements(ks)| == |ks|
  {
    if ks != [] {
      FrontElements(ks);
      ListingSize(ks[..|ks| - 1]);
      assert ks[|ks| - 1] in ks;
    }
  }

  lemma SizeOf(ks: seq<Bytes>, r: Params)
    requires Ascending(ks) && Elements(ks) == r.Keys
    ensures |ks| == |r|
  {
    ListingSize(ks);
    assert |r| == |r.Keys|;
  }

  /** v can be cut as x, then a pair of a name after k and a nonempty value. */
  ghost predicate CutsAs(k: Bytes, v: Bytes, x: Bytes, k': Bytes, y: Bytes, excluded: set<Bytes>) {
    && v == x + [AMPERSAND] + Pair(k', y) && x != [] && y != []
    && Less(k, k') && k' !in excluded && EQUALS !in k' && AMPERSAND !in k'
  }

  /** At least two fields signed, or a value that can be cut. */
  ghost predicate Ambiguous(r: Params, excluded: set<Bytes>) {
    |r| >= 2 || exists k, x, k', y :: k in r && CutsAs(k, r[k], x, k', y, excluded)
  }

  /** Another map, its names clean too, with this string. */
  ghost predicate SharedBy(n: Params, s: Bytes, m: Params, excluded: set<Bytes>, suffix: Bytes) {
    && Relevant(n, excluded) != Relevant(m, excluded) && NamesClean(Relevant(n, excluded))
    && IsCanonical(s, n, excluded, suffix)
  }

  /** The first pair, and all that follows it taken as the rest of its value. */
  lemma {:induction false} JoinedHead(ks: seq<Bytes>, m: Params) returns (tail: Bytes)
    requires ks != [] && forall k <- ks :: k in m
    ensures ks[0] in m && Joined(ks, m) == Pair(ks[0], m[ks[0]] + tail)
    ensures |ks| == 1 ==> tail == []
    ensures |ks| >= 2 ==> ks[1] in m && exists rest :: tail == Next(ks[1], m[ks[1]] + rest)
  {
    assert ks[0] in ks;
    if |ks| == 1 {
      assert ks == [ks[0]] && m[ks[0]] + [] == m[ks[0]];
      JoinedOne(ks[0], m);
      tail := [];
    } else {
      var front, k := ks[..|ks| - 1], ks[|ks| - 1];
      assert ks == front + [k] && k in ks && forall x <- front :: x in ks;
      JoinedSnoc(front, k, m);
      var before := JoinedHead(front, m);
      tail := before + Next(k, m[k]);
      PairGrows(ks[0], m[ks[0]] + before, Next(k, m[k]));
      Regroup(m[ks[0]], before, Next(k, m[k]));
      SecondPair(ks, m, before, k);
    }
  }

  lemma SecondPair(ks: seq<Bytes>, m: Params, before: Bytes, k: Bytes)
    requires |ks| >= 2 && k == ks[|ks| - 1] && ks[1] in m && k in m
    requires |ks| == 2 ==> before == []
    requires |ks| > 2 ==> exists rest :: before == Next(ks[1], m[ks[1]] + rest)
    ensures exists rest :: before + Next(k, m[k]) == Next(ks[1], m[ks[1]] + rest)
  {
    if |ks| == 2 {
      assert before + Next(k, m[k]) == Next(ks[1], m[ks[1]] + []);
    } else {
      var rest :| before == Next(ks[1], m[ks[1]] + rest);
      PairGrows(ks[1], m[ks[1]] + rest, Next(k, m[k]));
      Regroup(m[ks[1]], rest, Next(k, m[k]));
    }
  }

  /** A lone pair that reads as another listing's string: its value is cut there. */
  lemma OtherReadingCuts(k: Bytes, v: Bytes, b: seq<Bytes>, q: Params, excluded: set<Bytes>)
    requires Ascending(b) && (forall x <- b :: x in q) && NamesClean(q) && EQUALS !in k
    requires (forall x <- q :: x !in excluded && q[x] != []) && Joined(b, q) == Pair(k, v)
    ensures b != [] && b[0] == k && b[0] in q && (|b| == 1 ==> q[k] == v)
    ensures |b| >= 2 ==> exists x, k', y :: CutsAs(k, v, x, k', y, excluded)
  {
    if b != [] {
      var tail := JoinedHead(b, q);
      assert b[0] in b;
      PairIsInjective(b[0], q[b[0]] + tail, k, v);
      if |b| == 1 {
        assert b == [b[0]];
        JoinedOne(b[0], q);
        PairIsInjective(b[0], q[b[0]], k, v);
      } else {
        var rest :| tail == [AMPERSAND] + Pair(b[1], q[b[1]] + rest);
        assert b[1] in b;
        assert v == q[b[0]] + [AMPERSAND] + Pair(b[1], q[b[1]] + rest);
        assert CutsAs(k, v, q[b[0]], b[1], q[b[1]] + rest, excluded);
      }
    }
  }

  lemma ReadingCuts(a: seq<Bytes>, r: Params, b: seq<Bytes>, q: Params, excluded: set<Bytes>)
    requires Ascending(a) && Elements(a) == r.Keys && Ascending(b) && Elements(b) == q.Keys && |r| < 2
    requires (forall x <- a :: x in r) && (forall x <- b :: x in q) && Joined(a, r) == Joined(b, q)
    requires NamesClean(r) && NamesClean(q) && forall x <- q :: x !in excluded && q[x] != []
    ensures r == q || Ambiguous(r, excluded)
  {
    SizeOf(a, r);
    if a == [] {
      NoReading(b, q);
      assert r.Keys == Elements(a) == Elements(b) == q.Keys;
    } else {
      var k := a[0];
      assert a == [k] && k in a;
      JoinedOne(k, r);
      OtherReadingCuts(k, r[k], b, q, excluded);
      if |b| == 1 {
        assert b == [k] && r.Keys == Elements(a) == Elements(b) == q.Keys;
        assert forall x <- r :: x in a;
      }
    }
  }

  lemma SharedOnlyIf(n: Params, s: Bytes, m: Params, excluded: set<Bytes>, suffix: Bytes)
    requires IsCanonical(s, m, excluded, suffix) && NamesClean(Relevant(m, excluded))
    requires SharedBy(n, s, m, excluded, suffix)
    ensures Ambiguous(Relevant(m, excluded), excluded)
  {
    var r, q := Relevant(m, excluded), Relevant(n, excluded);
    if |r| < 2 {
      var a :| Ascending(a) && Elements(a) == r.Keys && s == Joined(a, r) + suffix;
      var b :| Ascending(b) && Elements(b) == q.Keys && s == Joined(b, q) + suffix;
      assert (forall x <- a :: x in Elements(a)) && forall x <- b :: x in Elements(b);
      DropSuffix(Joined(a, r), Joined(b, q), suffix);
      ReadingCuts(a, r, b, q, excluded);
    }
  }

  lemma NoReading(b: seq<Bytes>, q: Params)
    requires (forall x <- b :: x in q) && Joined(b, q) == []
    ensures b == []
  {
    if b != [] {
      var _ := JoinedHead(b, q);
    }
  }

  lemma CutIsShared(k: Bytes, x: Bytes, k': Bytes, y: Bytes, s: Bytes, m: Params, excluded: set<Bytes>, suffix: Bytes)
    requires IsCanonical(s, m, excluded, suffix) && NamesClean(Relevant(m, excluded))
    requires k in Relevant(m, excluded) && |Relevant(m, excluded)| < 2
    requires CutsAs(k, m[k], x, k', y, excluded)
    ensures SharedBy(map[k := x, k' := y], s, m, excluded, suffix)
  {
    var r, n: Params := Relevant(m, excluded), map[k := x, k' := y];
    OnlyKey(r, k);
    assert r == map[k := x + [AMPERSAND] + Pair(k', y)];
    AmpersandInValueCollides(k, x, k', y, excluded, suffix);
    var t :| IsCanonical(t, r, excluded, suffix) && IsCanonical(t, n, excluded, suffix);
    RelevantTwice(m, excluded);
    CanonicalIsUnique(s, t, r, excluded, suffix);
    LessTotal(k, k');
    assert forall z <- Relevant(n, excluded) :: z == k || z == k';
  }

  lemma RelevantTwice(m: Params, excluded: set<Bytes>)
    ensures Relevant(Relevant(m, excluded), excluded) == Relevant(m, excluded)
  {}

  lemma SharedIf(s: Bytes, m: Params, excluded: set<Bytes>, suffix: Bytes) returns (n: Params)
    requires IsCanonical(s, m, excluded, suffix) && NamesClean(Relevant(m, excluded))
    requires Ambiguous(Relevant(m, excluded), excluded)
    ensures SharedBy(n, s, m, excluded, suffix)
  {
    var r := Relevant(m, excluded);
    if |r| >= 2 {
      n := TwoFieldsMerge(s, m, excluded, suffix);
    } else {
      var k, x, k', y :| k in r && CutsAs(k, r[k], x, k', y, excluded);
      n := map[k := x, k' := y];
      CutIsShared(k, x, k', y, s, m, excluded, suffix);
    }
  }

  lemma OnlyKey(r: Params, k: Bytes)
    requires k in r && |r| < 2
    ensures r.Keys == {k}
  {
    assert r.Keys == {k} + (r.Keys - {k});
    assert |r| == |r.Keys|;
  }

  /** A map with clean names shares its string with another such map iff it signs two fields or more, or the value of
      its one field can be cut into a value and a later pair. */
  lemma SharedIff(s: Bytes, m: Params, excluded: set<Bytes>, suffix: Bytes)
    requires IsCanonical(s, m, excluded, suffix) && NamesClean(Relevant(m, excluded))
    ensures (exists n :: SharedBy(n, s, m, excluded, suffix)) <==> Ambiguous(Relevant(m, excluded), excluded)
  {
    if Ambiguous(Relevant(m, excluded), excluded) {
      var n := SharedIf(s, m, excluded, suffix);
      assert SharedBy(n, s, m, excluded, suffix);
    }
    if n :| SharedBy(n, s, m, excluded, suffix) {
      SharedOnlyIf(n, s, m, excluded, suffix);
    }
  }
}
