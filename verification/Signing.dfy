/** gateway/internal/billing/payment/sign.go and sign_ed25519.go: the sorted k=v&... strings that payment
    requests are signed over, built from an unordered map, and the comparison of signatures. */
module Signing {

  type Bytes = seq<bv8>
  type Params = map<Bytes, Bytes>

  // ---- byte-wise lexicographic order ----

  predicate Less(a: Bytes, b: Bytes) {
    if b == [] then false
    else if a == [] then true
    else a[0] < b[0] || (a[0] == b[0] && Less(a[1..], b[1..]))
  }

  lemma {:induction false} LessTotal(a: Bytes, b: Bytes)
    ensures Less(a, b) || a == b || Less(b, a)
    ensures !(Less(a, b) && (Less(b, a) || a == b))
  {
    if a != [] && b != [] {
      LessTotal(a[1..], b[1..]);
      assert a == [a[0]] + a[1..] && b == [b[0]] + b[1..];
    }
  }

  lemma {:induction false} LessTransitive(a: Bytes, b: Bytes, c: Bytes)
    requires Less(a, b) && Less(b, c)
    ensures Less(a, c)
  {
    if a != [] && a[0] == b[0] == c[0] {
      LessTransitive(a[1..], b[1..], c[1..]);
    }
  }

  /** a is before b where they first differ: there b has the greater byte, or a ends. */
  ghost predicate FirstDifference(a: Bytes, b: Bytes, n: nat) {
    n <= |a| && n < |b| && a[..n] == b[..n] && (n == |a| || a[n] as int < b[n] as int)
  }

  ghost predicate Before(a: Bytes, b: Bytes) {
    exists n: nat :: FirstDifference(a, b, n)
  }

  lemma {:induction false} LessByFirstDifference(a: Bytes, b: Bytes, n: nat)
    requires FirstDifference(a, b, n)
    ensures Less(a, b)
  {
    if n > 0 {
      assert a[0] == a[..n][0] == b[..n][0] == b[0];
      assert a[1..][..n - 1] == a[..n][1..] == b[..n][1..] == b[1..][..n - 1];
      LessByFirstDifference(a[1..], b[1..], n - 1);
    }
  }

  lemma {:induction false} FirstDifferenceOf(a: Bytes, b: Bytes) returns (n: nat)
    requires Less(a, b)
    ensures FirstDifference(a, b, n)
  {
    n := 0;
    if a != [] && a[0] == b[0] {
      var k := FirstDifferenceOf(a[1..], b[1..]);
      n := k + 1;
      assert a[..n] == [a[0]] + a[1..][..k] && b[..n] == [b[0]] + b[1..][..k];
    }
  }

  /** The order is the bytes' own, lexicographically, a prefix before what it begins. */
  lemma LessIsByteOrder(a: Bytes, b: Bytes)
    ensures Less(a, b) <==> Before(a, b)
  {
    if Less(a, b) {
      var n := FirstDifferenceOf(a, b);
      assert FirstDifference(a, b, n);
    }
    if n: nat :| FirstDifference(a, b, n) {
      LessByFirstDifference(a, b, n);
    }
  }

  /** Strictly ascending, so free of repetitions. */
  ghost predicate Ascending(ks: seq<Bytes>) {
    forall i, j :: 0 <= i < j < |ks| ==> Less(ks[i], ks[j])
  }

  function Elements(ks: seq<Bytes>): set<Bytes> { set k <- ks }

  /** A set has only one ascending listing. */
  lemma {:induction false} AscendingIsUnique(a: seq<Bytes>, b: seq<Bytes>)
    requires Ascending(a) && Ascending(b) && Elements(a) == Elements(b)
    ensures a == b
  {
    EmptyElements(a);
    EmptyElements(b);
    if a != [] {
      SameHead(a, b);
      TailElements(a);
      TailElements(b);
      AscendingIsUnique(a[1..], b[1..]);
      assert a == [a[0]] + a[1..] && b == [b[0]] + b[1..];
    }
  }

  lemma EmptyElements(ks: seq<Bytes>)
    ensures Elements(ks) == {} <==> ks == []
  {
    if ks != [] {
      assert ks[0] in Elements(ks);
    }
  }

  lemma SameHead(a: seq<Bytes>, b: seq<Bytes>)
    requires Ascending(a) && Ascending(b) && Elements(a) == Elements(b) && a != [] && b != []
    ensures a[0] == b[0]
  {
    assert a[0] in Elements(b) && b[0] in Elements(a);
    var i :| 0 <= i < |b| && b[i] == a[0];
    var j :| 0 <= j < |a| && a[j] == b[0];
    LessTotal(a[0], b[0]);
  }

  lemma TailElements(a: seq<Bytes>)
    requires Ascending(a) && a != []
    ensures Elements(a[1..]) == Elements(a) - {a[0]}
  {
    forall k <- a[1..]
      ensures k in Elements(a) && k != a[0]
    {
      var i :| 0 <= i < |a[1..]| && a[1..][i] == k;
      LessTotal(a[0], a[i + 1]);
    }
    forall k <- Elements(a) - {a[0]}
      ensures k in a[1..]
    {
      var i :| 0 <= i < |a| && a[i] == k;
      assert a[1..][i - 1] == k;
    }
  }

  // ---- the canonical string ----

  const EQUALS: bv8 := 61
  const AMPERSAND: bv8 := 38
  const SIGN: Bytes := [115, 105, 103, 110]
  const SIGN_TYPE: Bytes := [115, 105, 103, 110, 95, 116, 121, 112, 101]
  const HASH: Bytes := [104, 97, 115, 104]
  const APPSECRET: Bytes := [38, 97, 112, 112, 115, 101, 99, 114, 101, 116, 61]

  /** These are the bytes of the text. */
  ghost predicate Spells(b: Bytes, s: string) {
    |b| == |s| && forall i :: 0 <= i < |b| ==> b[i] as int == s[i] as int
  }

  lemma NamesSpell()
    ensures Spells(SIGN, "sign") && Spells(SIGN_TYPE, "sign_type") && Spells(HASH, "hash")
    ensures Spells([EQUALS, AMPERSAND], "=&")
  {}

  lemma SuffixSpells()
    ensures Spells(APPSECRET, "&appsecret=")
  {}

  /** The fields that are signed: not excluded, and not empty. */
  function Relevant(m: Params, excluded: set<Bytes>): Params {
    map k <- m | k !in excluded && m[k] != [] :: m[k]
  }

  function Joined(ks: seq<Bytes>, m: Params): Bytes
    requires forall k <- ks :: k in m
  {
    if ks == [] then []
    else
      var k := ks[|ks| - 1];
      Joined(ks[..|ks| - 1], m) + (if |ks| > 1 then [AMPERSAND] else []) + k + [EQUALS] + m[k]
  }

  /** s is the string of the signed fields in ascending order of their names, then the suffix. */
  ghost predicate IsCanonical(s: Bytes, m: Params, excluded: set<Bytes>, suffix: Bytes) {
    exists ks :: Ascending(ks) && Elements(ks) == Relevant(m, excluded).Keys
              && s == Joined(ks, Relevant(m, excluded)) + suffix
  }

  /** The map alone determines the string, whatever order its keys were visited in. */
  lemma CanonicalIsUnique(s: Bytes, t: Bytes, m: Params, excluded: set<Bytes>, suffix: Bytes)
    requires IsCanonical(s, m, excluded, suffix) && IsCanonical(t, m, excluded, suffix)
    ensures s == t
  {
    var r := Relevant(m, excluded);
    var a :| Ascending(a) && Elements(a) == r.Keys && s == Joined(a, r) + suffix;
    var b :| Ascending(b) && Elements(b) == r.Keys && t == Joined(b, r) + suffix;
    AscendingIsUnique(a, b);
  }

  /** Setting a field leaves the signed fields alone iff it is excluded, or empty before and after,
      or not changed. */
  lemma RelevantUnchangedIff(m: Params, k: Bytes, v: Bytes, excluded: set<Bytes>)
    ensures Relevant(m[k := v], excluded) == Relevant(m, excluded)
       <==> k in excluded || (v == [] && (k !in m || m[k] == [])) || (k in m && m[k] == v)
  {
    var before, after := Relevant(m, excluded), Relevant(m[k := v], excluded);
    if k in excluded || (v == [] && (k !in m || m[k] == [])) || (k in m && m[k] == v) {
      assert forall x :: x in after <==> x in before;
      assert after == before;
    } else if v != [] {
      assert k in after && after[k] == v;
      assert k !in before || before[k] != v;
    } else {
      assert k in before && k !in after;
    }
  }

  /** Adding excluded or empty fields does not change the string. */
  lemma CanonicalIgnores(s: Bytes, m: Params, k: Bytes, v: Bytes, excluded: set<Bytes>, suffix: Bytes)
    requires k in excluded || (v == [] && (k !in m || m[k] == []))
    ensures IsCanonical(s, m[k := v], excluded, suffix) == IsCanonical(s, m, excluded, suffix)
  {
    RelevantUnchangedIff(m, k, v, excluded);
  }

  /** Two one-letter fields, in whatever order the map has them: a=1&b=2. */
  lemma CanonicalOfTwo(s: Bytes, suffix: Bytes)
    ensures IsCanonical(s, map[[98] := [50], [97] := [49]], {}, suffix) ==> s == [97, 61, 49, 38, 98, 61, 50] + suffix
  {
    var m: Params := map[[98] := [50], [97] := [49]];
    var ks: seq<Bytes> := [[97], [98]];
    var r := Relevant(m, {});
    assert r == m;
    assert FirstDifference(ks[0], ks[1], 0);
    LessByFirstDifference(ks[0], ks[1], 0);
    assert Ascending(ks) && Elements(ks) == r.Keys;
    assert ks[..1] == [[97]] && ks[..1][..0] == [];
    assert Joined(ks[..1], r) == [97, 61, 49];
    assert Joined(ks, r) == [97, 61, 49, 38, 98, 61, 50];
    if IsCanonical(s, m, {}, suffix) {
      assert IsCanonical(Joined(ks, r) + suffix, m, {}, suffix);
      CanonicalIsUnique(s, Joined(ks, r) + suffix, m, {}, suffix);
    }
  }

  // ---- what the string determines ----

  function Pair(k: Bytes, v: Bytes): Bytes { k + [EQUALS] + v }

  /** No separator in a name, and no ampersand in a value. */
  ghost predicate Clean(m: Params) {
    forall k <- m :: EQUALS !in k && AMPERSAND !in k && AMPERSAND !in m[k]
  }

  lemma FirstIsNoLater(x: Bytes, y: Bytes, x': Bytes, y': Bytes, c: bv8)
    requires x + [c] + y == x' + [c] + y' && c !in x'
    ensures |x'| <= |x|
  {
    assert (x + [c] + y)[|x|] == c;
  }

  lemma LastIsNoSooner(x: Bytes, y: Bytes, x': Bytes, y': Bytes, c: bv8)
    requires x + [c] + y == x' + [c] + y' && c !in y
    ensures |x'| <= |x|
  {
    assert (x' + [c] + y')[|x'|] == c;
  }

  lemma SplitAt(x: Bytes, y: Bytes, x': Bytes, y': Bytes, c: bv8)
    requires x + [c] + y == x' + [c] + y' && |x| == |x'|
    ensures x == x' && y == y'
  {
    var s := x + [c] + y;
    assert x == s[..|x|] && x' == s[..|x'|] && y == s[|x| + 1..] && y' == s[|x'| + 1..];
  }

  lemma PairIsInjective(k: Bytes, v: Bytes, k': Bytes, v': Bytes)
    requires Pair(k, v) == Pair(k', v') && EQUALS !in k && EQUALS !in k'
    ensures k == k' && v == v'
  {
    FirstIsNoLater(k, v, k', v', EQUALS);
    FirstIsNoLater(k', v', k, v, EQUALS);
    SplitAt(k, v, k', v', EQUALS);
  }

  lemma LastPairIsInjective(x: Bytes, k: Bytes, v: Bytes, x': Bytes, k': Bytes, v': Bytes)
    requires x + [AMPERSAND] + Pair(k, v) == x' + [AMPERSAND] + Pair(k', v')
    requires AMPERSAND !in Pair(k, v) && AMPERSAND !in Pair(k', v') && EQUALS !in k && EQUALS !in k'
    ensures x == x' && k == k' && v == v'
  {
    LastIsNoSooner(x, Pair(k, v), x', Pair(k', v'), AMPERSAND);
    LastIsNoSooner(x', Pair(k', v'), x, Pair(k, v), AMPERSAND);
    SplitAt(x, Pair(k, v), x', Pair(k', v'), AMPERSAND);
    PairIsInjective(k, v, k', v');
  }

  lemma JoinedOne(k: Bytes, m: Params)
    requires k in m
    ensures Joined([k], m) == Pair(k, m[k])
  {
    assert [k][..0] == [];
  }

  lemma JoinedMore(ks: seq<Bytes>, m: Params)
    requires |ks| > 1 && forall k <- ks :: k in m
    ensures var front, k := ks[..|ks| - 1], ks[|ks| - 1];
            && k in m && (forall x <- front :: x in m)
            && Joined(ks, m) == Joined(front, m) + [AMPERSAND] + Pair(k, m[k])
            && AMPERSAND in Joined(ks, m)
  {
    var front, k := ks[..|ks| - 1], ks[|ks| - 1];
    assert k in ks && forall x <- front :: x in ks;
    assert Joined(ks, m) == Joined(front, m) + [AMPERSAND] + Pair(k, m[k]);
    assert Joined(ks, m)[|Joined(front, m)|] == AMPERSAND;
  }

  /** Clean pairs joined can be told apart again. */
  lemma {:induction false} JoinedIsInjective(a: seq<Bytes>, m: Params, b: seq<Bytes>, n: Params)
    requires Clean(m) && Clean(n) && (forall k <- a :: k in m) && (forall k <- b :: k in n)
    requires Joined(a, m) == Joined(b, n)
    ensures a == b && forall k <- a :: m[k] == n[k]
  {
    SameCount(a, m, b, n);
    if |a| == 1 {
      assert a == [a[0]] && b == [b[0]];
      JoinedOne(a[0], m);
      JoinedOne(b[0], n);
      PairIsInjective(a[0], m[a[0]], b[0], n[b[0]]);
    } else if |a| > 1 {
      var front, j, rest, k := a[..|a| - 1], a[|a| - 1], b[..|b| - 1], b[|b| - 1];
      JoinedMore(a, m);
      JoinedMore(b, n);
      LastPairIsInjective(Joined(front, m), j, m[j], Joined(rest, n), k, n[k]);
      JoinedIsInjective(front, m, rest, n);
      assert a == front + [j] && b == rest + [k];
    }
  }

  lemma KindOf(ks: seq<Bytes>, m: Params)
    requires Clean(m) && forall k <- ks :: k in m
    ensures Joined(ks, m) == [] <==> ks == []
    ensures AMPERSAND in Joined(ks, m) <==> |ks| > 1
  {
    if |ks| == 1 {
      assert ks == [ks[0]];
      JoinedOne(ks[0], m);
    } else if |ks| > 1 {
      JoinedMore(ks, m);
    }
  }

  /** Both none, both one, or both more. */
  lemma SameCount(a: seq<Bytes>, m: Params, b: seq<Bytes>, n: Params)
    requires Clean(m) && Clean(n) && (forall k <- a :: k in m) && (forall k <- b :: k in n)
    requires Joined(a, m) == Joined(b, n)
    ensures (a == [] <==> b == []) && (|a| > 1 <==> |b| > 1)
  {
    KindOf(a, m);
    KindOf(b, n);
  }

  lemma SameFields(a: seq<Bytes>, p: Params, b: seq<Bytes>, q: Params)
    requires Clean(p) && Clean(q) && Elements(a) == p.Keys && Elements(b) == q.Keys
    requires (forall k <- a :: k in p) && (forall k <- b :: k in q) && Joined(a, p) == Joined(b, q)
    ensures p == q
  {
    JoinedIsInjective(a, p, b, q);
    assert forall k <- p :: k in a;
  }

  lemma DropSuffix(x: Bytes, y: Bytes, suffix: Bytes)
    requires x + suffix == y + suffix
    ensures x == y
  {
    assert x == (x + suffix)[..|x|] && y == (y + suffix)[..|y|];
  }

  /** Where names hold no separator and values no ampersand, two maps have one string iff the same fields
      of theirs are signed. */
  lemma SameStringIff(s: Bytes, t: Bytes, m: Params, n: Params, excluded: set<Bytes>, suffix: Bytes)
    requires IsCanonical(s, m, excluded, suffix) && IsCanonical(t, n, excluded, suffix)
    requires Clean(Relevant(m, excluded)) && Clean(Relevant(n, excluded))
    ensures s == t <==> Relevant(m, excluded) == Relevant(n, excluded)
  {
    var p, q := Relevant(m, excluded), Relevant(n, excluded);
    var a :| Ascending(a) && Elements(a) == p.Keys && s == Joined(a, p) + suffix;
    var b :| Ascending(b) && Elements(b) == q.Keys && t == Joined(b, q) + suffix;
    if s == t {
      DropSuffix(Joined(a, p), Joined(b, q), suffix);
      SameFields(a, p, b, q);
    }
    if p == q {
      AscendingIsUnique(a, b);
    }
  }

  lemma ListsFields(ks: seq<Bytes>, m: Params, excluded: set<Bytes>, suffix: Bytes)
    requires Relevant(m, excluded) == m && Ascending(ks) && Elements(ks) == m.Keys
    ensures (forall k <- ks :: k in m) && IsCanonical(Joined(ks, m) + suffix, m, excluded, suffix)
  {
    assert forall k <- ks :: k in Elements(ks);
  }

  lemma JoinedTwo(k: Bytes, v: Bytes, k': Bytes, w: Bytes, m: Params)
    requires k in m && m[k] == v && k' in m && m[k'] == w
    ensures Joined([k, k'], m) == Pair(k, v + [AMPERSAND] + Pair(k', w))
  {
    assert [k, k'][..1] == [k];
    JoinedMore([k, k'], m);
    JoinedOne(k, m);
  }

  /** One field whose value goes on as a second pair would has the string of the two fields. */
  lemma AmpersandInValueCollides(k: Bytes, v: Bytes, k': Bytes, w: Bytes, excluded: set<Bytes>, suffix: Bytes)
    requires Less(k, k') && k !in excluded && k' !in excluded && v != [] && w != []
    ensures var one: Params := map[k := v + [AMPERSAND] + Pair(k', w)];
            var two: Params := map[k := v, k' := w];
            && Relevant(one, excluded) != Relevant(two, excluded)
            && exists s :: IsCanonical(s, one, excluded, suffix) && IsCanonical(s, two, excluded, suffix)
  {
    var one: Params := map[k := v + [AMPERSAND] + Pair(k', w)];
    var two: Params := map[k := v, k' := w];
    LessTotal(k, k');
    assert k' !in one;
    assert Relevant(one, excluded) == one && Relevant(two, excluded) == two;
    JoinedOne(k, one);
    JoinedTwo(k, v, k', w, two);
    assert Elements([k]) == one.Keys && Elements([k, k']) == two.Keys;
    ListsFields([k], one, excluded, suffix);
    ListsFields([k, k'], two, excluded, suffix);
    assert IsCanonical(Joined([k], one) + suffix, two, excluded, suffix);
  }

  // ---- the loops ----

  method SortStrings(input: seq<Bytes>) returns (out: seq<Bytes>)
    requires forall i, j :: 0 <= i < j < |input| ==> input[i] != input[j]
    ensures Ascending(out) && Elements(out) == Elements(input)
    ensures forall i, j :: 0 <= i < j < |out| ==> Before(out[i], out[j])
  {
    out := [];
    var n := 0;
    while n < |input|
      invariant 0 <= n <= |input| && Ascending(out) && Elements(out) == Elements(input[..n])
    {
      var x := input[n];
      var i := 0;
      while i < |out| && Less(out[i], x)
        invariant 0 <= i <= |out| && forall j :: 0 <= j < i ==> Less(out[j], x)
      {
        i := i + 1;
      }
      NotYetIn(input, n, out);
      InsertKeepsAscending(out, i, x);
      assert input[..n + 1] == input[..n] + [x];
      out := out[..i] + [x] + out[i..];
      n := n + 1;
    }
    assert input[..n] == input;
    forall i, j | 0 <= i < j < |out|
      ensures Before(out[i], out[j])
    {
      LessIsByteOrder(out[i], out[j]);
    }
  }

  lemma NotYetIn(input: seq<Bytes>, n: nat, out: seq<Bytes>)
    requires n < |input| && Elements(out) == Elements(input[..n])
    requires forall i, j :: 0 <= i < j < |input| ==> input[i] != input[j]
    ensures input[n] !in out
  {
    assert input[n] !in input[..n];
    assert input[n] !in Elements(out);
  }

  lemma InsertKeepsAscending(ks: seq<Bytes>, i: nat, x: Bytes)
    requires Ascending(ks) && x !in ks && i <= |ks|
    requires forall j :: 0 <= j < i ==> Less(ks[j], x)
    requires i < |ks| ==> !Less(ks[i], x)
    ensures Ascending(ks[..i] + [x] + ks[i..])
    ensures Elements(ks[..i] + [x] + ks[i..]) == Elements(ks) + {x}
  {
    if i < |ks| {
      LessTotal(ks[i], x);
    }
    forall j | i <= j < |ks|
      ensures Less(x, ks[j])
    {
      if i < j {
        LessTransitive(x, ks[i], ks[j]);
      }
    }
    assert ks == ks[..i] + ks[i..];
  }

  /** Ranges over the map in any order, keeping the fields to be signed. */
  method CollectKeys(m: Params, excluded: set<Bytes>) returns (keys: seq<Bytes>)
    ensures Elements(keys) == Relevant(m, excluded).Keys
    ensures forall i, j :: 0 <= i < j < |keys| ==> keys[i] != keys[j]
  {
    ghost var wanted := Relevant(m, excluded).Keys;
    keys := [];
    var rest := m.Keys;
    while rest != {}
      invariant rest <= m.Keys
      invariant Elements(keys) == wanted - rest
      invariant forall i, j :: 0 <= i < j < |keys| ==> keys[i] != keys[j]
      decreases |rest|
    {
      var k :| k in rest;
      CollectStep(keys, k, wanted, rest);
      rest := rest - {k};
      if !(k in excluded || m[k] == []) {
        keys := keys + [k];
      }
    }
  }

  lemma CollectStep(keys: seq<Bytes>, k: Bytes, wanted: set<Bytes>, rest: set<Bytes>)
    requires Elements(keys) == wanted - rest && k in rest
    ensures k !in keys
    ensures Elements(if k in wanted then keys + [k] else keys) == wanted - (rest - {k})
  {
    assert k !in Elements(keys);
    assert Elements(keys + [k]) == Elements(keys) + {k};
  }

  method JoinPairs(keys: seq<Bytes>, m: Params) returns (s: Bytes)
    requires forall k <- keys :: k in m
    ensures s == Joined(keys, m)
  {
    s := [];
    var i := 0;
    while i < |keys|
      invariant 0 <= i <= |keys|
      invariant s == Joined(keys[..i], m)
    {
      assert keys[i] in keys && keys[..i + 1][..i] == keys[..i];
      if i > 0 {
        s := s + [AMPERSAND];
      }
      s := s + keys[i];
      s := s + [EQUALS];
      s := s + m[keys[i]];
      i := i + 1;
    }
    assert keys[..i] == keys;
  }

  lemma {:induction false} JoinedAgrees(ks: seq<Bytes>, m: Params, n: Params)
    requires forall k <- ks :: k in m && k in n && m[k] == n[k]
    ensures Joined(ks, m) == Joined(ks, n)
  {
    if ks != [] {
      assert ks[|ks| - 1] in ks;
      JoinedAgrees(ks[..|ks| - 1], m, n);
    }
  }

  /** What the three signing functions share: filter in map order, sort, join. */
  method Canonical(m: Params, excluded: set<Bytes>, suffix: Bytes) returns (s: Bytes)
    ensures IsCanonical(s, m, excluded, suffix)
  {
    var collected := CollectKeys(m, excluded);
    var keys := SortStrings(collected);
    forall k <- keys
      ensures k in Relevant(m, excluded)
    {
      assert k in Elements(keys);
    }
    s := JoinPairs(keys, m);
    JoinedAgrees(keys, m, Relevant(m, excluded));
    s := s + suffix;
  }

  /** `digest` is MD5 in lower-case hex. */
  method SignMD5Yipay(m: Params, key: Bytes, digest: Bytes -> Bytes) returns (sign: Bytes)
    ensures SignsYipay(sign, m, key, digest)
  {
    var s := Canonical(m, {SIGN, SIGN_TYPE}, key);
    sign := digest(s);
  }

  ghost predicate SignsYipay(sign: Bytes, m: Params, key: Bytes, digest: Bytes -> Bytes) {
    exists s :: IsCanonical(s, m, {SIGN, SIGN_TYPE}, key) && sign == digest(s)
  }

  method SignMD5Hupijiao(m: Params, key: Bytes, digest: Bytes -> Bytes) returns (sign: Bytes)
    ensures SignsHupijiao(sign, m, key, digest)
  {
    var s := Canonical(m, {HASH}, APPSECRET + key);
    sign := digest(s);
  }

  ghost predicate SignsHupijiao(sign: Bytes, m: Params, key: Bytes, digest: Bytes -> Bytes) {
    exists s :: IsCanonical(s, m, {HASH}, APPSECRET + key) && sign == digest(s)
  }

  method LdcCanonical(m: Params, secret: Bytes) returns (s: Bytes)
    ensures IsCanonical(s, m, {SIGN}, secret)
  {
    s := Canonical(m, {SIGN}, secret);
  }

  // ---- verification ----

  function Lower(b: bv8): bv8 { if 65 <= b <= 90 then b + 32 else b }

  ghost predicate SameIgnoringCase(a: Bytes, b: Bytes) {
    |a| == |b| && forall i :: 0 <= i < |a| ==> Lower(a[i]) == Lower(b[i])
  }

  /** Equal, or one ASCII letter in its two cases. */
  predicate SameLetter(a: bv8, b: bv8) {
    || a == b
    || ('A' as int <= a as int <= 'Z' as int && b as int == a as int + 32)
    || ('A' as int <= b as int <= 'Z' as int && a as int == b as int + 32)
  }

  lemma SameLetterIff(a: bv8, b: bv8)
    ensures Lower(a) == Lower(b) <==> SameLetter(a, b)
  {}

  lemma SameIffLetters(a: Bytes, b: Bytes)
    ensures SameIgnoringCase(a, b) <==> |a| == |b| && forall i :: 0 <= i < |a| ==> SameLetter(a[i], b[i])
  {
    forall i | 0 <= i < |a| && |a| == |b|
      ensures Lower(a[i]) == Lower(b[i]) <==> SameLetter(a[i], b[i])
    {
      SameLetterIff(a[i], b[i]);
    }
  }

  lemma DifferenceBits(diff: bv8, a: bv8, b: bv8)
    ensures diff | (a ^ b) == 0 <==> diff == 0 && a == b
  {}

  /** Compares every byte before answering; true exactly for equality up to ASCII case. */
  method VerifyMD5(want: Bytes, got: Bytes) returns (same: bool)
    ensures same <==> SameIgnoringCase(want, got)
    ensures same <==> |want| == |got| && forall i :: 0 <= i < |want| ==> SameLetter(want[i], got[i])
  {
    SameIffLetters(want, got);
    if |want| != |got| {
      return false;
    }
    var diff: bv8 := 0;
    var i := 0;
    while i < |want|
      invariant 0 <= i <= |want|
      invariant diff == 0 <==> forall j :: 0 <= j < i ==> Lower(want[j]) == Lower(got[j])
    {
      var a := want[i];
      var b := got[i];
      if a >= 65 && a <= 90 {
        a := a + 32;
      }
      if b >= 65 && b <= 90 {
        b := b + 32;
      }
      DifferenceBits(diff, a, b);
      diff := diff | (a ^ b);
      i := i + 1;
    }
    return diff == 0;
  }

  /** The signature check of VerifyCallback: recompute over the received fields and compare. */
  method VerifyYipay(m: Params, key: Bytes, digest: Bytes -> Bytes) returns (ok: bool)
    ensures ok <==> SIGN in m && m[SIGN] != []
                    && exists want :: SignsYipay(want, m, key, digest) && SameIgnoringCase(want, m[SIGN])
  {
    if SIGN !in m || m[SIGN] == [] {
      return false;
    }
    var want := SignMD5Yipay(m, key, digest);
    ok := VerifyMD5(want, m[SIGN]);
    forall w | SignsYipay(w, m, key, digest)
      ensures w == want
    {
      SignatureIsUnique(w, want, m, key, digest);
    }
  }

  lemma SignatureIsUnique(a: Bytes, b: Bytes, m: Params, key: Bytes, digest: Bytes -> Bytes)
    requires SignsYipay(a, m, key, digest) && SignsYipay(b, m, key, digest)
    ensures a == b
  {
    var s :| IsCanonical(s, m, {SIGN, SIGN_TYPE}, key) && a == digest(s);
    var t :| IsCanonical(t, m, {SIGN, SIGN_TYPE}, key) && b == digest(t);
    CanonicalIsUnique(s, t, m, {SIGN, SIGN_TYPE}, key);
  }

  /** Signing as CreatePayment does: the signature and its type go in among the fields. */
  function Signed(m: Params, sign: Bytes, kind: Bytes): Params { m[SIGN := sign][SIGN_TYPE := kind] }

  /** Any fields, signed, pass the check of the fields then sent: the signature recomputed over them,
      sign and sign_type included, is the one they carry. */
  lemma SignedFieldsVerify(m: Params, key: Bytes, digest: Bytes -> Bytes, sign: Bytes, kind: Bytes)
    requires SignsYipay(sign, m, key, digest) && sign != []
    ensures var sent := Signed(m, sign, kind);
            && SIGN in sent && sent[SIGN] == sign
            && SignsYipay(sign, sent, key, digest)
            && forall want :: SignsYipay(want, sent, key, digest) ==> SameIgnoringCase(want, sent[SIGN])
  {
    var sent := Signed(m, sign, kind);
    var s :| IsCanonical(s, m, {SIGN, SIGN_TYPE}, key) && sign == digest(s);
    CanonicalIgnores(s, m, SIGN, sign, {SIGN, SIGN_TYPE}, key);
    CanonicalIgnores(s, m[SIGN := sign], SIGN_TYPE, kind, {SIGN, SIGN_TYPE}, key);
    forall want | SignsYipay(want, sent, key, digest)
      ensures want == sign
    {
      SignatureIsUnique(want, sign, sent, key, digest);
    }
  }
}
