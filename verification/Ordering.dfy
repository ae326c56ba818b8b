/** Identifiers, Python's string order, its stable sort, and duplicate-free lists. */
module Ordering {

  type Id = string

  datatype Option<+T> = None | Some(value: T)

  // ---------- the code-point order of Python strings ----------

  predicate Leq(a: string, b: string) {
    if a == [] then true
    else if b == [] then false
    else if a[0] == b[0] then Leq(a[1..], b[1..])
    else a[0] < b[0]
  }

  lemma {:induction false} LeqTotal(a: string, b: string)
    ensures Leq(a, b) || Leq(b, a)
  {
    if a != [] && b != [] && a[0] == b[0] {
      LeqTotal(a[1..], b[1..]);
    }
  }

  lemma {:induction false} LeqTransitive(a: string, b: string, c: string)
    requires Leq(a, b) && Leq(b, c)
    ensures Leq(a, c)
  {
    if a != [] && a[0] == b[0] == c[0] {
      LeqTransitive(a[1..], b[1..], c[1..]);
    }
  }

  lemma {:induction false} LeqAntisymmetric(a: string, b: string)
    requires Leq(a, b) && Leq(b, a)
    ensures a == b
  {
    if a != [] {
      LeqAntisymmetric(a[1..], b[1..]);
      assert a == [a[0]] + a[1..] && b == [b[0]] + b[1..];
    }
  }

  ghost predicate TotalPreorder(leq: (Id, Id) -> bool) {
    && (forall a, b :: leq(a, b) || leq(b, a))
    && (forall a, b, c :: leq(a, b) && leq(b, c) ==> leq(a, c))
  }

  ghost predicate AntisymmetricOn(leq: (Id, Id) -> bool, ids: set<Id>) {
    forall a, b :: a in ids && b in ids && leq(a, b) && leq(b, a) ==> a == b
  }

  /** The strings agree before position `k`, and there `a` has the smaller character. */
  ghost predicate SmallerAt(a: string, b: string, k: nat) {
    k < |a| && k < |b| && a[..k] == b[..k] && a[k] < b[k]
  }

  lemma {:induction false} SmallerAtHead(a: string, b: string, k: nat)
    requires a != [] && b != []
    ensures SmallerAt(a, b, k) <==> if k == 0 then a[0] < b[0] else a[0] == b[0] && SmallerAt(a[1..], b[1..], k - 1)
  {
    if 0 < k < |a| && k < |b| {
      assert a[..k] == [a[0]] + a[1..][..k - 1] && b[..k] == [b[0]] + b[1..][..k - 1];
    }
  }

  lemma {:induction false} PrefixHead(a: string, b: string)
    requires a != [] && b != []
    ensures a <= b <==> a[0] == b[0] && a[1..] <= b[1..]
  {
    assert a == [a[0]] + a[1..] && b == [b[0]] + b[1..];
  }

  /** What the order is: a prefix comes first, and otherwise the smaller character at the first difference decides. */
  lemma {:induction false} LeqIsCodePointOrder(a: string, b: string)
    ensures Leq(a, b) <==> a <= b || exists k :: 0 <= k < |a| && k < |b| && a[..k] == b[..k] && a[k] < b[k]
  {
    LeqBySmaller(a, b);
    if k: nat :| SmallerAt(a, b, k) { assert a[k] < b[k]; }
    if k :| 0 <= k < |a| && k < |b| && a[..k] == b[..k] && a[k] < b[k] { assert SmallerAt(a, b, k); }
  }

  lemma {:induction false} LeqBySmaller(a: string, b: string)
    ensures Leq(a, b) <==> a <= b || exists k :: SmallerAt(a, b, k)
  {
    if a != [] && b != [] {
      forall k: nat ensures SmallerAt(a, b, k) <==> if k == 0 then a[0] < b[0] else a[0] == b[0] && SmallerAt(a[1..], b[1..], k - 1) {
        SmallerAtHead(a, b, k);
      }
      PrefixHead(a, b);
      LeqBySmaller(a[1..], b[1..]);
      hide SmallerAt;
      if k: nat :| SmallerAt(a[1..], b[1..], k) { assert SmallerAt(a, b, k + 1) || a[0] != b[0]; }
      if a[0] < b[0] { assert SmallerAt(a, b, 0); }
    }
  }

  /** Code-point order is a total order, so it may drive a deterministic sort. */
  lemma {:induction false} LeqIsTotalOrder(ids: set<Id>)
    ensures TotalPreorder(Leq) && AntisymmetricOn(Leq, ids)
  {
    forall a, b ensures Leq(a, b) || Leq(b, a) { LeqTotal(a, b); }
    forall a, b, c | Leq(a, b) && Leq(b, c) ensures Leq(a, c) { LeqTransitive(a, b, c); }
    forall a, b | a in ids && b in ids && Leq(a, b) && Leq(b, a) ensures a == b { LeqAntisymmetric(a, b); }
  }

  // ---------- stable sort ----------

  predicate Sorted(s: seq<Id>, leq: (Id, Id) -> bool) {
    forall i, j :: 0 <= i < j < |s| ==> leq(s[i], s[j])
  }

  /** Puts `x` after every element that is not greater, as a stable sort does with an appended element. */
  function Insert(x: Id, s: seq<Id>, leq: (Id, Id) -> bool): (r: seq<Id>)
    ensures multiset(r) == multiset(s) + multiset{x}
  {
    if s == [] then [x]
    else
      var last := |s| - 1;
      assert s == s[..last] + [s[last]];
      if leq(s[last], x) then s + [x] else Insert(x, s[..last], leq) + [s[last]]
  }

  lemma {:induction false} InsertSorted(x: Id, s: seq<Id>, leq: (Id, Id) -> bool)
    requires TotalPreorder(leq) && Sorted(s, leq)
    ensures Sorted(Insert(x, s, leq), leq)
  {
    if s != [] {
      var last := |s| - 1;
      if leq(s[last], x) {
        forall i | 0 <= i < |s| ensures leq(s[i], x) {
          assert leq(s[i], s[last]);
        }
      } else {
        InsertSorted(x, s[..last], leq);
        var front := Insert(x, s[..last], leq);
        forall i | 0 <= i < |front| ensures leq(front[i], s[last]) {
          assert front[i] in multiset(front);
          assert front[i] == x || front[i] in s[..last];
        }
      }
    }
  }

  function Sort(s: seq<Id>, leq: (Id, Id) -> bool): (r: seq<Id>)
    ensures multiset(r) == multiset(s)
  {
    if s == [] then []
    else
      var last := |s| - 1;
      assert s == s[..last] + [s[last]];
      Insert(s[last], Sort(s[..last], leq), leq)
  }

  lemma {:induction false} SortSorted(s: seq<Id>, leq: (Id, Id) -> bool)
    requires TotalPreorder(leq)
    ensures Sorted(Sort(s, leq), leq)
  {
    if s != [] {
      SortSorted(s[..|s| - 1], leq);
      InsertSorted(s[|s| - 1], Sort(s[..|s| - 1], leq), leq);
    }
  }

  /** Elements with equal keys follow each other as `tie` says. */
  ghost predicate TieOrdered(s: seq<Id>, leq: (Id, Id) -> bool, tie: (Id, Id) -> bool) {
    forall i, j :: 0 <= i < j < |s| && leq(s[i], s[j]) && leq(s[j], s[i]) ==> tie(s[i], s[j])
  }

  lemma {:induction false} InsertStable(x: Id, s: seq<Id>, leq: (Id, Id) -> bool, tie: (Id, Id) -> bool)
    requires TieOrdered(s, leq, tie)
    requires forall y :: y in s && leq(y, x) && leq(x, y) ==> tie(y, x)
    ensures TieOrdered(Insert(x, s, leq), leq, tie)
  {
    if s != [] {
      var last := |s| - 1;
      if !leq(s[last], x) {
        InsertStable(x, s[..last], leq, tie);
        var front := Insert(x, s[..last], leq);
        forall i | 0 <= i < |front| && leq(s[last], front[i]) && leq(front[i], s[last]) ensures tie(front[i], s[last]) {
          assert front[i] in multiset(front);
          assert front[i] in s[..last];
        }
      }
    }
  }

  /** Sorting is stable: it keeps the order of elements with equal keys. */
  lemma {:induction false} SortStable(s: seq<Id>, leq: (Id, Id) -> bool, tie: (Id, Id) -> bool)
    requires TieOrdered(s, leq, tie)
    ensures TieOrdered(Sort(s, leq), leq, tie)
  {
    if s != [] {
      var front, x := s[..|s| - 1], s[|s| - 1];
      SortStable(front, leq, tie);
      forall y | y in Sort(front, leq) && leq(y, x) && leq(x, y) ensures tie(y, x) {
        assert y in multiset(Sort(front, leq)) && y in front;
        var i :| 0 <= i < |front| && front[i] == y;
        assert s[i] == y;
      }
      InsertStable(x, Sort(front, leq), leq, tie);
    }
  }

  // ---------- duplicate-free lists ----------

  ghost function Elems<T>(s: seq<T>): set<T> { set x | x in s }

  lemma {:induction false} ElemsAppend<T>(s: seq<T>, x: T)
    ensures Elems(s + [x]) == Elems(s) + {x}
  {}

  ghost predicate NoDup<T>(s: seq<T>) {
    forall i, j :: 0 <= i < j < |s| ==> s[i] != s[j]
  }

  lemma {:induction false} NoDupAppend<T>(s: seq<T>, x: T)
    ensures NoDup(s + [x]) <==> NoDup(s) && x !in s
  {
    var t := s + [x];
    if NoDup(t) {
      forall i, j | 0 <= i < j < |s| ensures s[i] != s[j] { assert t[i] != t[j]; }
      forall i | 0 <= i < |s| ensures s[i] != x { assert t[i] != t[|s|]; }
    }
  }

  lemma {:induction false} NoDupCons<T>(x: T, tail: seq<T>, s: set<T>)
    requires NoDup(tail) && Elems(tail) <= s && x !in s
    ensures NoDup([x] + tail) && Elems([x] + tail) == {x} + Elems(tail)
  {
    var all := [x] + tail;
    forall i, j | 0 <= i < j < |all| ensures all[i] != all[j] {
      assert all[j] == tail[j - 1] && tail[j - 1] in Elems(tail);
    }
  }

  lemma {:induction false} NoDupCardinality<T>(s: seq<T>)
    ensures |Elems(s)| <= |s|
    ensures NoDup(s) <==> |Elems(s)| == |s|
  {
    if s != [] {
      var front, x := s[..|s| - 1], s[|s| - 1];
      assert s == front + [x];
      NoDupCardinality(front);
      NoDupAppend(front, x);
      ElemsAppend(front, x);
      if x in front { assert Elems(front) + {x} == Elems(front); }
    }
  }

  lemma {:induction false} SubsetCardinality<T>(a: set<T>, b: set<T>)
    requires a <= b
    ensures |a| <= |b|
    ensures |a| == |b| ==> a == b
  {
    assert b == a + (b - a);
    if |a| == |b| { assert |b - a| == 0; }
  }

  /** Sorting keeps the elements, the length and the absence of duplicates. */
  lemma {:induction false} SortKeeps(s: seq<Id>, leq: (Id, Id) -> bool)
    ensures Elems(Sort(s, leq)) == Elems(s) && |Sort(s, leq)| == |s|
    ensures NoDup(s) ==> NoDup(Sort(s, leq))
  {
    hide Leq, Insert;
    var r := Sort(s, leq);
    assert |multiset(r)| == |multiset(s)|;
    forall x ensures x in r <==> x in s {
      assert x in multiset(r) <==> x in multiset(s);
    }
    NoDupCardinality(r);
    NoDupCardinality(s);
  }

  /** More list positions than available values forces a repetition. */
  lemma {:induction false} Pigeonhole<T>(s: seq<T>, pool: set<T>)
    requires Elems(s) <= pool && |s| > |pool|
    ensures !NoDup(s)
  {
    NoDupCardinality(s);
    SubsetCardinality(Elems(s), pool);
  }

  lemma {:induction false} SameElementsSameLength<T>(s: seq<T>, t: seq<T>)
    requires NoDup(s) && NoDup(t) && Elems(s) == Elems(t)
    ensures |s| == |t|
  {
    NoDupCardinality(s);
    NoDupCardinality(t);
  }

  lemma {:induction false} KeysOfUpdate<K, V>(m: map<K, V>, k: K, v: V)
    requires k in m
    ensures m[k := v].Keys == m.Keys
  {}

  lemma {:induction false} UpdateTwice<K, V>(m: map<K, V>, k: K, v: V, w: V)
    ensures m[k := v][k := w] == m[k := w]
  {}

  lemma {:induction false} PrefixStep<T>(before: seq<T>, s: seq<T>, j: nat)
    requires j < |s|
    ensures before + s[..j] + [s[j]] == before + s[..j + 1]
  {}

  lemma {:induction false} FirstDifference<T>(s: seq<T>, t: seq<T>) returns (k: nat)
    requires |s| == |t| && s != t
    ensures k < |s| && s[..k] == t[..k] && s[k] != t[k]
  {
    k := 0;
    while s[k] == t[k]
      invariant k < |s| && s[..k] == t[..k]
      invariant exists j :: k <= j < |s| && s[j] != t[j]
      decreases |s| - k
    {
      assert s[..k + 1] == s[..k] + [s[k]] == t[..k + 1];
      k := k + 1;
    }
  }

  // ---------- sorted listings of sets ----------

  ghost predicate IsListing(l: seq<string>, names: set<string>) {
    NoDup(l) && Elems(l) == names && Sorted(l, Leq)
  }

  lemma {:induction false} ListingIsUnique(a: seq<string>, b: seq<string>, names: set<string>)
    requires IsListing(a, names) && IsListing(b, names)
    ensures a == b
  {
    SameElementsSameLength(a, b);
    if a != b {
      var k := FirstDifference(a, b);
      assert a[k] in Elems(b) && b[k] in Elems(a);
      var i :| 0 <= i < |b| && b[i] == a[k];
      var j :| 0 <= j < |a| && a[j] == b[k];
      assert forall n :: 0 <= n < k ==> a[n] == a[..k][n] && b[n] == b[..k][n];
      LeqAntisymmetric(a[k], b[k]);
    }
  }

  lemma {:induction false} ListingExists(names: set<string>)
    ensures exists l :: IsListing(l, names)
    decreases |names|
  {
    if names == {} {
      assert IsListing([], names);
    } else {
      var x :| x in names;
      ListingExists(names - {x});
      var rest :| IsListing(rest, names - {x});
      ElemsAppend(rest, x);
      SortedListing(rest + [x], names);
    }
  }

  lemma {:induction false} SortedListing(s: seq<string>, names: set<string>)
    requires NoDup(s) && Elems(s) == names
    ensures IsListing(Sort(s, Leq), names)
  {
    LeqIsTotalOrder(names);
    SortSorted(s, Leq);
    SortKeeps(s, Leq);
  }

  /** `sorted(names)` for a set of names. */
  ghost function Listing(names: set<string>): (l: seq<string>)
    ensures IsListing(l, names)
  {
    ListingExists(names);
    var l :| IsListing(l, names);
    l
  }

  // ---------- list functions ----------

  /** `list(dict.fromkeys(s))`: the first occurrence of every element, in order. */
  function Dedup(s: seq<Id>): (r: seq<Id>)
    ensures NoDup(r) && Elems(r) == Elems(s)
    ensures NoDup(s) ==> r == s
  {
    if s == [] then []
    else
      var last := |s| - 1;
      assert s == s[..last] + [s[last]];
      var front := Dedup(s[..last]);
      if s[last] in front then front
      else
        assert Elems(front + [s[last]]) == Elems(front) + {s[last]} == Elems(s);
        front + [s[last]]
  }

  /** Elements come in the order of their first occurrences. */
  lemma {:induction false} DedupKeepsFirst(s: seq<Id>, i: nat, j: nat)
    requires i < j < |Dedup(s)|
    ensures Rank(s, Dedup(s)[i]) < Rank(s, Dedup(s)[j])
  {
    var last := |s| - 1;
    var front := s[..last];
    assert s == front + [s[last]];
    var d := Dedup(front);
    assert Elems(d) == Elems(front);
    forall k | 0 <= k < |d| ensures d[k] in front && Rank(s, d[k]) == Rank(front, d[k]) {
      assert d[k] in Elems(d);
      RankOfPrefix(front, [s[last]], d[k]);
    }
    if j < |d| {
      DedupKeepsFirst(front, i, j);
    } else {
      assert Dedup(s)[j] == s[last] && s[last] !in Elems(d);
      RankOfNew(front, s[last]);
    }
  }

  lemma {:induction false} RankOfPrefix(s: seq<Id>, t: seq<Id>, x: Id)
    requires x in s
    ensures Rank(s + t, x) == Rank(s, x)
  {
    if s[0] != x {
      assert s == [s[0]] + s[1..] && (s + t)[1..] == s[1..] + t;
      RankOfPrefix(s[1..], t, x);
    }
  }

  lemma {:induction false} RankOfNew(s: seq<Id>, x: Id)
    requires x !in s
    ensures Rank(s + [x], x) == |s|
  {
    if s != [] {
      assert s == [s[0]] + s[1..] && (s + [x])[1..] == s[1..] + [x];
      RankOfNew(s[1..], x);
    }
  }

  lemma {:induction false} DedupPrefix(s: seq<Id>, t: seq<Id>)
    ensures Dedup(s) <= Dedup(s + t)
    decreases |t|
  {
    if t == [] {
      assert s + t == s;
    } else {
      assert (s + t)[..|s + t| - 1] == s + t[..|t| - 1];
      DedupPrefix(s, t[..|t| - 1]);
    }
  }

  /** Removing duplicates early changes nothing. */
  lemma {:induction false} DedupTwice(s: seq<Id>, t: seq<Id>)
    ensures Dedup(Dedup(s) + t) == Dedup(s + t)
    decreases |t|
  {
    if t == [] {
      assert Dedup(s) + t == Dedup(s) && s + t == s;
    } else {
      var front, x := t[..|t| - 1], t[|t| - 1];
      assert Dedup(s) + t == (Dedup(s) + front) + [x] && s + t == (s + front) + [x];
      assert (Dedup(s) + t)[..|Dedup(s) + t| - 1] == Dedup(s) + front && (s + t)[..|s + t| - 1] == s + front;
      DedupTwice(s, front);
    }
  }

  function Filter(s: seq<Id>, keep: set<Id>): (r: seq<Id>)
    ensures forall x :: x in r <==> x in s && x in keep
    ensures NoDup(s) ==> NoDup(r)
  {
    if s == [] then []
    else
      var last := |s| - 1;
      assert s == s[..last] + [s[last]];
      if s[last] in keep then Filter(s[..last], keep) + [s[last]] else Filter(s[..last], keep)
  }

  /** The position of `x`, or the length when it is absent: `index.get(x, len(s))`. */
  function Rank(s: seq<Id>, x: Id): (r: nat)
    ensures r <= |s|
    ensures r < |s| ==> s[r] == x
    ensures r < |s| <==> x in s
    ensures x !in s[..r]
  {
    if s == [] then 0
    else if s[0] == x then 0
    else
      var r := Rank(s[1..], x);
      assert s == [s[0]] + s[1..];
      assert s[..1 + r] == [s[0]] + s[1..][..r];
      1 + r
  }

  lemma {:induction false} FirstPosition(s: seq<Id>, x: Id, i: nat)
    requires i < |s| && s[i] == x && x !in s[..i]
    ensures Rank(s, x) == i
  {
    if i > 0 {
      assert s[0] == s[..i][0];
      assert s[..i] == [s[0]] + s[1..][..i - 1];
      FirstPosition(s[1..], x, i - 1);
    }
  }

  lemma {:induction false} RankOfPosition(s: seq<Id>, i: nat)
    requires NoDup(s) && i < |s|
    ensures Rank(s, s[i]) == i
  {
    FirstPosition(s, s[i], i);
  }
}
