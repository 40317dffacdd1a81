/**
  Python's ordering of strings (lexicographic by code point) and the two ways
  the application sorts: `sorted(...)` of a set of strings, and a stable
  `sorted(xs, key=..., reverse=...)` over records.
 */
module Ordering {

  // ---------------------------------------------------------------------------
  // String order
  // ---------------------------------------------------------------------------

  /** Python's `a < b` on `str`. */
  predicate LexLess(a: string, b: string)
    decreases |a|
  {
    if a == [] then b != []
    else if b == [] then false
    else if a[0] != b[0] then a[0] < b[0]
    else LexLess(a[1..], b[1..])
  }

  /** Python's `a <= b` on `str`. */
  predicate LexLe(a: string, b: string)
  {
    a == b || LexLess(a, b)
  }

  lemma {:induction false} LexLessIrreflexive(a: string)
    ensures !LexLess(a, a)
    decreases |a|
  {
    if a != [] {
      LexLessIrreflexive(a[1..]);
    }
  }

  lemma {:induction false} LexLessTransitive(a: string, b: string, c: string)
    requires LexLess(a, b) && LexLess(b, c)
    ensures LexLess(a, c)
    decreases |a|
  {
    if a != [] && b != [] && c != [] && a[0] == b[0] && b[0] == c[0] {
      LexLessTransitive(a[1..], b[1..], c[1..]);
    }
  }

  lemma {:induction false} LexLessTotal(a: string, b: string)
    ensures a == b || LexLess(a, b) || LexLess(b, a)
    decreases |a|
  {
    if a != [] && b != [] && a[0] == b[0] {
      LexLessTotal(a[1..], b[1..]);
      if a[1..] == b[1..] {
        assert a == [a[0]] + a[1..] && b == [b[0]] + b[1..];
      }
    }
  }

  lemma LexLessAsymmetric(a: string, b: string)
    requires LexLess(a, b)
    ensures !LexLess(b, a)
  {
    if LexLess(b, a) {
      LexLessTransitive(a, b, a);
      LexLessIrreflexive(a);
    }
  }

  lemma LexLeTotal(a: string, b: string)
    ensures LexLe(a, b) || LexLe(b, a)
  {
    LexLessTotal(a, b);
  }

  lemma LexLeTransitive(a: string, b: string, c: string)
    requires LexLe(a, b) && LexLe(b, c)
    ensures LexLe(a, c)
  {
    if a != b && b != c {
      LexLessTransitive(a, b, c);
    }
  }

  // ---------------------------------------------------------------------------
  // sorted(set of strings)
  // ---------------------------------------------------------------------------

  predicate StrictlySorted(xs: seq<string>)
  {
    forall i, j :: 0 <= i < j < |xs| ==> LexLess(xs[i], xs[j])
  }

  predicate IsMin(m: string, s: set<string>)
  {
    m in s && forall x :: x in s && x != m ==> LexLess(m, x)
  }

  /** Every non-empty finite set of strings has a least element. */
  lemma {:induction false} MinExists(s: set<string>)
    requires s != {}
    ensures exists m :: IsMin(m, s)
    decreases |s|
  {
    var y :| y in s;
    if s == {y} {
      assert IsMin(y, s);
    } else {
      MinExists(s - {y});
      var m' :| IsMin(m', s - {y});
      LexLessTotal(y, m');
      if LexLess(y, m') {
        forall x | x in s && x != y ensures LexLess(y, x) {
          if x != m' {
            LexLessTransitive(y, m', x);
          }
        }
        assert IsMin(y, s);
      } else {
        assert IsMin(m', s);
      }
    }
  }

  lemma MinUnique(s: set<string>)
    ensures forall a, b :: IsMin(a, s) && IsMin(b, s) ==> a == b
  {
    forall a, b | IsMin(a, s) && IsMin(b, s) ensures a == b {
      if a != b {
        LexLessAsymmetric(a, b);
      }
    }
  }

  /** `sorted(s)` for a set of strings: its elements in increasing order, each once. */
  function SortedSet(s: set<string>): (r: seq<string>)
    ensures |r| == |s|
    ensures forall x :: x in r <==> x in s
    ensures StrictlySorted(r)
    decreases |s|
  {
    if s == {} then []
    else
      var m := MinOf(s);
      var rest := SortedSet(s - {m});
      assert forall i :: 0 <= i < |rest| ==> LexLess(m, rest[i]) by {
        forall i | 0 <= i < |rest| ensures LexLess(m, rest[i]) {
          assert rest[i] in s - {m};
        }
      }
      [m] + rest
  }

  /** The least element of a non-empty set of strings. */
  function MinOf(s: set<string>): (m: string)
    requires s != {}
    ensures m in s && forall x :: x in s && x != m ==> LexLess(m, x)
  {
    MinExists(s);
    MinUnique(s);
    var m :| IsMin(m, s);
    m
  }

  /** Two strictly sorted lists with the same elements are the same list, so
      `SortedSet` is the only possible result of `sorted(s)`. */
  lemma {:induction false} StrictlySortedUnique(a: seq<string>, b: seq<string>)
    requires StrictlySorted(a) && StrictlySorted(b)
    requires forall x :: x in a <==> x in b
    ensures a == b
    decreases |a|
  {
    assert a != [] ==> a[0] in a;
    assert b != [] ==> b[0] in b;
    if a != [] && b != [] {
      assert a[0] in b;
      assert b[0] in a;
      if a[0] != b[0] {
        var i :| 0 <= i < |b| && b[i] == a[0];
        var j :| 0 <= j < |a| && a[j] == b[0];
        assert LexLess(b[0], a[0]);
        assert LexLess(a[0], b[0]);
        LexLessAsymmetric(a[0], b[0]);
      }
      forall x ensures x in a[1..] <==> x in b[1..] {
        if x in a[1..] {
          var k :| 1 <= k < |a| && a[k] == x;
          assert LexLess(a[0], x);
          LexLessIrreflexive(x);
          assert x in b;
        }
        if x in b[1..] {
          var k :| 1 <= k < |b| && b[k] == x;
          assert LexLess(b[0], x);
          LexLessIrreflexive(x);
          assert x in a;
        }
      }
      StrictlySortedUnique(a[1..], b[1..]);
      assert a == [a[0]] + a[1..] && b == [b[0]] + b[1..];
    }
  }

  // ---------------------------------------------------------------------------
  // Stable sort by a total preorder
  // ---------------------------------------------------------------------------

  ghost predicate TotalPreorder<T(!new)>(le: (T, T) -> bool)
  {
    (forall a, b :: le(a, b) || le(b, a)) &&
    (forall a, b, c :: le(a, b) && le(b, c) ==> le(a, c))
  }

  predicate SortedBy<T>(xs: seq<T>, le: (T, T) -> bool)
  {
    forall i, j :: 0 <= i < j < |xs| ==> le(xs[i], xs[j])
  }

  /** Places `x` before the first element it is not after, keeping equal
      elements that come after it in the input after it. */
  function Insert<T(!new)>(x: T, xs: seq<T>, le: (T, T) -> bool): (r: seq<T>)
    requires TotalPreorder(le) && SortedBy(xs, le)
    ensures SortedBy(r, le)
    ensures multiset(r) == multiset(xs) + multiset{x}
    ensures forall i :: 0 <= i < |r| ==> r[i] == x || r[i] in xs
    decreases |xs|
  {
    if xs == [] then [x]
    else if le(x, xs[0]) then [x] + xs
    else
      var rest := Insert(x, xs[1..], le);
      InsertBehindHead(x, xs, rest, le);
      assert xs == [xs[0]] + xs[1..];
      [xs[0]] + rest
  }

  /** When `x` goes after the head, the head stays in front of the sorted rest. */
  lemma InsertBehindHead<T(!new)>(x: T, xs: seq<T>, rest: seq<T>, le: (T, T) -> bool)
    requires TotalPreorder(le) && SortedBy(xs, le) && xs != [] && !le(x, xs[0])
    requires SortedBy(rest, le)
    requires forall i :: 0 <= i < |rest| ==> rest[i] == x || rest[i] in xs[1..]
    ensures SortedBy([xs[0]] + rest, le)
  {
    forall i | 0 <= i < |rest| ensures le(xs[0], rest[i]) {
      if rest[i] != x {
        var k :| 0 <= k < |xs[1..]| && xs[1..][k] == rest[i];
        assert xs[k + 1] == rest[i];
      }
    }
    var r := [xs[0]] + rest;
    forall i, j | 0 <= i < j < |r| ensures le(r[i], r[j]) {
      if i > 0 {
        assert r[i] == rest[i - 1] && r[j] == rest[j - 1];
      }
    }
  }

  /** `sorted(xs, key=...)` where `le` compares keys: a sorted permutation of `xs`.
      Passing the reversed comparison gives `reverse=True`. */
  function SortBy<T(!new)>(xs: seq<T>, le: (T, T) -> bool): (r: seq<T>)
    requires TotalPreorder(le)
    ensures SortedBy(r, le)
    ensures multiset(r) == multiset(xs)
    decreases |xs|
  {
    if xs == [] then []
    else
      assert xs == [xs[0]] + xs[1..];
      Insert(xs[0], SortBy(xs[1..], le), le)
  }

  /** Sorting keeps the elements and the length. */
  lemma SortByMembers<T(!new)>(xs: seq<T>, le: (T, T) -> bool)
    requires TotalPreorder(le)
    ensures |SortBy(xs, le)| == |xs|
    ensures forall e :: e in SortBy(xs, le) <==> e in xs
  {
    var r := SortBy(xs, le);
    assert |r| == |multiset(r)| == |multiset(xs)| == |xs|;
    forall e ensures e in r <==> e in xs {
      assert e in r <==> e in multiset(r);
      assert e in xs <==> e in multiset(xs);
    }
  }

  /** The elements of `xs` that `le` ranks level with `c`, in their order in `xs`. */
  function Peers<T>(xs: seq<T>, c: T, le: (T, T) -> bool): seq<T>
  {
    if xs == [] then []
    else (if le(xs[0], c) && le(c, xs[0]) then [xs[0]] else []) + Peers(xs[1..], c, le)
  }

  lemma PeersCons<T>(h: T, t: seq<T>, c: T, le: (T, T) -> bool)
    ensures Peers([h] + t, c, le) == (if le(h, c) && le(c, h) then [h] else []) + Peers(t, c, le)
  {
    assert ([h] + t)[1..] == t;
  }

  /** Inserting `x` puts it in front of every element ranked level with it. */
  lemma {:induction false} InsertPeers<T(!new)>(x: T, ys: seq<T>, c: T, le: (T, T) -> bool)
    requires TotalPreorder(le) && SortedBy(ys, le)
    ensures Peers(Insert(x, ys, le), c, le) == (if le(x, c) && le(c, x) then [x] else []) + Peers(ys, c, le)
    decreases |ys|
  {
    if ys == [] {
      PeersCons(x, [], c, le);
    } else if le(x, ys[0]) {
      PeersCons(x, ys, c, le);
    } else {
      var rest := Insert(x, ys[1..], le);
      assert Insert(x, ys, le) == [ys[0]] + rest;
      InsertPeers(x, ys[1..], c, le);
      assert ys == [ys[0]] + ys[1..];
      PeersBehind(x, ys[0], ys[1..], rest, c, le);
    }
  }

  /** When `x` goes behind `y`, `y` is not level with `x`'s peers, so the peers keep their order. */
  lemma PeersBehind<T>(x: T, y: T, t: seq<T>, rest: seq<T>, c: T, le: (T, T) -> bool)
    requires !le(x, y) && (le(x, c) && le(c, y) ==> le(x, y))
    requires Peers(rest, c, le) == (if le(x, c) && le(c, x) then [x] else []) + Peers(t, c, le)
    ensures Peers([y] + rest, c, le) == (if le(x, c) && le(c, x) then [x] else []) + Peers([y] + t, c, le)
  {
    PeersCons(y, rest, c, le);
    PeersCons(y, t, c, le);
  }

  /** `SortBy` is stable: elements ranked level with each other keep their input order. */
  lemma {:induction false} SortByStable<T(!new)>(xs: seq<T>, c: T, le: (T, T) -> bool)
    requires TotalPreorder(le)
    ensures Peers(SortBy(xs, le), c, le) == Peers(xs, c, le)
    decreases |xs|
  {
    if xs != [] {
      SortByStable(xs[1..], c, le);
      InsertPeers(xs[0], SortBy(xs[1..], le), c, le);
    }
  }

  // ---------------------------------------------------------------------------
  // Distinct elements
  // ---------------------------------------------------------------------------

  /** No element appears twice. */
  predicate Distinct<T(==)>(xs: seq<T>)
  {
    forall i, j :: 0 <= i < j < |xs| ==> xs[i] != xs[j]
  }

  lemma {:induction false} DistinctOnce<T>(xs: seq<T>)
    requires Distinct(xs)
    ensures forall x :: multiset(xs)[x] <= 1
    decreases |xs|
  {
    if xs != [] {
      var init := xs[..|xs| - 1];
      var last := xs[|xs| - 1];
      assert xs == init + [last];
      assert Distinct(init) by {
        forall i, j | 0 <= i < j < |init| ensures init[i] != init[j] {
          assert init[i] == xs[i] && init[j] == xs[j];
        }
      }
      DistinctOnce(init);
      assert last !in init by {
        forall i | 0 <= i < |init| ensures init[i] != last {
          assert init[i] == xs[i];
        }
      }
    }
  }

  lemma OnceDistinct<T>(xs: seq<T>)
    requires forall x :: multiset(xs)[x] <= 1
    ensures Distinct(xs)
  {
    forall i, j | 0 <= i < j < |xs| ensures xs[i] != xs[j] {
      CountedTwice(xs, i, j);
    }
  }

  lemma CountedTwice<T>(xs: seq<T>, i: nat, j: nat)
    requires i < j < |xs|
    ensures xs[i] == xs[j] ==> multiset(xs)[xs[j]] >= 2
  {
    assert xs == xs[..j] + [xs[j]] + xs[j + 1..];
    assert xs[i] in xs[..j];
  }

  lemma StrictlySortedDistinct(xs: seq<string>)
    requires StrictlySorted(xs)
    ensures Distinct(xs)
  {
    forall i, j | 0 <= i < j < |xs| ensures xs[i] != xs[j] {
      LexLessIrreflexive(xs[i]);
    }
  }

  lemma DistinctAppend<T>(a: seq<T>, b: seq<T>)
    requires Distinct(a) && Distinct(b)
    requires forall x :: x in a ==> x !in b
    ensures Distinct(a + b)
  {
    var ab := a + b;
    forall i, j | 0 <= i < j < |ab| ensures ab[i] != ab[j] {
      if i < |a| && j >= |a| {
        assert ab[i] in a && ab[j] == b[j - |a|];
      } else if i >= |a| {
        assert ab[i] == b[i - |a|] && ab[j] == b[j - |a|];
      }
    }
  }

  /** Sorting keeps distinct elements distinct. */
  lemma SortByDistinct<T(!new)>(xs: seq<T>, le: (T, T) -> bool)
    requires TotalPreorder(le) && Distinct(xs)
    ensures Distinct(SortBy(xs, le))
  {
    DistinctOnce(xs);
    OnceDistinct(SortBy(xs, le));
  }
}
