/** The orders that queries and sorts use: strings by character code, stable sorting
    by a string key, and the ascending listing of a set. */
module Ordering {
  import opened Wrappers
  import opened Text

  predicate Leq(a: string, b: string) {
    a == [] || (b != [] && (a[0] < b[0] || (a[0] == b[0] && Leq(a[1..], b[1..]))))
  }

  predicate Less(a: string, b: string) {
    a != b && Leq(a, b)
  }

  lemma {:induction false} LeqReflexive(a: string)
    ensures Leq(a, a)
  {
    if a != [] {
      LeqReflexive(a[1..]);
    }
  }

  lemma {:induction false} LeqTotal(a: string, b: string)
    ensures Leq(a, b) || Leq(b, a)
  {
    if a != [] && b != [] {
      LeqTotal(a[1..], b[1..]);
    }
  }

  lemma {:induction false} LeqAntisymmetric(a: string, b: string)
    requires Leq(a, b) && Leq(b, a)
    ensures a == b
  {
    if a != [] && b != [] {
      LeqAntisymmetric(a[1..], b[1..]);
      assert a == [a[0]] + a[1..] && b == [b[0]] + b[1..];
    }
  }

  lemma {:induction false} LeqTransitive(a: string, b: string, c: string)
    requires Leq(a, b) && Leq(b, c)
    ensures Leq(a, c)
  {
    if a != [] && a[0] == b[0] && b[0] == c[0] {
      LeqTransitive(a[1..], b[1..], c[1..]);
    }
  }

  // ----- Comparing without regard to case -----

  datatype Comparison = LessThan | EqualTo | GreaterThan

  /** Walks both strings, lower-casing as it goes. The answer is that of comparing
      the lower-cased strings. */
  method CompareCaseInsensitive(s1: string, s2: string) returns (r: Comparison)
    ensures r.EqualTo? <==> Lower(s1) == Lower(s2)
    ensures r.LessThan? <==> Less(Lower(s1), Lower(s2))
    ensures r.GreaterThan? <==> Less(Lower(s2), Lower(s1))
  {
    var l1, l2 := Lower(s1), Lower(s2);
    var i := 0;
    while true
      invariant 0 <= i <= |s1| && i <= |s2|
      invariant l1[..i] == l2[..i]
      decreases |s1| - i
    {
      LeqAfterPrefix(l1, l2, i);
      LeqAfterPrefix(l2, l1, i);
      if i < |s1| && i < |s2| {
        var c1, c2 := LowerChar(s1[i]), LowerChar(s2[i]);
        if c1 != c2 {
          assert l1[i] != l2[i];
          assert l1[i..][0] == c1 && l2[i..][0] == c2;
          return if c1 < c2 then LessThan else GreaterThan;
        }
        assert l1[..i + 1] == l1[..i] + [l1[i]] && l2[..i + 1] == l2[..i] + [l2[i]];
        i := i + 1;
      } else if i < |s2| {
        assert l1[i..] == [];
        return LessThan;
      } else if i < |s1| {
        assert l2[i..] == [];
        return GreaterThan;
      } else {
        assert l1 == l1[..i] && l2 == l2[..i];
        return EqualTo;
      }
    }
  }

  lemma {:induction false} LeqAfterPrefix(a: string, b: string, i: nat)
    requires i <= |a| && i <= |b| && a[..i] == b[..i]
    ensures Leq(a, b) <==> Leq(a[i..], b[i..])
  {
    if i == 0 {
      assert a[i..] == a && b[i..] == b;
    } else {
      assert a[0] == a[..i][0] && b[0] == b[..i][0];
      assert a[1..][..i - 1] == a[..i][1..] && b[1..][..i - 1] == b[..i][1..];
      LeqAfterPrefix(a[1..], b[1..], i - 1);
      assert a[1..][i - 1..] == a[i..] && b[1..][i - 1..] == b[i..];
    }
  }

  // ----- Stable sorting by a key -----

  /** Puts `x` in front of the first element whose key is not smaller. */
  function Insert<T>(key: T -> string, x: T, s: seq<T>): seq<T> {
    if s == [] || Leq(key(x), key(s[0])) then [x] + s else [s[0]] + Insert(key, x, s[1..])
  }

  function StableSort<T>(key: T -> string, s: seq<T>): (r: seq<T>)
    ensures |r| == |s|
  {
    if s == [] then []
    else
      InsertLength(key, s[0], StableSort(key, s[1..]));
      Insert(key, s[0], StableSort(key, s[1..]))
  }

  lemma InsertLength<T>(key: T -> string, x: T, s: seq<T>)
    ensures |Insert(key, x, s)| == |s| + 1
  {
  }

  /** The elements with a given key, in order. */
  function WithKey<T>(key: T -> string, s: seq<T>, k: string): seq<T> {
    if s == [] then []
    else (if key(s[0]) == k then [s[0]] else []) + WithKey(key, s[1..], k)
  }

  function FindFirst<T>(key: T -> string, s: seq<T>, k: string): Option<T> {
    if s == [] then None
    else if key(s[0]) == k then Some(s[0])
    else FindFirst(key, s[1..], k)
  }

  predicate SortedBy<T>(key: T -> string, s: seq<T>) {
    forall i, j :: 0 <= i < j < |s| ==> Leq(key(s[i]), key(s[j]))
  }

  lemma {:induction false} InsertSorted<T>(key: T -> string, x: T, s: seq<T>)
    requires SortedBy(key, s)
    ensures SortedBy(key, Insert(key, x, s))
    ensures multiset(Insert(key, x, s)) == multiset{x} + multiset(s)
  {
    if s != [] {
      assert s == [s[0]] + s[1..];
      if Leq(key(x), key(s[0])) {
        forall j | 0 <= j < |s|
          ensures Leq(key(x), key(s[j]))
        {
          if j > 0 {
            LeqTransitive(key(x), key(s[0]), key(s[j]));
          }
        }
      } else {
        LeqTotal(key(x), key(s[0]));
        InsertSorted(key, x, s[1..]);
        var r := Insert(key, x, s[1..]);
        forall j | 0 <= j < |r|
          ensures Leq(key(s[0]), key(r[j]))
        {
          assert r[j] in multiset(r);
          assert r[j] == x || r[j] in s[1..];
        }
      }
    }
  }

  /** Sorting puts the elements in ascending order and only permutes them. */
  lemma {:induction false} StableSortSorts<T>(key: T -> string, s: seq<T>)
    ensures SortedBy(key, StableSort(key, s))
    ensures multiset(StableSort(key, s)) == multiset(s)
  {
    if s != [] {
      StableSortSorts(key, s[1..]);
      InsertSorted(key, s[0], StableSort(key, s[1..]));
      assert s == [s[0]] + s[1..];
    }
  }

  lemma WithKeyCons<T>(key: T -> string, x: T, s: seq<T>, k: string)
    ensures WithKey(key, [x] + s, k) == if key(x) == k then [x] + WithKey(key, s, k) else WithKey(key, s, k)
  {
    assert ([x] + s)[1..] == s;
  }

  lemma {:induction false} InsertWithKey<T>(key: T -> string, x: T, s: seq<T>, k: string)
    ensures WithKey(key, Insert(key, x, s), k) == if key(x) == k then [x] + WithKey(key, s, k) else WithKey(key, s, k)
  {
    if s == [] || Leq(key(x), key(s[0])) {
      WithKeyCons(key, x, s, k);
    } else {
      InsertWithKey(key, x, s[1..], k);
      LeqReflexive(key(x));
      WithKeyCons(key, s[0], Insert(key, x, s[1..]), k);
      assert [s[0]] + s[1..] == s;
      WithKeyCons(key, s[0], s[1..], k);
    }
  }

  lemma StableSortMembers<T>(key: T -> string, s: seq<T>, x: T)
    ensures x in StableSort(key, s) <==> x in s
  {
    hide StableSort, SortedBy;
    StableSortSorts(key, s);
    assert x in StableSort(key, s) <==> x in multiset(StableSort(key, s));
    assert x in s <==> x in multiset(s);
  }

  /** Sorting is stable: elements with the same key keep their order. */
  lemma {:induction false} StableSortStable<T>(key: T -> string, s: seq<T>, k: string)
    ensures WithKey(key, StableSort(key, s), k) == WithKey(key, s, k)
  {
    if s != [] {
      StableSortStable(key, s[1..], k);
      WithKeyCons(key, s[0], s[1..], k);
      assert [s[0]] + s[1..] == s;
      InsertWithKey(key, s[0], StableSort(key, s[1..]), k);
    }
  }

  lemma {:induction false} FindFirstWithKey<T>(key: T -> string, s: seq<T>, k: string)
    ensures FindFirst(key, s, k) == if WithKey(key, s, k) == [] then None else Some(WithKey(key, s, k)[0])
  {
    if s != [] {
      FindFirstWithKey(key, s[1..], k);
    }
  }

  /** Hence finding the first match before or after sorting gives the same. */
  lemma FindFirstSorted<T>(key: T -> string, s: seq<T>, k: string)
    ensures FindFirst(key, StableSort(key, s), k) == FindFirst(key, s, k)
  {
    StableSortStable(key, s, k);
    FindFirstWithKey(key, s, k);
    FindFirstWithKey(key, StableSort(key, s), k);
  }

  lemma {:induction false} FindFirstConcat<T>(key: T -> string, a: seq<T>, b: seq<T>, k: string)
    ensures FindFirst(key, a + b, k) == if FindFirst(key, a, k).Some? then FindFirst(key, a, k)
      else FindFirst(key, b, k)
  {
    if a == [] {
      assert a + b == b;
    } else {
      assert (a + b)[1..] == a[1..] + b;
      FindFirstConcat(key, a[1..], b, k);
    }
  }

  // ----- The ascending listing of a set -----

  ghost predicate Ascending(s: seq<string>) {
    forall i, j :: 0 <= i < j < |s| ==> Less(s[i], s[j])
  }

  ghost predicate Lists<T(!new)>(s: seq<T>, elements: set<T>) {
    forall x :: x in elements <==> x in s
  }

  lemma {:induction false} HasLeast(s: set<string>) returns (least: string)
    requires s != {}
    ensures least in s && forall y :: y in s ==> Leq(least, y)
    decreases |s|
  {
    var x :| x in s;
    LeqReflexive(x);
    if s == {x} {
      least := x;
    } else {
      var m := HasLeast(s - {x});
      LeqTotal(m, x);
      least := if Leq(m, x) then m else x;
      forall y | y in s
        ensures Leq(least, y)
      {
        if y != x && least == x {
          LeqTransitive(x, m, y);
        }
      }
    }
  }

  ghost function Least(s: set<string>): (least: string)
    requires s != {}
    ensures least in s && forall y :: y in s ==> Leq(least, y)
  {
    assert exists x :: x in s && forall y :: y in s ==> Leq(x, y) by {
      var x := HasLeast(s);
    }
    var x :| x in s && forall y :: y in s ==> Leq(x, y);
    x
  }

  ghost function Sorted(s: set<string>): (r: seq<string>)
    ensures Lists(r, s)
    ensures Ascending(r)
    decreases |s|
  {
    if s == {} then []
    else
      var x := Least(s);
      [x] + Sorted(s - {x})
  }

  ghost predicate AscendingInts(s: seq<int>) {
    forall i, j :: 0 <= i < j < |s| ==> s[i] < s[j]
  }

  lemma HasElement<T>(s: set<T>) returns (x: T)
    requires s != {}
    ensures x in s
  {
    x :| x in s;
  }

  lemma {:induction false} HasLeastInt(s: set<int>) returns (least: int)
    requires s != {}
    ensures least in s && forall y :: y in s ==> least <= y
    decreases |s|
  {
    var x := HasElement(s);
    if s == {x} {
      least := x;
    } else {
      var m := HasLeastInt(s - {x});
      least := if m <= x then m else x;
    }
    forall y: int | y in s
      ensures least <= y
    {
      if s != {x} && y != x {
        assert y in s - {x};
      }
    }
  }

  ghost function LeastInt(s: set<int>): (x: int)
    requires s != {}
    ensures x in s && forall y :: y in s ==> x <= y
  {
    assert exists x :: x in s && forall y :: y in s ==> x <= y by {
      var x := HasLeastInt(s);
    }
    var x :| x in s && forall y :: y in s ==> x <= y;
    x
  }

  ghost function SortedInts(s: set<int>): (r: seq<int>)
    ensures Lists(r, s)
    ensures AscendingInts(r)
    decreases |s|
  {
    if s == {} then []
    else
      var x := LeastInt(s);
      [x] + SortedInts(s - {x})
  }
}
