/**
 * The stable sort both intersection loops rely on (Python's `list.sort` and `sorted`),
 * specified over a lexicographic pair key: a work entry of the first program compares as
 * (value, index), a work item of the second as (result, 0).
 */
module Sorting {

  /** A sort key, compared lexicographically. */
  type Key = (int, int)

  predicate Less(a: Key, b: Key) {
    a.0 < b.0 || (a.0 == b.0 && a.1 < b.1)
  }

  /** No element is less than one before it. */
  predicate SortedBy<T>(s: seq<T>, key: T -> Key) {
    forall i, j :: 0 <= i < j < |s| ==> !Less(key(s[j]), key(s[i]))
  }

  /** The elements of s are told apart by f. */
  predicate DistinctBy<T, U(==)>(s: seq<T>, f: T -> U) {
    forall i, j :: 0 <= i < j < |s| ==> f(s[i]) != f(s[j])
  }

  /** Inserts x after every element of r that is not greater than it. */
  function Insert<T>(r: seq<T>, x: T, key: T -> Key): (r': seq<T>)
    ensures |r'| == |r| + 1
  {
    if r == [] then [x]
    else if Less(key(x), key(r[0])) then [x] + r
    else [r[0]] + Insert(r[1..], x, key)
  }

  /** Insertion sort: a stable sort by key. */
  function SortBy<T>(s: seq<T>, key: T -> Key): (r: seq<T>)
    ensures |r| == |s|
  {
    if s == [] then []
    else Insert(SortBy(s[..|s| - 1], key), s[|s| - 1], key)
  }

  lemma {:induction false} InsertPerm<T>(r: seq<T>, x: T, key: T -> Key)
    ensures multiset(Insert(r, x, key)) == multiset(r) + multiset{x}
  {
    if r != [] && !Less(key(x), key(r[0])) {
      InsertPerm(r[1..], x, key);
      assert r == [r[0]] + r[1..];
    }
  }

  /** SortBy permutes its input. */
  lemma {:induction false} SortByPerm<T>(s: seq<T>, key: T -> Key)
    ensures multiset(SortBy(s, key)) == multiset(s)
    ensures forall e :: e in SortBy(s, key) <==> e in s
  {
    if s != [] {
      SortByPerm(s[..|s| - 1], key);
      InsertPerm(SortBy(s[..|s| - 1], key), s[|s| - 1], key);
      assert s == s[..|s| - 1] + [s[|s| - 1]];
    }
    SameMembers(SortBy(s, key), s);
  }

  lemma {:induction false} InsertSorted<T>(r: seq<T>, x: T, key: T -> Key)
    requires SortedBy(r, key)
    ensures SortedBy(Insert(r, x, key), key)
  {
    if r != [] && !Less(key(x), key(r[0])) {
      var tail := r[1..];
      assert SortedBy(tail, key) by {
        forall i, j | 0 <= i < j < |tail| ensures !Less(key(tail[j]), key(tail[i])) {
          assert tail[i] == r[i + 1] && tail[j] == r[j + 1];
        }
      }
      InsertSorted(tail, x, key);
      InsertPerm(tail, x, key);
      var ins := Insert(tail, x, key);
      forall y | y in ins ensures !Less(key(y), key(r[0])) {
        assert y in multiset(ins);
        if y != x {
          assert y in tail;
        }
      }
    }
  }

  /** The result of SortBy is sorted (and, by its contract, a permutation of its input). */
  lemma {:induction false} SortBySorted<T>(s: seq<T>, key: T -> Key)
    ensures SortedBy(SortBy(s, key), key)
  {
    if s != [] {
      SortBySorted(s[..|s| - 1], key);
      InsertSorted(SortBy(s[..|s| - 1], key), s[|s| - 1], key);
    }
  }

  /** The first element of a sort is less than or equal to every element. */
  lemma SortByFirstMinimal<T>(s: seq<T>, key: T -> Key)
    requires s != []
    ensures SortBy(s, key)[0] in s
    ensures forall x :: x in s ==> !Less(key(x), key(SortBy(s, key)[0]))
  {
    var r := SortBy(s, key);
    SortBySorted(s, key);
    SortByPerm(s, key);
    assert r[0] in multiset(r);
    forall x | x in s ensures !Less(key(x), key(r[0])) {
      assert x in multiset(r);
      var j :| 0 <= j < |r| && r[j] == x;
      if j > 0 {
        assert !Less(key(r[j]), key(r[0]));
      }
    }
  }

  /** Stability at the head: the earliest of the minimal elements comes first. */
  lemma {:induction false} SortByFirst<T>(s: seq<T>, key: T -> Key, k: nat)
    requires k < |s|
    requires forall j :: 0 <= j < |s| ==> !Less(key(s[j]), key(s[k]))
    requires forall j :: 0 <= j < k ==> Less(key(s[k]), key(s[j]))
    ensures SortBy(s, key)[0] == s[k]
  {
    var n := |s|;
    var p := s[..n - 1];
    var r := SortBy(p, key);
    SortByPerm(p, key);
    if n > 1 {
      if k == n - 1 {
        assert r[0] in multiset(p);
        var j :| 0 <= j < |p| && p[j] == r[0];
        assert Less(key(s[k]), key(s[j]));
      } else {
        SortByFirst(p, key, k);
        assert !Less(key(s[n - 1]), key(s[k]));
      }
    }
  }

  lemma {:induction false} InsertDistinct<T, U>(r: seq<T>, x: T, key: T -> Key, f: T -> U)
    requires DistinctBy(r, f)
    requires forall y :: y in r ==> f(y) != f(x)
    ensures DistinctBy(Insert(r, x, key), f)
  {
    if r != [] && !Less(key(x), key(r[0])) {
      var tail := r[1..];
      assert DistinctBy(tail, f) by {
        forall i, j | 0 <= i < j < |tail| ensures f(tail[i]) != f(tail[j]) {
          assert tail[i] == r[i + 1] && tail[j] == r[j + 1];
        }
      }
      InsertDistinct(tail, x, key, f);
      InsertPerm(tail, x, key);
      var ins := Insert(tail, x, key);
      forall y | y in ins ensures f(y) != f(r[0]) {
        assert y in multiset(ins);
        if y != x {
          var j :| 0 <= j < |tail| && tail[j] == y;
          assert y == r[j + 1];
        }
      }
    }
  }

  /** Sorting keeps elements that a projection tells apart told apart. */
  lemma {:induction false} SortByDistinct<T, U>(s: seq<T>, key: T -> Key, f: T -> U)
    requires DistinctBy(s, f)
    ensures DistinctBy(SortBy(s, key), f)
  {
    if s != [] {
      var p := s[..|s| - 1];
      var x := s[|s| - 1];
      assert DistinctBy(p, f) by {
        forall i, j | 0 <= i < j < |p| ensures f(p[i]) != f(p[j]) {
          assert p[i] == s[i] && p[j] == s[j];
        }
      }
      SortByDistinct(p, key, f);
      SortByPerm(p, key);
      var r := SortBy(p, key);
      forall y | y in r ensures f(y) != f(x) {
        assert y in multiset(p);
        var j :| 0 <= j < |p| && p[j] == y;
        assert y == s[j];
      }
      InsertDistinct(r, x, key, f);
    }
  }

  /** Replacing one element of a sequence changes its members by that element alone. */
  lemma UpdateMembers<T>(s: seq<T>, i: nat, x: T)
    requires i < |s|
    ensures x in s[i := x]
    ensures forall e :: e in s[i := x] ==> e == x || e in s
    ensures forall e :: e in s && e != s[i] ==> e in s[i := x]
  {
    var u := s[i := x];
    assert u[i] == x;
    forall e | e in u ensures e == x || e in s {
      var j :| 0 <= j < |u| && u[j] == e;
      if j != i {
        assert s[j] == e;
      }
    }
    forall e | e in s && e != s[i] ensures e in u {
      var j :| 0 <= j < |s| && s[j] == e;
      assert u[j] == e;
    }
  }

  /** Two sequences with the same multiset of elements have the same members. */
  lemma SameMembers<T>(a: seq<T>, b: seq<T>)
    requires multiset(a) == multiset(b)
    ensures forall e :: e in a <==> e in b
  {
    forall e ensures e in a <==> e in b {
      assert e in a <==> e in multiset(a);
      assert e in b <==> e in multiset(b);
    }
  }
}
