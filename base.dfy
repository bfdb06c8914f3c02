/**
 * Generic building blocks shared by the query models: optional values,
 * filtering (SQL WHERE, Array.filter), ordering (SQL ORDER BY) and the set of
 * distinct keys of a table in ascending order (SQL GROUP BY ... ORDER BY ASC).
 */
module Base {

  /** SQL NULL / JavaScript null-or-undefined next to a present value. */
  datatype Option<T> = None | Some(value: T)

  /** The result of JavaScript's `Number(x)`: an integer, or NaN (equal to nothing). */
  datatype Num = Finite(value: int) | NaN

  /** The rows of `s` that satisfy `p`, in their original order. */
  function Filter<T(!new)>(s: seq<T>, p: T -> bool): (r: seq<T>)
    ensures |r| <= |s|
    ensures forall x :: x in r <==> x in s && p(x)
  {
    if s == [] then []
    else
      assert s == [s[0]] + s[1..];
      (if p(s[0]) then [s[0]] else []) + Filter(s[1..], p)
  }

  /** `s[i]` is the first element of `s` satisfying `p`. */
  predicate FirstMatch<T>(s: seq<T>, p: T -> bool, i: int)
  {
    0 <= i < |s| && p(s[i]) && forall j :: 0 <= j < i ==> !p(s[j])
  }

  /** The first element of `s` satisfying `p` (a lookup by key, Array.find). */
  function FindFirst<T>(s: seq<T>, p: T -> bool): (r: Option<T>)
    ensures r.None? <==> forall x :: x in s ==> !p(x)
    ensures r.Some? ==> exists i :: FirstMatch(s, p, i) && s[i] == r.value
  {
    if s == [] then None
    else if p(s[0]) then
      assert FirstMatch(s, p, 0);
      Some(s[0])
    else
      var r := FindFirst(s[1..], p);
      assert forall x :: x in s ==> x == s[0] || x in s[1..];
      assert r.Some? ==> exists i :: FirstMatch(s, p, i) && s[i] == r.value by {
        if r.Some? {
          var i :| FirstMatch(s[1..], p, i) && s[1..][i] == r.value;
          assert FirstMatch(s, p, i + 1);
        }
      }
      r
  }

  /** A predicate that holds everywhere filters nothing out. */
  lemma {:induction false} FilterAll<T(!new)>(s: seq<T>, p: T -> bool)
    requires forall x :: x in s ==> p(x)
    ensures Filter(s, p) == s
  {
    if s != [] {
      FilterAll(s[1..], p);
      assert s == [s[0]] + s[1..];
    }
  }

  /** Filtering distributes over concatenation. */
  lemma {:induction false} FilterAppend<T(!new)>(a: seq<T>, b: seq<T>, p: T -> bool)
    ensures Filter(a + b, p) == Filter(a, p) + Filter(b, p)
  {
    if a == [] {
      assert a + b == b;
    } else {
      var ab := a + b;
      assert ab[0] == a[0] && ab[1..] == a[1..] + b;
      FilterAppend(a[1..], b, p);
    }
  }

  /** Filtering keeps every satisfying row as often as it occurs, and no other row. */
  lemma {:induction false} FilterMultiset<T(!new)>(s: seq<T>, p: T -> bool)
    ensures forall x :: multiset(Filter(s, p))[x] == if p(x) then multiset(s)[x] else 0
  {
    if s != [] {
      FilterMultiset(s[1..], p);
      assert s == [s[0]] + s[1..];
    }
  }

  /** `a` is `b` with some elements left out and the rest kept in order. */
  predicate IsSubsequence<T(==)>(a: seq<T>, b: seq<T>)
    decreases |b|
  {
    a == [] || (b != [] && if a[0] == b[0] then IsSubsequence(a[1..], b[1..]) else IsSubsequence(a, b[1..]))
  }

  lemma {:induction false} FilterIsSubsequence<T(!new)>(s: seq<T>, p: T -> bool)
    ensures IsSubsequence(Filter(s, p), s)
  {
    if s != [] {
      FilterIsSubsequence(s[1..], p);
      var rest := Filter(s[1..], p);
      if p(s[0]) {
        assert Filter(s, p) == [s[0]] + rest;
        assert ([s[0]] + rest)[1..] == rest;
      } else {
        assert Filter(s, p) == rest;
        // every kept element satisfies p, so none of them is matched against s[0]
        assert rest != [] ==> rest[0] in rest && rest[0] != s[0];
      }
    }
  }

  /** Non-increasing by `key`: the order of SQL `ORDER BY key DESC`. */
  predicate SortedDesc<T>(s: seq<T>, key: T -> int)
  {
    forall i, j :: 0 <= i < j < |s| ==> key(s[i]) >= key(s[j])
  }

  /** An element no smaller than everything of a sorted sequence can go in front. */
  lemma ConsSortedDesc<T>(h: T, t: seq<T>, key: T -> int)
    requires SortedDesc(t, key)
    requires forall j :: 0 <= j < |t| ==> key(t[j]) <= key(h)
    ensures SortedDesc([h] + t, key)
  {
    forall i, j | 0 <= i < j < |[h] + t| ensures key(([h] + t)[i]) >= key(([h] + t)[j]) {
      if i > 0 {
        assert ([h] + t)[i] == t[i - 1];
      }
      assert ([h] + t)[j] == t[j - 1];
    }
  }

  /** The head of a sorted sequence bounds its tail with an element no greater inserted. */
  lemma HeadBoundsInsert<T>(x: T, s: seq<T>, key: T -> int, t: seq<T>)
    requires s != [] && SortedDesc(s, key) && key(x) <= key(s[0])
    requires multiset(t) == multiset(s[1..]) + multiset{x}
    ensures forall j :: 0 <= j < |t| ==> key(t[j]) <= key(s[0])
  {
    forall j | 0 <= j < |t| ensures key(t[j]) <= key(s[0]) {
      assert t[j] in multiset(t);
      if t[j] != x {
        assert t[j] in multiset(s[1..]);
        var k :| 0 <= k < |s[1..]| && s[1..][k] == t[j];
        assert s[k + 1] == t[j];
      }
    }
  }

  /** Inserts `x` after every element whose key is at least key(x). */
  function InsertDesc<T>(x: T, s: seq<T>, key: T -> int): (r: seq<T>)
    requires SortedDesc(s, key)
    ensures |r| == |s| + 1
    ensures SortedDesc(r, key)
    ensures multiset(r) == multiset(s) + multiset{x}
  {
    if s == [] then [x]
    else if key(x) > key(s[0]) then
      assert multiset([x] + s) == multiset{x} + multiset(s);
      [x] + s
    else
      var t := InsertDesc(x, s[1..], key);
      HeadBoundsInsert(x, s, key, t);
      ConsSortedDesc(s[0], t, key);
      assert multiset(s) == multiset{s[0]} + multiset(s[1..]) by {
        assert s == [s[0]] + s[1..];
      }
      [s[0]] + t
  }

  /**
   * A stable sort by `key`, largest first: the order `ORDER BY key DESC`
   * produces, with ties kept in table order.
   */
  function SortDesc<T>(s: seq<T>, key: T -> int): (r: seq<T>)
    ensures |r| == |s|
    ensures SortedDesc(r, key)
    ensures multiset(r) == multiset(s)
  {
    if s == [] then []
    else
      assert s == s[..|s| - 1] + [s[|s| - 1]];
      InsertDesc(s[|s| - 1], SortDesc(s[..|s| - 1], key), key)
  }

  /** The head of an ascending sequence stays below its tail with a larger value inserted. */
  lemma HeadBelowInsert(x: int, s: seq<int>, t: seq<int>)
    requires s != [] && StrictlyAscending(s) && s[0] < x
    requires StrictlyAscending(t)
    requires forall y :: y in t <==> y in s[1..] || y == x
    ensures StrictlyAscending([s[0]] + t)
  {
    forall j | 0 <= j < |t| ensures s[0] < t[j] {
      assert t[j] in t;
      if t[j] != x {
        var k :| 0 <= k < |s[1..]| && s[1..][k] == t[j];
        assert s[k + 1] == t[j];
      }
    }
    forall i, j | 0 <= i < j < |[s[0]] + t| ensures ([s[0]] + t)[i] < ([s[0]] + t)[j] {
      assert ([s[0]] + t)[j] == t[j - 1];
      if i > 0 {
        assert ([s[0]] + t)[i] == t[i - 1];
      }
    }
  }

  /** Strictly increasing: every value once, smallest first. */
  predicate StrictlyAscending(s: seq<int>)
  {
    forall i, j :: 0 <= i < j < |s| ==> s[i] < s[j]
  }

  function InsertAscending(x: int, s: seq<int>): (r: seq<int>)
    requires StrictlyAscending(s)
    ensures StrictlyAscending(r)
    ensures forall y :: y in r <==> y in s || y == x
  {
    if s == [] then [x]
    else if x < s[0] then [x] + s
    else if x == s[0] then s
    else
      var t := InsertAscending(x, s[1..]);
      HeadBelowInsert(x, s, t);
      assert s == [s[0]] + s[1..];
      [s[0]] + t
  }

  /**
   * The distinct values of `key` over the rows, ascending: the groups of
   * `GROUP BY key ORDER BY key ASC`.
   */
  function DistinctKeys<T>(rows: seq<T>, key: T -> int): (r: seq<int>)
    ensures StrictlyAscending(r)
    ensures forall d :: d in r <==> exists row :: row in rows && key(row) == d
  {
    if rows == [] then []
    else
      var rest := DistinctKeys(rows[1..], key);
      assert rows == [rows[0]] + rows[1..];
      InsertAscending(key(rows[0]), rest)
  }

  /** The elements of `s` in order of first occurrence, each once. */
  function Distinct<T(==,!new)>(s: seq<T>): (r: seq<T>)
    ensures forall x :: x in r <==> x in s
    ensures forall i, j :: 0 <= i < j < |r| ==> r[i] != r[j]
  {
    if s == [] then []
    else
      var rest := Distinct(s[..|s| - 1]);
      assert s == s[..|s| - 1] + [s[|s| - 1]];
      if s[|s| - 1] in rest then rest else rest + [s[|s| - 1]]
  }

  lemma SubsetCardinality<T>(a: set<T>, b: set<T>)
    requires a <= b
    ensures |a| <= |b|
  {
    assert b == a + (b - a);
  }

  /** No two elements share a key: the key is unique in `s`. */
  predicate DistinctBy<T, K(==)>(s: seq<T>, key: T -> K)
  {
    forall i, j :: 0 <= i < j < |s| ==> key(s[i]) != key(s[j])
  }

  lemma {:induction false} CountAtLeastTwo<T>(s: seq<T>, i: int, j: int)
    requires 0 <= i < j < |s| && s[i] == s[j]
    ensures multiset(s)[s[i]] >= 2
  {
    assert s == s[..j] + [s[j]] + s[j + 1..];
    assert s[..j][i] == s[i];
    assert s[i] in multiset(s[..j]);
  }

  lemma {:induction false} SecondOccurrence<T>(a: seq<T>, p: int)
    requires 0 <= p < |a| && multiset(a)[a[p]] >= 2
    ensures exists r :: 0 <= r < |a| && r != p && a[r] == a[p]
  {
    var x := a[p];
    var rest := a[..p] + a[p + 1..];
    assert a == a[..p] + [x] + a[p + 1..];
    assert x in multiset(rest);
    var r :| 0 <= r < |rest| && rest[r] == x;
    if r < p {
      assert a[r] == x;
    } else {
      assert a[r + 1] == x;
    }
  }

  /**
   * Taking some of the rows of a table (a sub-multiset, in any order) keeps
   * a unique key unique.
   */
  lemma {:induction false} DistinctBySubMultiset<T, K>(a: seq<T>, b: seq<T>, key: T -> K)
    requires multiset(b) <= multiset(a)
    requires DistinctBy(a, key)
    ensures DistinctBy(b, key)
  {
    forall i, j | 0 <= i < j < |b| ensures key(b[i]) != key(b[j]) {
      assert b[i] in multiset(b) && b[j] in multiset(b);
      assert b[i] in multiset(a) && b[j] in multiset(a);
      var p :| 0 <= p < |a| && a[p] == b[i];
      var q :| 0 <= q < |a| && a[q] == b[j];
      if p == q {
        CountAtLeastTwo(b, i, j);
        SecondOccurrence(a, p);
        assert false;
      }
    }
  }
}
