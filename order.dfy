/**
 * Ordering and selection over lists: Kotlin's stable `sortedByDescending`,
 * `filter`, and the `ORDER BY … DESC` reads of the Room tables.
 */
module Order {

  /** Non-increasing by `key`: what `sortedByDescending` and `ORDER BY … DESC` deliver. */
  predicate SortedDesc<T>(s: seq<T>, key: T -> int) {
    forall i, j :: 0 <= i < j < |s| ==> key(s[i]) >= key(s[j])
  }

  /** No two elements share an identity. */
  predicate UniqueBy<T, K(==)>(s: seq<T>, id: T -> K) {
    forall i, j :: 0 <= i < j < |s| ==> id(s[i]) != id(s[j])
  }

  /**
   * Inserts `x` into a sorted list just before the first element whose key is
   * not larger, so that `x` comes ahead of the elements it ties with.
   */
  function InsertDesc<T>(x: T, s: seq<T>, key: T -> int): (r: seq<T>)
    requires SortedDesc(s, key)
    ensures |r| == |s| + 1 && multiset(r) == multiset(s) + multiset{x}
    ensures SortedDesc(r, key)
    ensures r[0] == x || (s != [] && r[0] == s[0])
  {
    if s == [] || key(s[0]) <= key(x) then
      ConsSorted(x, s, key);
      [x] + s
    else
      var tail := InsertDesc(x, s[1..], key);
      assert s == [s[0]] + s[1..];
      assert multiset([s[0]] + tail) == multiset{s[0]} + multiset(tail);
      ConsSorted(s[0], tail, key);
      [s[0]] + tail
  }

  /** Putting an element no smaller than the head in front keeps a list in order. */
  lemma ConsSorted<T>(a: T, t: seq<T>, key: T -> int)
    requires SortedDesc(t, key) && (t == [] || key(t[0]) <= key(a))
    ensures SortedDesc([a] + t, key)
  {
    var r := [a] + t;
    forall i, j | 0 <= i < j < |r| ensures key(r[i]) >= key(r[j]) {
      if i == 0 {
        assert r[j] == t[j - 1];
        if j > 1 {
          assert key(t[0]) >= key(t[j - 1]);
        }
      } else {
        assert r[i] == t[i - 1] && r[j] == t[j - 1];
      }
    }
  }

  /**
   * `sortedByDescending(key)`: an insertion sort that places each earlier
   * element ahead of the later ones it ties with, so equal keys keep their order.
   */
  function SortDesc<T>(s: seq<T>, key: T -> int): (r: seq<T>)
    ensures |r| == |s| && multiset(r) == multiset(s)
    ensures SortedDesc(r, key)
  {
    if s == [] then []
    else
      assert s == [s[0]] + s[1..];
      InsertDesc(s[0], SortDesc(s[1..], key), key)
  }

  /** Inserting an element whose identity is new keeps identities distinct. */
  lemma {:induction false} InsertDescUnique<T, K>(x: T, s: seq<T>, key: T -> int, id: T -> K)
    requires SortedDesc(s, key) && UniqueBy(s, id)
    requires forall i :: 0 <= i < |s| ==> id(s[i]) != id(x)
    ensures UniqueBy(InsertDesc(x, s, key), id)
  {
    if s != [] && key(s[0]) > key(x) {
      var tail := InsertDesc(x, s[1..], key);
      InsertDescUnique(x, s[1..], key, id);
      assert s == [s[0]] + s[1..];
      forall y | y in tail ensures id(y) != id(s[0]) {
        assert y in multiset(s[1..]) + multiset{x};
        if y != x {
          var j :| 0 <= j < |s[1..]| && s[1..][j] == y;
          assert s[j + 1] == y;
        }
      }
    }
  }

  /** Sorting keeps identities distinct. */
  lemma {:induction false} SortDescUnique<T, K>(s: seq<T>, key: T -> int, id: T -> K)
    requires UniqueBy(s, id)
    ensures UniqueBy(SortDesc(s, key), id)
  {
    if s != [] {
      var rest := s[1..];
      assert UniqueBy(rest, id) by {
        assert forall i :: 0 <= i < |rest| ==> rest[i] == s[i + 1];
      }
      SortDescUnique(rest, key, id);
      var sorted := SortDesc(rest, key);
      forall i | 0 <= i < |sorted| ensures id(sorted[i]) != id(s[0]) {
        assert sorted[i] in multiset(sorted);
        var j :| 0 <= j < |rest| && rest[j] == sorted[i];
        assert s[j + 1] == sorted[i];
      }
      InsertDescUnique(s[0], sorted, key, id);
    }
  }

  /** Sorting a list that is already in order leaves it as it is. */
  lemma {:induction false} SortDescSorted<T>(s: seq<T>, key: T -> int)
    requires SortedDesc(s, key)
    ensures SortDesc(s, key) == s
  {
    if s != [] {
      SortDescSorted(s[1..], key);
      assert s == [s[0]] + s[1..];
    }
  }

  /** A list and its sorted form hold the same elements. */
  lemma SortDescMembers<T>(s: seq<T>, key: T -> int)
    ensures forall x :: x in SortDesc(s, key) <==> x in s
  {
    var r := SortDesc(s, key);
    assert forall x :: x in r <==> x in multiset(r);
    assert forall x :: x in s <==> x in multiset(s);
  }

  /** `filter(p)`: the elements that satisfy `p`, in their original order. */
  function Filter<T>(s: seq<T>, p: T -> bool): (r: seq<T>)
    ensures |r| <= |s|
    ensures forall i :: 0 <= i < |r| ==> r[i] in s && p(r[i])
    ensures forall i :: 0 <= i < |s| && p(s[i]) ==> s[i] in r
  {
    if s == [] then []
    else
      assert s == [s[0]] + s[1..];
      if p(s[0]) then [s[0]] + Filter(s[1..], p) else Filter(s[1..], p)
  }

  /** Filtering keeps a list in order. */
  lemma {:induction false} FilterSorted<T>(s: seq<T>, p: T -> bool, key: T -> int)
    requires SortedDesc(s, key)
    ensures SortedDesc(Filter(s, p), key)
  {
    if s != [] {
      FilterSorted(s[1..], p, key);
    }
  }

  /** Filtering keeps identities distinct. */
  lemma {:induction false} FilterUnique<T, K>(s: seq<T>, p: T -> bool, id: T -> K)
    requires UniqueBy(s, id)
    ensures UniqueBy(Filter(s, p), id)
  {
    if s != [] {
      FilterUnique(s[1..], p, id);
      var tail := Filter(s[1..], p);
      if p(s[0]) {
        forall y | y in tail ensures id(y) != id(s[0]) {
          var j :| 0 <= j < |s[1..]| && s[1..][j] == y;
          assert s[j + 1] == y;
        }
      }
    }
  }

  /**
   * Filtering distributes over concatenation, so elements that are kept
   * keep their relative order.
   */
  lemma {:induction false} FilterConcat<T>(a: seq<T>, b: seq<T>, p: T -> bool)
    ensures Filter(a + b, p) == Filter(a, p) + Filter(b, p)
  {
    if a != [] {
      assert (a + b)[1..] == a[1..] + b;
      FilterConcat(a[1..], b, p);
    } else {
      assert a + b == b;
    }
  }

  /** Filtering with a test every element passes changes nothing. */
  lemma {:induction false} FilterAll<T>(s: seq<T>, p: T -> bool)
    requires forall i :: 0 <= i < |s| ==> p(s[i])
    ensures Filter(s, p) == s
  {
    if s != [] {
      FilterAll(s[1..], p);
      assert s == [s[0]] + s[1..];
    }
  }

  /** The elements of `s` with repeats dropped, each kept where it first occurs: SQL's `DISTINCT`. */
  function Distinct<T(==)>(s: seq<T>): (r: seq<T>)
    ensures forall i, j :: 0 <= i < j < |r| ==> r[i] != r[j]
    ensures forall i :: 0 <= i < |r| ==> r[i] in s
    ensures forall i :: 0 <= i < |s| ==> s[i] in r
  {
    if s == [] then []
    else
      var init := Distinct(s[..|s| - 1]);
      var last := s[|s| - 1];
      assert forall i :: 0 <= i < |s| - 1 ==> s[i] == s[..|s| - 1][i];
      if last in init then init else init + [last]
  }

  /**
   * The rows of a table keyed by `id`, in non-increasing `key` order: each
   * row exactly once, and nothing else. Rows with equal keys come in no
   * promised order, as with SQL's `ORDER BY`.
   */
  method SortedValues<K, V(==)>(m: map<K, V>, id: V -> K, key: V -> int) returns (r: seq<V>)
    requires forall k :: k in m ==> id(m[k]) == k
    ensures SortedDesc(r, key) && UniqueBy(r, id)
    ensures |r| == |m|
    ensures forall v :: v in r <==> id(v) in m && m[id(v)] == v
  {
    var todo := m.Keys;
    r := [];
    while todo != {}
      invariant todo <= m.Keys
      invariant SortedDesc(r, key) && UniqueBy(r, id)
      invariant |r| + |todo| == |m.Keys|
      invariant forall v :: v in r <==> id(v) in m && m[id(v)] == v && id(v) !in todo
      decreases |todo|
    {
      var k :| k in todo;
      var v := m[k];
      assert forall i :: 0 <= i < |r| ==> r[i] in r;
      InsertDescUnique(v, r, key, id);
      var r' := InsertDesc(v, r, key);
      assert forall y :: y in r' <==> y in multiset(r) + multiset{v};
      r := r';
      todo := todo - {k};
    }
    assert |m.Keys| == |m|;
  }
}
