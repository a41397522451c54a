/** Ordering of result lists by a descending key, as the booking service does
    with `Comparator.comparing(...).reversed()` and with a comparator that
    compares its second argument with its first. Java's list sorts are stable;
    this is an insertion sort that keeps earlier elements before later ones of
    equal key. */
module Sorting {

  predicate SortedDesc<T>(s: seq<T>, key: T -> int) {
    forall i, j :: 0 <= i < j < |s| ==> key(s[i]) >= key(s[j])
  }

  /** Inserts `x` before the first element whose key is not larger. */
  function Insert<T>(x: T, s: seq<T>, key: T -> int): (r: seq<T>)
    ensures multiset(r) == multiset(s) + multiset{x}
    ensures SortedDesc(s, key) ==> SortedDesc(r, key)
  {
    if s == [] then [x]
    else if key(s[0]) <= key(x) then [x] + s
    else
      var t := Insert(x, s[1..], key);
      assert s == [s[0]] + s[1..];
      assert SortedDesc(s, key) ==> forall k :: 0 <= k < |t| ==> key(t[k]) <= key(s[0]) by {
        if SortedDesc(s, key) {
          forall k | 0 <= k < |t| ensures key(t[k]) <= key(s[0]) {
            assert t[k] in multiset(t);
            if t[k] != x {
              assert t[k] in multiset(s[1..]);
              var j :| 0 <= j < |s[1..]| && s[1..][j] == t[k];
              assert s[j + 1] == t[k];
            }
          }
        }
      }
      [s[0]] + t
  }

  function SortDescBy<T>(s: seq<T>, key: T -> int): (r: seq<T>)
    ensures multiset(r) == multiset(s)
    ensures SortedDesc(r, key)
  {
    if s == [] then []
    else
      assert s == [s[0]] + s[1..];
      Insert(s[0], SortDescBy(s[1..], key), key)
  }

  /** Sorting yields a permutation of its input in descending key order. */
  lemma SortDescByMeaning<T>(s: seq<T>, key: T -> int)
    ensures |SortDescBy(s, key)| == |s|
    ensures forall x :: x in SortDescBy(s, key) <==> x in s
    ensures SortedDesc(SortDescBy(s, key), key)
  {
    var r := SortDescBy(s, key);
    assert |multiset(r)| == |multiset(s)|;
    forall x ensures x in r <==> x in s {
      assert x in r <==> x in multiset(r);
      assert x in s <==> x in multiset(s);
    }
  }

  predicate SortedAsc<T>(s: seq<T>, key: T -> int) {
    forall i, j :: 0 <= i < j < |s| ==> key(s[i]) <= key(s[j])
  }

  /** Ascending order by `key` (an ORDER BY ... ASC), as descending order by
      the negated key. */
  function SortAscBy<T>(s: seq<T>, key: T -> int): (r: seq<T>)
    ensures multiset(r) == multiset(s)
    ensures SortedAsc(r, key)
  {
    var r := SortDescBy(s, x => -key(x));
    assert forall i, j :: 0 <= i < j < |r| ==> -key(r[i]) >= -key(r[j]);
    r
  }

  /** Some element of a non-empty set: the next row of a query result
      whose order is not specified. */
  method Pick<T>(s: set<T>) returns (x: T)
    requires s != {}
    ensures x in s
  {
    x :| x in s;
  }

  /** The elements of a set, listed once each in some order: a query result
      without an ORDER BY clause. */
  ghost function SeqOfSet<T(!new)>(s: set<T>): (r: seq<T>)
    ensures forall x :: x in r <==> x in s
    ensures forall x :: x in r ==> multiset(r)[x] == 1
    ensures |r| == |s|
  {
    if s == {} then []
    else
      var x :| x in s;
      var rest := SeqOfSet(s - {x});
      assert multiset([x] + rest) == multiset{x} + multiset(rest);
      [x] + rest
  }
}
