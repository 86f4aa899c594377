/**
 * The shape every query of the store has: keep the rows a WHERE clause
 * accepts, then ORDER BY one TEXT column, ascending or DESC.
 */
module Ordering {
  import opened Text

  /** `a` may come before `b` in an ORDER BY on a TEXT key. */
  predicate InOrder(a: string, b: string, descending: bool) {
    if descending then LexLe(b, a) else LexLe(a, b)
  }

  predicate SortedBy<T>(s: seq<T>, key: T -> string, descending: bool) {
    forall i, j :: 0 <= i < j < |s| ==> InOrder(key(s[i]), key(s[j]), descending)
  }

  lemma InOrderTotal(a: string, b: string, descending: bool)
    ensures InOrder(a, b, descending) || InOrder(b, a, descending)
  {
    LexLeTotal(a, b);
  }

  lemma InOrderTransitive(a: string, b: string, c: string, descending: bool)
    requires InOrder(a, b, descending) && InOrder(b, c, descending)
    ensures InOrder(a, c, descending)
  {
    if descending {
      LexLeTransitive(c, b, a);
    } else {
      LexLeTransitive(a, b, c);
    }
  }

  /** The rows a WHERE clause `keep` accepts, each as often as the table holds it, in table order. */
  function Filter<T(!new)>(s: seq<T>, keep: T -> bool): (r: seq<T>)
    ensures forall x :: x in r <==> x in s && keep(x)
    ensures forall x :: multiset(r)[x] == if keep(x) then multiset(s)[x] else 0
    ensures |r| <= |s|
    ensures r == [] <==> forall x :: x in s ==> !keep(x)
  {
    if s == [] then []
    else
      var rest := Filter(s[1..], keep);
      assert s == [s[0]] + s[1..];
      if keep(s[0]) then [s[0]] + rest else rest
  }

  /** Places `x` into a sorted sequence after every row that must precede it. */
  function Insert<T(!new)>(x: T, s: seq<T>, key: T -> string, descending: bool): (r: seq<T>)
    ensures multiset(r) == multiset(s) + multiset{x}
    ensures forall y :: y in r <==> y == x || y in s
  {
    if s == [] || InOrder(key(x), key(s[0]), descending) then [x] + s
    else
      assert s == [s[0]] + s[1..];
      [s[0]] + Insert(x, s[1..], key, descending)
  }

  lemma {:induction false} InsertSorted<T(!new)>(x: T, s: seq<T>, key: T -> string, descending: bool)
    requires SortedBy(s, key, descending)
    ensures SortedBy(Insert(x, s, key, descending), key, descending)
    decreases |s|
  {
    var r := Insert(x, s, key, descending);
    if s == [] {
    } else if InOrder(key(x), key(s[0]), descending) {
      forall i, j | 0 <= i < j < |r|
        ensures InOrder(key(r[i]), key(r[j]), descending)
      {
        if i == 0 && j > 1 {
          InOrderTransitive(key(x), key(s[0]), key(s[j - 1]), descending);
        }
      }
    } else {
      InOrderTotal(key(x), key(s[0]), descending);
      var tail := Insert(x, s[1..], key, descending);
      InsertSorted(x, s[1..], key, descending);
      forall i, j | 0 <= i < j < |r|
        ensures InOrder(key(r[i]), key(r[j]), descending)
      {
        if i == 0 {
          var y := r[j];
          assert y in tail;
          if y != x {
            var m :| 0 <= m < |s[1..]| && s[1..][m] == y;
            assert s[m + 1] == y;
          }
        } else {
          assert r[i] == tail[i - 1] && r[j] == tail[j - 1];
        }
      }
    }
  }

  /** ORDER BY `key` (DESC when `descending`): a sorted permutation of the rows. */
  function Sort<T(!new)>(s: seq<T>, key: T -> string, descending: bool): (r: seq<T>)
    ensures multiset(r) == multiset(s) && |r| == |s|
    ensures SortedBy(r, key, descending)
  {
    if s == [] then []
    else
      var rest := Sort(s[1..], key, descending);
      InsertSorted(s[0], rest, key, descending);
      assert s == [s[0]] + s[1..];
      Insert(s[0], rest, key, descending)
  }
}
