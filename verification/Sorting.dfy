/**
 * A stable insertion sort under a caller-supplied ordering, the model of
 * Python's `sorted`/`list.sort` wherever the order of equal keys cannot be
 * observed.
 */
module Sorting {

  /** `le` relates every pair one way or the other, and is transitive. */
  ghost predicate TotalPreorder<T(!new)>(le: (T, T) -> bool)
  {
    (forall a, b :: le(a, b) || le(b, a)) &&
    (forall a, b, c :: le(a, b) && le(b, c) ==> le(a, c))
  }

  /** Each element is `le` its successor. */
  predicate SortedBy<T>(le: (T, T) -> bool, s: seq<T>)
  {
    forall i :: 0 <= i < |s| - 1 ==> le(s[i], s[i + 1])
  }

  /** `x` placed before the first element it is `le`. */
  function Insert<T>(le: (T, T) -> bool, x: T, s: seq<T>): (r: seq<T>)
    ensures |r| == |s| + 1
  {
    if s == [] then [x]
    else if le(x, s[0]) then [x] + s
    else [s[0]] + Insert(le, x, s[1..])
  }

  function SortBy<T>(le: (T, T) -> bool, s: seq<T>): (r: seq<T>)
    ensures |r| == |s|
  {
    if s == [] then [] else Insert(le, s[0], SortBy(le, s[1..]))
  }

  lemma {:induction false} InsertSorted<T(!new)>(le: (T, T) -> bool, x: T, s: seq<T>)
    requires TotalPreorder(le) && SortedBy(le, s)
    ensures SortedBy(le, Insert(le, x, s))
    ensures Insert(le, x, s)[0] == x || (s != [] && Insert(le, x, s)[0] == s[0])
  {
    if s != [] && !le(x, s[0]) {
      var tail := s[1..];
      forall i | 0 <= i < |tail| - 1
        ensures le(tail[i], tail[i + 1])
      {
        assert tail[i] == s[i + 1] && tail[i + 1] == s[i + 2];
      }
      InsertSorted(le, x, tail);
      var r := Insert(le, x, s);
      assert le(s[0], x);
      assert r[1] == x || (tail != [] && r[1] == s[1]);
      assert forall i :: 1 <= i < |r| - 1 ==> r[i] == Insert(le, x, tail)[i - 1] && r[i + 1] == Insert(le, x, tail)[i];
    }
  }

  lemma {:induction false} InsertPermutes<T>(le: (T, T) -> bool, x: T, s: seq<T>)
    ensures multiset(Insert(le, x, s)) == multiset(s) + multiset{x}
  {
    if s != [] && !le(x, s[0]) {
      InsertPermutes(le, x, s[1..]);
      assert s == [s[0]] + s[1..];
    }
  }

  /** The result is ordered by `le`. */
  lemma {:induction false} SortSorted<T(!new)>(le: (T, T) -> bool, s: seq<T>)
    requires TotalPreorder(le)
    ensures SortedBy(le, SortBy(le, s))
  {
    if s != [] {
      SortSorted(le, s[1..]);
      InsertSorted(le, s[0], SortBy(le, s[1..]));
    }
  }

  /** The result holds the same elements, each as often. */
  lemma {:induction false} SortPermutes<T>(le: (T, T) -> bool, s: seq<T>)
    ensures multiset(SortBy(le, s)) == multiset(s)
  {
    if s != [] {
      SortPermutes(le, s[1..]);
      InsertPermutes(le, s[0], SortBy(le, s[1..]));
      assert s == [s[0]] + s[1..];
    }
  }

  /** In a sorted sequence every element is `le` every later one. */
  lemma {:induction false} SortedAll<T(!new)>(le: (T, T) -> bool, s: seq<T>, i: nat, j: nat)
    requires TotalPreorder(le) && SortedBy(le, s) && i <= j < |s|
    ensures le(s[i], s[j])
    decreases j - i
  {
    if i < j {
      SortedAll(le, s, i + 1, j);
    }
  }
}
