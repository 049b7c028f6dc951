/** `Array.prototype.sort` with a comparator, as both the search ranking and
    the projects list use it. Since ECMAScript 2019 that sort is stable, so
    for a comparator that is a total preorder its result is the unique
    stable sorted permutation — the one insertion sort computes. `le(a, b)`
    stands for `compare(a, b) <= 0`. */
module Sorting {

  ghost predicate TotalPreorder<T(!new)>(le: (T, T) -> bool)
  {
    && (forall x, y :: le(x, y) || le(y, x))
    && (forall x, y, z :: le(x, y) && le(y, z) ==> le(x, z))
  }

  ghost predicate SortedBy<T>(le: (T, T) -> bool, s: seq<T>)
  {
    forall i, j :: 0 <= i < j < |s| ==> le(s[i], s[j])
  }

  /** Inserts `x` in front of the first element it is not after; elements
      equal to `x` stay behind it. */
  function Insert<T>(x: T, s: seq<T>, le: (T, T) -> bool): (r: seq<T>)
    ensures multiset(r) == multiset(s) + multiset{x}
    ensures |r| == |s| + 1
  {
    if |s| == 0 then [x]
    else if le(x, s[0]) then [x] + s
    else
      assert s == [s[0]] + s[1..];
      [s[0]] + Insert(x, s[1..], le)
  }

  function Sort<T>(s: seq<T>, le: (T, T) -> bool): (r: seq<T>)
    ensures multiset(r) == multiset(s)
    ensures |r| == |s|
  {
    if |s| == 0 then []
    else
      assert s == [s[0]] + s[1..];
      Insert(s[0], Sort(s[1..], le), le)
  }

  lemma {:induction false} InsertSorted<T(!new)>(x: T, s: seq<T>, le: (T, T) -> bool)
    requires TotalPreorder(le)
    requires SortedBy(le, s)
    ensures SortedBy(le, Insert(x, s, le))
  {
    if |s| > 0 && !le(x, s[0]) {
      InsertSorted(x, s[1..], le);
      var rest := Insert(x, s[1..], le);
      var r := [s[0]] + rest;
      assert le(s[0], x);
      forall k | 0 <= k < |rest| ensures le(s[0], rest[k]) {
        assert rest[k] in multiset(rest);
        assert rest[k] in multiset(s[1..]) + multiset{x};
        if rest[k] != x {
          assert rest[k] in multiset(s[1..]);
          var m :| 0 <= m < |s[1..]| && s[1..][m] == rest[k];
          assert s[m + 1] == rest[k];
        }
      }
      assert SortedBy(le, r);
    }
  }

  /** The sort yields a sorted permutation of its input. */
  lemma {:induction false} SortSorted<T(!new)>(s: seq<T>, le: (T, T) -> bool)
    requires TotalPreorder(le)
    ensures SortedBy(le, Sort(s, le))
  {
    if |s| > 0 {
      SortSorted(s[1..], le);
      InsertSorted(s[0], Sort(s[1..], le), le);
    }
  }

  /** Cutting a sorted sequence after `n` elements: the prefix is sorted,
      and every element cut off comes after every element kept. */
  lemma PrefixOfSorted<T>(s: seq<T>, le: (T, T) -> bool, n: nat)
    requires SortedBy(le, s) && n <= |s|
    ensures SortedBy(le, s[..n])
    ensures multiset(s[..n]) + multiset(s[n..]) == multiset(s)
    ensures forall x :: x in multiset(s[n..]) ==> forall k :: 0 <= k < n ==> le(s[k], x)
  {
    assert s == s[..n] + s[n..];
    forall x | x in multiset(s[n..]) ensures forall k :: 0 <= k < n ==> le(s[k], x) {
      var m :| 0 <= m < |s[n..]| && s[n..][m] == x;
      assert s[n + m] == x;
    }
  }
}
