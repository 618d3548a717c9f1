/**
 * Python's `sorted` / `list.sort` on values whose ordering is total (the
 * integers and strings the scripts sort): the ascending permutation of the
 * input, which for a total order is unique, so any sorting algorithm (here
 * insertion sort) gives Python's result.
 */
module Sorting {

  /** A total order: any two values compare, only equal values tie, and it chains. */
  ghost predicate TotalOrder<T(!new)>(le: (T, T) -> bool)
  {
    && (forall a, b :: le(a, b) || le(b, a))
    && (forall a, b :: le(a, b) && le(b, a) ==> a == b)
    && (forall a, b, c :: le(a, b) && le(b, c) ==> le(a, c))
  }

  predicate SortedBy<T>(s: seq<T>, le: (T, T) -> bool)
  {
    forall i, j :: 0 <= i < j < |s| ==> le(s[i], s[j])
  }

  /** Places x before the first element it does not exceed. */
  function Insert<T>(x: T, s: seq<T>, le: (T, T) -> bool): (r: seq<T>)
    ensures multiset(r) == multiset(s) + multiset{x}
  {
    if s == [] || le(x, s[0]) then [x] + s
    else
      assert s == [s[0]] + s[1..];
      [s[0]] + Insert(x, s[1..], le)
  }

  /** Insertion sort: a permutation of its input. */
  function Sort<T>(s: seq<T>, le: (T, T) -> bool): (r: seq<T>)
    ensures multiset(r) == multiset(s)
  {
    if s == [] then []
    else
      assert s == [s[0]] + s[1..];
      Insert(s[0], Sort(s[1..], le), le)
  }

  lemma SortedCons<T(!new)>(h: T, t: seq<T>, le: (T, T) -> bool)
    requires SortedBy(t, le) && forall y :: y in t ==> le(h, y)
    ensures SortedBy([h] + t, le)
  {
    var r := [h] + t;
    forall i, j | 0 <= i < j < |r|
      ensures le(r[i], r[j])
    {
      assert r[j] == t[j - 1] && t[j - 1] in t;
      if i > 0 {
        assert r[i] == t[i - 1];
      }
    }
  }

  lemma {:induction false} InsertSorted<T(!new)>(x: T, s: seq<T>, le: (T, T) -> bool)
    requires TotalOrder(le) && SortedBy(s, le)
    ensures SortedBy(Insert(x, s, le), le)
  {
    if s == [] || le(x, s[0]) {
      forall y | y in s
        ensures le(x, y)
      {
        var k :| 0 <= k < |s| && s[k] == y;
        if k > 0 {
          assert le(s[0], s[k]);
        }
      }
      SortedCons(x, s, le);
    } else {
      var rest := Insert(x, s[1..], le);
      InsertSorted(x, s[1..], le);
      forall y | y in rest
        ensures le(s[0], y)
      {
        assert y in multiset(rest);
        if y != x {
          var k :| 0 <= k < |s[1..]| && s[1..][k] == y;
          assert s[k + 1] == y;
        }
      }
      SortedCons(s[0], rest, le);
    }
  }

  /** The result of Sort ascends. */
  lemma {:induction false} SortSorted<T(!new)>(s: seq<T>, le: (T, T) -> bool)
    requires TotalOrder(le)
    ensures SortedBy(Sort(s, le), le)
  {
    if s != [] {
      SortSorted(s[1..], le);
      InsertSorted(s[0], Sort(s[1..], le), le);
    }
  }

  /** Under a total order, ascending neighbours make an ascending sequence. */
  lemma {:induction false} AdjacentSorted<T(!new)>(s: seq<T>, le: (T, T) -> bool)
    requires TotalOrder(le) && forall i :: 0 <= i < |s| - 1 ==> le(s[i], s[i + 1])
    ensures SortedBy(s, le)
  {
    if |s| >= 2 {
      var t := s[1..];
      forall i | 0 <= i < |t| - 1
        ensures le(t[i], t[i + 1])
      {
        assert t[i] == s[i + 1] && t[i + 1] == s[i + 2];
      }
      AdjacentSorted(t, le);
      forall y | y in t
        ensures le(s[0], y)
      {
        HeadLeast(t, y, le);
      }
      SortedCons(s[0], t, le);
      assert s == [s[0]] + t;
    }
  }

  /** The head of an ascending sequence is at most every element of it. */
  lemma HeadLeast<T>(s: seq<T>, y: T, le: (T, T) -> bool)
    requires SortedBy(s, le) && y in multiset(s) && s != []
    ensures y == s[0] || le(s[0], y)
  {
    var k :| 0 <= k < |s| && s[k] == y;
    if k > 0 {
      assert le(s[0], s[k]);
    }
  }

  /**
   * Under a total order there is one ascending permutation of a multiset,
   * so Sort agrees with every other correct sort, Python's included.
   */
  lemma {:induction false} SortedUnique<T(!new)>(a: seq<T>, b: seq<T>, le: (T, T) -> bool)
    requires TotalOrder(le) && SortedBy(a, le) && SortedBy(b, le) && multiset(a) == multiset(b)
    ensures a == b
  {
    if a != [] {
      assert a[0] in multiset(a);
    }
    if b != [] {
      assert b[0] in multiset(b);
    }
    if a != [] && b != [] {
      HeadLeast(b, a[0], le);
      HeadLeast(a, b[0], le);
      assert a[0] == b[0];
      assert a == [a[0]] + a[1..] && b == [b[0]] + b[1..];
      assert multiset(a) == multiset{a[0]} + multiset(a[1..]);
      assert multiset(b) == multiset{b[0]} + multiset(b[1..]);
      forall y
        ensures multiset(a[1..])[y] == multiset(b[1..])[y]
      {
        assert multiset(a)[y] == multiset{a[0]}[y] + multiset(a[1..])[y];
        assert multiset(b)[y] == multiset{b[0]}[y] + multiset(b[1..])[y];
      }
      assert multiset(a[1..]) == multiset(b[1..]);
      SortedUnique(a[1..], b[1..], le);
    }
  }

  /** Two values given in either order sort the same way. */
  lemma SortTwo<T(!new)>(a: T, b: T, le: (T, T) -> bool)
    requires TotalOrder(le) && le(a, b)
    ensures Sort([b, a], le) == [a, b]
  {
    var given, sorted := [b, a], [a, b];
    assert SortedBy(sorted, le);
    SortSorted(given, le);
    assert multiset(sorted) == multiset(given);
    SortedUnique(Sort(given, le), sorted, le);
  }

  /** Python's `<=` on integers. */
  function IntLe(a: int, b: int): bool
  {
    a <= b
  }

  lemma IntLeTotal()
    ensures TotalOrder(IntLe)
  {
  }

  /** Python string comparison: by code point, a proper prefix first. */
  function StrLe(a: string, b: string): bool
  {
    a == [] || (b != [] && (a[0] < b[0] || (a[0] == b[0] && StrLe(a[1..], b[1..]))))
  }

  lemma {:induction false} StrLeFacts(a: string, b: string, c: string)
    ensures StrLe(a, b) || StrLe(b, a)
    ensures StrLe(a, b) && StrLe(b, a) ==> a == b
    ensures StrLe(a, b) && StrLe(b, c) ==> StrLe(a, c)
  {
    if a != [] && b != [] && c != [] {
      StrLeFacts(a[1..], b[1..], c[1..]);
      assert a == [a[0]] + a[1..] && b == [b[0]] + b[1..];
    } else if a != [] && b != [] {
      StrLeFacts(a[1..], b[1..], c);
      assert a == [a[0]] + a[1..] && b == [b[0]] + b[1..];
    }
  }

  lemma StrLeTotal()
    ensures TotalOrder(StrLe)
  {
    forall a, b, c
      ensures (StrLe(a, b) || StrLe(b, a)) && (StrLe(a, b) && StrLe(b, a) ==> a == b) &&
              (StrLe(a, b) && StrLe(b, c) ==> StrLe(a, c))
    {
      StrLeFacts(a, b, c);
    }
  }

  /** A string sorts first when it agrees with the other up to i and is smaller at i. */
  lemma {:induction false} StrLeAt(a: string, b: string, i: nat)
    requires i < |a| && i < |b| && a[..i] == b[..i] && a[i] < b[i]
    ensures StrLe(a, b)
  {
    if i > 0 {
      assert a[0] == a[..i][0] && b[0] == b[..i][0];
      assert a[1..][..i - 1] == a[..i][1..] && b[1..][..i - 1] == b[..i][1..];
      StrLeAt(a[1..], b[1..], i - 1);
    }
  }

  /** Two strings given in either order sort the same way. */
  lemma SortTwoStrings(a: string, b: string)
    requires StrLe(a, b)
    ensures Sort([b, a], StrLe) == [a, b]
  {
    StrLeTotal();
    SortTwo(a, b, StrLe);
  }
}
