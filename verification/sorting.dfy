/** Ordering of stored text values and the `ORDER BY <text column>` of a query. */
module Sorting {

  /** SQLite's BINARY collation on text: compare code point by code point;
      a proper prefix sorts first. */
  predicate LexLe(a: string, b: string)
    decreases |a|
  {
    |a| == 0 || (|b| > 0 && (a[0] < b[0] || (a[0] == b[0] && LexLe(a[1..], b[1..]))))
  }

  lemma {:induction false} LexLeTotal(a: string, b: string)
    ensures LexLe(a, b) || LexLe(b, a)
    decreases |a|
  {
    if |a| > 0 && |b| > 0 && a[0] == b[0] {
      LexLeTotal(a[1..], b[1..]);
    }
  }

  lemma {:induction false} LexLeTransitive(a: string, b: string, c: string)
    requires LexLe(a, b) && LexLe(b, c)
    ensures LexLe(a, c)
    decreases |a|
  {
    if |a| > 0 && a[0] == b[0] && b[0] == c[0] {
      LexLeTransitive(a[1..], b[1..], c[1..]);
    }
  }

  /** `a` may come before `b` under `ORDER BY … ASC` (or `DESC` when `desc`). */
  predicate InOrder(a: string, b: string, desc: bool)
  {
    if desc then LexLe(b, a) else LexLe(a, b)
  }

  /** Every earlier element's key is in order with every later element's key. */
  ghost predicate SortedBy<T>(s: seq<T>, key: T -> string, desc: bool)
  {
    forall i, j :: 0 <= i < j < |s| ==> InOrder(key(s[i]), key(s[j]), desc)
  }

  /** Puts `x` in front of the first element it may precede. */
  function Insert<T>(x: T, s: seq<T>, key: T -> string, desc: bool): (r: seq<T>)
    ensures multiset(r) == multiset(s) + multiset{x}
  {
    if |s| == 0 then [x]
    else if InOrder(key(x), key(s[0]), desc) then [x] + s
    else
      assert s == [s[0]] + s[1..];
      [s[0]] + Insert(x, s[1..], key, desc)
  }

  lemma InsertFrontSorted<T>(x: T, s: seq<T>, key: T -> string, desc: bool)
    requires SortedBy(s, key, desc) && |s| > 0 && InOrder(key(x), key(s[0]), desc)
    ensures SortedBy([x] + s, key, desc)
  {
    var r := [x] + s;
    forall i, j | 0 <= i < j < |r|
      ensures InOrder(key(r[i]), key(r[j]), desc)
    {
      if i == 0 && j > 1 {
        if desc {
          LexLeTransitive(key(s[j - 1]), key(s[0]), key(x));
        } else {
          LexLeTransitive(key(x), key(s[0]), key(s[j - 1]));
        }
      }
    }
  }

  lemma InsertLaterSorted<T>(x: T, s: seq<T>, key: T -> string, desc: bool)
    requires SortedBy(s, key, desc) && |s| > 0 && !InOrder(key(x), key(s[0]), desc)
    requires SortedBy(Insert(x, s[1..], key, desc), key, desc)
    ensures SortedBy([s[0]] + Insert(x, s[1..], key, desc), key, desc)
  {
    LexLeTotal(key(x), key(s[0]));
    var rest := Insert(x, s[1..], key, desc);
    var r := [s[0]] + rest;
    forall j | 1 <= j < |r|
      ensures InOrder(key(s[0]), key(r[j]), desc)
    {
      var e := r[j];
      assert e == rest[j - 1];
      assert e in multiset(rest);
      if e != x {
        assert e in multiset(s[1..]);
        var k :| 0 <= k < |s[1..]| && s[1..][k] == e;
        assert s[k + 1] == e;
      }
    }
  }

  lemma {:induction false} InsertSorted<T>(x: T, s: seq<T>, key: T -> string, desc: bool)
    requires SortedBy(s, key, desc)
    ensures SortedBy(Insert(x, s, key, desc), key, desc)
    decreases |s|
  {
    if |s| > 0 {
      if InOrder(key(x), key(s[0]), desc) {
        InsertFrontSorted(x, s, key, desc);
      } else {
        InsertSorted(x, s[1..], key, desc);
        InsertLaterSorted(x, s, key, desc);
      }
    }
  }

  /** The rows of `s` rearranged into key order: a model of `ORDER BY key`. The
      query leaves the order of equal keys unspecified; this picks one. */
  function SortBy<T>(s: seq<T>, key: T -> string, desc: bool): (r: seq<T>)
    ensures multiset(r) == multiset(s)
    ensures |r| == |s|
  {
    if |s| == 0 then []
    else
      assert s == [s[0]] + s[1..];
      Insert(s[0], SortBy(s[1..], key, desc), key, desc)
  }

  lemma {:induction false} SortBySorted<T>(s: seq<T>, key: T -> string, desc: bool)
    ensures SortedBy(SortBy(s, key, desc), key, desc)
    decreases |s|
  {
    if |s| > 0 {
      SortBySorted(s[1..], key, desc);
      InsertSorted(s[0], SortBy(s[1..], key, desc), key, desc);
    }
  }
}
