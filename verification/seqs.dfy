/** Generic sequence functions: list comprehensions, counting, `"".join`, reversal. */
module Seqs {

  import opened Wrappers

  /** `[x for x in s if p(x)]`. */
  function Filter<T(==)>(s: seq<T>, p: T -> bool): (r: seq<T>)
    ensures |r| <= |s|
    ensures forall i :: 0 <= i < |r| ==> p(r[i]) && r[i] in s
    ensures forall i :: 0 <= i < |s| && p(s[i]) ==> s[i] in r
  {
    if |s| == 0 then []
    else if p(s[0]) then [s[0]] + Filter(s[1..], p)
    else Filter(s[1..], p)
  }

  /** `len([x for x in s if p(x)])`, counted directly. */
  function Count<T>(s: seq<T>, p: T -> bool): nat
  {
    if |s| == 0 then 0
    else (if p(s[0]) then 1 else 0) + Count(s[1..], p)
  }

  /** Two counts of mutually exclusive conditions add up to at most the length. */
  lemma {:induction false} CountDisjoint<T>(s: seq<T>, p: T -> bool, q: T -> bool)
    requires forall x :: !(p(x) && q(x))
    ensures Count(s, p) + Count(s, q) <= |s|
    decreases |s|
  {
    if |s| > 0 {
      CountDisjoint(s[1..], p, q);
    }
  }

  /** A count never exceeds one of a weaker condition. */
  lemma {:induction false} CountMono<T>(s: seq<T>, p: T -> bool, q: T -> bool)
    requires forall x :: p(x) ==> q(x)
    ensures Count(s, p) <= Count(s, q)
    decreases |s|
  {
    if |s| > 0 {
      CountMono(s[1..], p, q);
    }
  }

  /** `a` occurs in `b` in order, possibly with gaps. */
  predicate IsSubseq<T(==)>(a: seq<T>, b: seq<T>)
    decreases |b|
  {
    |a| == 0 || (|b| > 0 && ((a[0] == b[0] && IsSubseq(a[1..], b[1..])) || IsSubseq(a, b[1..])))
  }

  lemma {:induction false} CountIsFilterLength<T>(s: seq<T>, p: T -> bool)
    ensures Count(s, p) == |Filter(s, p)|
    decreases |s|
  {
    if |s| > 0 {
      CountIsFilterLength(s[1..], p);
    }
  }

  lemma {:induction false} CountAppend<T>(a: seq<T>, b: seq<T>, p: T -> bool)
    ensures Count(a + b, p) == Count(a, p) + Count(b, p)
    decreases |a|
  {
    if |a| > 0 {
      assert (a + b)[1..] == a[1..] + b;
      CountAppend(a[1..], b, p);
    } else {
      assert a + b == b;
    }
  }

  /** A filter keeps the order of what it keeps. */
  lemma {:induction false} FilterIsSubseq<T>(s: seq<T>, p: T -> bool)
    ensures IsSubseq(Filter(s, p), s)
    decreases |s|
  {
    if |s| > 0 {
      FilterIsSubseq(s[1..], p);
      if p(s[0]) {
        assert Filter(s, p)[1..] == Filter(s[1..], p);
      }
    }
  }

  /** Filtering by `p` and then by `q` is filtering once by their conjunction. */
  lemma {:induction false} FilterFilter<T>(s: seq<T>, p: T -> bool, q: T -> bool, pq: T -> bool)
    requires forall x :: pq(x) == (p(x) && q(x))
    ensures Filter(Filter(s, p), q) == Filter(s, pq)
    decreases |s|
  {
    if |s| > 0 {
      FilterFilter(s[1..], p, q, pq);
      if p(s[0]) {
        assert Filter(s, p) == [s[0]] + Filter(s[1..], p);
        assert Filter(s, p)[1..] == Filter(s[1..], p);
      }
    }
  }

  lemma {:induction false} FilterNone<T>(s: seq<T>, p: T -> bool)
    requires forall i :: 0 <= i < |s| ==> !p(s[i])
    ensures Filter(s, p) == []
    decreases |s|
  {
    if |s| > 0 {
      FilterNone(s[1..], p);
    }
  }

  /** A filter drops nothing when everything satisfies `p`. */
  lemma {:induction false} FilterAll<T>(s: seq<T>, p: T -> bool)
    requires forall i :: 0 <= i < |s| ==> p(s[i])
    ensures Filter(s, p) == s
    decreases |s|
  {
    if |s| > 0 {
      FilterAll(s[1..], p);
      assert s == [s[0]] + s[1..];
    }
  }

  /** A filter keeps nothing only when nothing satisfies `p`. */
  lemma {:induction false} FilterEmpty<T>(s: seq<T>, p: T -> bool)
    requires |Filter(s, p)| == 0
    ensures forall i :: 0 <= i < |s| ==> !p(s[i])
    decreases |s|
  {
    if |s| > 0 {
      FilterEmpty(s[1..], p);
      assert forall i :: 1 <= i < |s| ==> s[i] == s[1..][i - 1];
    }
  }

  lemma {:induction false} FilterAppend<T>(a: seq<T>, b: seq<T>, p: T -> bool)
    ensures Filter(a + b, p) == Filter(a, p) + Filter(b, p)
    decreases |a|
  {
    if |a| > 0 {
      assert (a + b)[1..] == a[1..] + b;
      FilterAppend(a[1..], b, p);
    } else {
      assert a + b == b;
    }
  }

  /** `"".join(parts)`. */
  function Concat(parts: seq<string>): string
  {
    if |parts| == 0 then "" else parts[0] + Concat(parts[1..])
  }

  lemma {:induction false} ConcatAppend(parts: seq<string>, x: string)
    ensures Concat(parts + [x]) == Concat(parts) + x
    decreases |parts|
  {
    if |parts| > 0 {
      assert (parts + [x])[1..] == parts[1..] + [x];
      ConcatAppend(parts[1..], x);
    } else {
      assert parts + [x] == [x];
    }
  }

  /** The elements of `s` in the opposite order. */
  function Reverse<T>(s: seq<T>): (r: seq<T>)
    ensures |r| == |s|
  {
    if |s| == 0 then [] else Reverse(s[1..]) + [s[0]]
  }

  lemma {:induction false} ReverseIndex<T>(s: seq<T>)
    ensures forall i :: 0 <= i < |s| ==> Reverse(s)[i] == s[|s| - 1 - i]
    decreases |s|
  {
    if |s| > 0 {
      ReverseIndex(s[1..]);
    }
  }

  /** Reversing a sequence with one more element at the end puts it first. */
  lemma {:induction false} ReverseSnoc<T>(s: seq<T>, x: T)
    ensures Reverse(s + [x]) == [x] + Reverse(s)
    decreases |s|
  {
    if |s| == 0 {
      assert s + [x] == [x];
      assert [x][1..] == [];
    } else {
      assert (s + [x])[1..] == s[1..] + [x];
      ReverseSnoc(s[1..], x);
    }
  }

  /** The index of the first element satisfying `p`, as `next(i for i, x in enumerate(s) if p(x))`. */
  function FirstIndex<T>(s: seq<T>, p: T -> bool): (r: Option<nat>)
    ensures r.Some? ==> r.value < |s| && p(s[r.value])
    ensures r.Some? ==> forall j :: 0 <= j < r.value ==> !p(s[j])
    ensures r.None? ==> forall j :: 0 <= j < |s| ==> !p(s[j])
  {
    if |s| == 0 then None
    else if p(s[0]) then Some(0)
    else match FirstIndex(s[1..], p)
      case None => None
      case Some(i) => Some(i + 1)
  }

  /** Appending an element that fails `p` does not move the first match. */
  lemma {:induction false} FirstIndexAppendMiss<T>(s: seq<T>, y: T, p: T -> bool)
    requires !p(y)
    ensures FirstIndex(s + [y], p) == FirstIndex(s, p)
    decreases |s|
  {
    if |s| == 0 {
      assert [y][1..] == [];
    } else {
      assert (s + [y])[1..] == s[1..] + [y];
      FirstIndexAppendMiss(s[1..], y, p);
    }
  }

  /** Sequences that agree element by element on the predicates have the
      same first match. */
  lemma {:induction false} FirstIndexPointwise<T, U>(s: seq<T>, p: T -> bool, t: seq<U>, q: U -> bool)
    requires |s| == |t| && forall i :: 0 <= i < |s| ==> p(s[i]) == q(t[i])
    ensures FirstIndex(s, p) == FirstIndex(t, q)
    decreases |s|
  {
    if |s| > 0 {
      FirstIndexPointwise(s[1..], p, t[1..], q);
    }
  }

  /** The prefix of `s` up to and including its first element satisfying `p`;
      all of `s` when no element does. */
  function ThroughFirst<T>(s: seq<T>, p: T -> bool): (r: seq<T>)
    ensures |r| <= |s| && r == s[..|r|]
  {
    match FirstIndex(s, p)
    case Some(k) => s[..k + 1]
    case None => s
  }

  /** Taking through the first match, one element at a time: a matching head
      ends the prefix, any other head is kept and the search goes on. */
  lemma ThroughFirstCons<T>(x: T, s: seq<T>, p: T -> bool)
    ensures ThroughFirst([x] + s, p) == if p(x) then [x] else [x] + ThroughFirst(s, p)
  {
    var xs := [x] + s;
    assert xs[0] == x && xs[1..] == s;
    match FirstIndex(s, p)
    case Some(k) =>
      if !p(x) {
        assert xs[..k + 2] == [x] + s[..k + 1];
      }
    case None =>
  }

  /** Filtering a single element keeps it exactly when it satisfies `p`. */
  lemma FilterSingle<T>(x: T, p: T -> bool)
    ensures Filter([x], p) == if p(x) then [x] else []
  {
    assert [x][1..] == [];
  }

  /** The last element a filter keeps is the last element of `s` satisfying `p`. */
  lemma {:induction false} FilterLast<T>(s: seq<T>, p: T -> bool)
    requires |Filter(s, p)| > 0
    ensures exists i ::
              && 0 <= i < |s| && s[i] == Filter(s, p)[|Filter(s, p)| - 1] && p(s[i])
              && (forall j :: i < j < |s| ==> !p(s[j]))
    decreases |s|
  {
    var s', x := s[..|s| - 1], s[|s| - 1];
    assert s == s' + [x];
    FilterAppend(s', [x], p);
    FilterSingle(x, p);
    if p(x) {
      var f := Filter(s, p);
      assert f == Filter(s', p) + [x];
      var i := |s| - 1;
      assert s[i] == f[|f| - 1] && p(s[i]);
    } else {
      assert Filter(s, p) == Filter(s', p) + [];
      FilterLast(s', p);
      FilterLastExtend(s', x, p);
    }
  }

  /** What `[x for x in s if p(x)]` tells about `s`: empty exactly when nothing
      satisfies `p`, and otherwise its last element is the last match in `s`. */
  lemma FilterLastOrNone<T>(s: seq<T>, p: T -> bool)
    ensures var m := Filter(s, p);
      && (|m| == 0 <==> forall i :: 0 <= i < |s| ==> !p(s[i]))
      && (|m| > 0 ==>
            exists i ::
              && 0 <= i < |s| && s[i] == m[|m| - 1] && p(s[i])
              && (forall j :: i < j < |s| ==> !p(s[j])))
  {
    if |Filter(s, p)| > 0 {
      FilterLast(s, p);
    } else {
      FilterEmpty(s, p);
    }
  }

  /** `[x for x in s if p(x)][-1]` guarded by an emptiness check: the last
      element satisfying `p`, or `None` when there is none. */
  function LastMatch<T(==)>(s: seq<T>, p: T -> bool): (r: Option<T>)
    ensures r.None? <==> forall i :: 0 <= i < |s| ==> !p(s[i])
    ensures r.Some? ==>
      exists i ::
        && 0 <= i < |s| && s[i] == r.value && p(s[i])
        && (forall j :: i < j < |s| ==> !p(s[j]))
  {
    var matching := Filter(s, p);
    FilterLastOrNone(s, p);
    if |matching| > 0 then Some(matching[|matching| - 1]) else None
  }

  lemma FilterLastExtend<T>(s': seq<T>, x: T, p: T -> bool)
    requires !p(x) && |Filter(s', p)| > 0 && Filter(s' + [x], p) == Filter(s', p) + []
    requires exists i ::
              && 0 <= i < |s'| && s'[i] == Filter(s', p)[|Filter(s', p)| - 1] && p(s'[i])
              && (forall j :: i < j < |s'| ==> !p(s'[j]))
    ensures var s := s' + [x];
      exists i ::
        && 0 <= i < |s| && s[i] == Filter(s, p)[|Filter(s, p)| - 1] && p(s[i])
        && (forall j :: i < j < |s| ==> !p(s[j]))
  {
    var s := s' + [x];
    assert Filter(s, p) == Filter(s', p);
    var i :| 0 <= i < |s'| && s'[i] == Filter(s', p)[|Filter(s', p)| - 1] && p(s'[i]) &&
      (forall j :: i < j < |s'| ==> !p(s'[j]));
    assert s[i] == s'[i];
    forall j | i < j < |s|
      ensures !p(s[j])
    {
      if j < |s'| {
        assert s[j] == s'[j];
      }
    }
  }
}
