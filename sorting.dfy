/**
 * Python's `sorted` and pandas' stable `sort_values`, as an insertion sort by a
 * comparison `le`: an element is placed after every element it is not
 * strictly smaller than, so equal elements keep their input order.
 */
module Sorting {
  import opened Frames
  import opened Text

  ghost predicate Transitive<T(!new)>(le: (T, T) -> bool) {
    forall a, b, c :: le(a, b) && le(b, c) ==> le(a, c)
  }

  ghost predicate TotalPreorder<T(!new)>(le: (T, T) -> bool) {
    && (forall a, b :: le(a, b) || le(b, a))
    && Transitive(le)
  }

  predicate SortedBy<T>(xs: seq<T>, le: (T, T) -> bool) {
    forall i, j :: 0 <= i < j < |xs| ==> le(xs[i], xs[j])
  }

  function Insert<T>(x: T, xs: seq<T>, le: (T, T) -> bool): (r: seq<T>)
    ensures multiset(r) == multiset(xs) + multiset{x}
    ensures |r| == |xs| + 1
  {
    if xs == [] then [x]
    else if !le(xs[0], x) then [x] + xs
    else
      assert xs == [xs[0]] + xs[1..];
      [xs[0]] + Insert(x, xs[1..], le)
  }

  /** `sorted(xs, key=...)`: stable. */
  function Sort<T>(xs: seq<T>, le: (T, T) -> bool): (r: seq<T>)
    ensures multiset(r) == multiset(xs)
    ensures |r| == |xs|
    decreases |xs|
  {
    if xs == [] then []
    else
      assert xs == xs[..|xs| - 1] + [xs[|xs| - 1]];
      Insert(xs[|xs| - 1], Sort(xs[..|xs| - 1], le), le)
  }

  lemma {:induction false} InsertSorted<T(!new)>(x: T, xs: seq<T>, le: (T, T) -> bool)
    requires TotalPreorder(le) && SortedBy(xs, le)
    ensures SortedBy(Insert(x, xs, le), le)
    decreases |xs|
  {
    if xs != [] && le(xs[0], x) {
      InsertSorted(x, xs[1..], le);
      var r := Insert(x, xs, le);
      forall j | 0 < j < |r| ensures le(xs[0], r[j]) {
        assert r[j] in multiset(Insert(x, xs[1..], le));
        assert r[j] in multiset(xs[1..]) + multiset{x};
        if r[j] != x {
          var k :| 0 <= k < |xs[1..]| && xs[1..][k] == r[j];
          assert xs[k + 1] == r[j];
        }
      }
    }
  }

  /** The result of `Sort` is ordered and is a permutation of the input. */
  lemma {:induction false} SortSpec<T(!new)>(xs: seq<T>, le: (T, T) -> bool)
    requires TotalPreorder(le)
    ensures SortedBy(Sort(xs, le), le)
    ensures multiset(Sort(xs, le)) == multiset(xs)
    decreases |xs|
  {
    if xs != [] {
      SortSpec(xs[..|xs| - 1], le);
      InsertSorted(xs[|xs| - 1], Sort(xs[..|xs| - 1], le), le);
    }
  }

  /** The elements that `le` ranks level with `c`. */
  function Tied<T>(le: (T, T) -> bool, c: T): T -> bool {
    y => le(c, y) && le(y, c)
  }

  /** In a sorted sequence whose head is above `x`, nothing is level with `x`. */
  lemma NoneTied<T(!new)>(x: T, ys: seq<T>, le: (T, T) -> bool, c: T)
    requires Transitive(le) && SortedBy(ys, le)
    requires ys != [] && !le(ys[0], x) && le(c, x)
    ensures Filter(ys, Tied(le, c)) == []
  {
    forall y | y in ys ensures !Tied(le, c)(y) {
      var k :| 0 <= k < |ys| && ys[k] == y;
      if k > 0 {
        assert le(ys[0], ys[k]);
        BelowHead(ys[0], y, x, le, c);
      }
    }
    FilterNone(ys, Tied(le, c));
  }

  lemma BelowHead<T(!new)>(h: T, y: T, x: T, le: (T, T) -> bool, c: T)
    requires Transitive(le) && le(h, y) && le(c, x) && !le(h, x)
    ensures !le(y, c)
  {
  }

  /**
   * Inserting into a sorted sequence puts `x` after everything level with it:
   * what follows the insertion point is strictly above `x`.
   */
  lemma {:induction false} InsertStable<T(!new)>(x: T, ys: seq<T>, le: (T, T) -> bool, c: T)
    requires Transitive(le) && SortedBy(ys, le)
    ensures Filter(Insert(x, ys, le), Tied(le, c)) == Filter(ys, Tied(le, c)) + (if Tied(le, c)(x) then [x] else [])
    decreases |ys|, 1
  {
    var p := Tied(le, c);
    var tail: seq<T> := if p(x) then [x] else [];
    if ys == [] {
      assert Insert(x, ys, le) == [x];
    } else if !le(ys[0], x) {
      InsertBefore(x, ys, le, c);
    } else {
      InsertAfter(x, ys, le, c);
    }
  }

  lemma InsertBefore<T(!new)>(x: T, ys: seq<T>, le: (T, T) -> bool, c: T)
    requires Transitive(le) && SortedBy(ys, le)
    requires ys != [] && !le(ys[0], x)
    ensures Filter(Insert(x, ys, le), Tied(le, c)) == Filter(ys, Tied(le, c)) + (if Tied(le, c)(x) then [x] else [])
  {
    var p := Tied(le, c);
    if p(x) {
      NoneTied(x, ys, le, c);
    }
    assert Insert(x, ys, le) == [x] + ys;
    FilterAppend([x], ys, p);
  }

  lemma {:induction false} InsertAfter<T(!new)>(x: T, ys: seq<T>, le: (T, T) -> bool, c: T)
    requires Transitive(le) && SortedBy(ys, le)
    requires ys != [] && le(ys[0], x)
    ensures Filter(Insert(x, ys, le), Tied(le, c)) == Filter(ys, Tied(le, c)) + (if Tied(le, c)(x) then [x] else [])
    decreases |ys|, 0
  {
    var p := Tied(le, c);
    var tail: seq<T> := if p(x) then [x] else [];
    var rest := ys[1..];
    InsertStable(x, rest, le, c);
    assert Insert(x, ys, le) == [ys[0]] + Insert(x, rest, le);
    var head := Filter([ys[0]], p);
    FilterAppend([ys[0]], Insert(x, rest, le), p);
    FilterAppend([ys[0]], rest, p);
    assert ys == [ys[0]] + rest;
    calc {
      Filter(Insert(x, ys, le), p);
      head + Filter(Insert(x, rest, le), p);
      head + (Filter(rest, p) + tail);
      (head + Filter(rest, p)) + tail;
      Filter(ys, p) + tail;
    }
  }

  /** `Sort` is stable: the elements level with any `c` keep their input order. */
  lemma {:induction false} SortStable<T(!new)>(xs: seq<T>, le: (T, T) -> bool, c: T)
    requires TotalPreorder(le)
    ensures Filter(Sort(xs, le), Tied(le, c)) == Filter(xs, Tied(le, c))
    decreases |xs|
  {
    if xs != [] {
      var n := |xs| - 1;
      var pre := xs[..n];
      SortStable(pre, le, c);
      SortSpec(pre, le);
      InsertStable(xs[n], Sort(pre, le), le, c);
      FilterSnoc(xs, Tied(le, c));
    }
  }

  /** Filtering a sequence is filtering all but its last element, then the last. */
  lemma {:induction false} FilterSnoc<T>(xs: seq<T>, p: T -> bool)
    requires xs != []
    ensures Filter(xs, p) == Filter(xs[..|xs| - 1], p) + (if p(xs[|xs| - 1]) then [xs[|xs| - 1]] else [])
  {
    var n := |xs| - 1;
    assert xs == xs[..n] + [xs[n]];
    FilterAppend(xs[..n], [xs[n]], p);
  }

  /** `sorted(..., key=str.lower)` compares lower-cased strings; that order is a total preorder. */
  lemma CaseInsensitiveTotal()
    ensures TotalPreorder(CaseInsensitiveLe)
  {
    forall a, b ensures CaseInsensitiveLe(a, b) || CaseInsensitiveLe(b, a) {
      LexLeTotal(Lower(a), Lower(b));
    }
    forall a, b, c | CaseInsensitiveLe(a, b) && CaseInsensitiveLe(b, c)
      ensures CaseInsensitiveLe(a, c)
    {
      LexLeTrans(Lower(a), Lower(b), Lower(c));
    }
  }

  /** Plain `sorted` on `str` (as `np.unique` sorts) is a total preorder too. */
  lemma LexTotal()
    ensures TotalPreorder(LexLe)
  {
    forall a, b ensures LexLe(a, b) || LexLe(b, a) {
      LexLeTotal(a, b);
    }
    forall a, b, c | LexLe(a, b) && LexLe(b, c) ensures LexLe(a, c) {
      LexLeTrans(a, b, c);
    }
  }

  /** `sorted(xs, key=str.lower)`. */
  function SortCaseInsensitive(xs: seq<string>): (r: seq<string>)
    ensures SortedBy(r, CaseInsensitiveLe)
    ensures multiset(r) == multiset(xs)
    ensures |r| == |xs|
    ensures forall c :: Filter(r, Tied(CaseInsensitiveLe, c)) == Filter(xs, Tied(CaseInsensitiveLe, c))
  {
    CaseInsensitiveTotal();
    SortSpec(xs, CaseInsensitiveLe);
    forall c ensures Filter(Sort(xs, CaseInsensitiveLe), Tied(CaseInsensitiveLe, c)) == Filter(xs, Tied(CaseInsensitiveLe, c)) {
      SortStable(xs, CaseInsensitiveLe, c);
    }
    Sort(xs, CaseInsensitiveLe)
  }

  /** `sorted` on `str` and the sort inside `np.unique`/`np.setdiff1d`: code-point order. */
  function SortLex(xs: seq<string>): (r: seq<string>)
    ensures SortedBy(r, LexLe)
    ensures multiset(r) == multiset(xs)
    ensures |r| == |xs|
  {
    LexTotal();
    SortSpec(xs, LexLe);
    Sort(xs, LexLe)
  }

  /** In a sequence without repeats every element is counted once. */
  lemma {:induction false} DistinctOnce<T>(a: seq<T>, x: T)
    requires forall i, j :: 0 <= i < j < |a| ==> a[i] != a[j]
    requires x in multiset(a)
    ensures multiset(a)[x] == 1
  {
    assert a == [a[0]] + a[1..];
    var t := a[1..];
    if a[0] == x {
      assert x !in t;
    } else {
      DistinctOnce(t, x);
    }
  }

  lemma {:induction false} TwiceCounted<T>(b: seq<T>, i: nat, j: nat)
    requires i < j < |b| && b[i] == b[j]
    ensures multiset(b)[b[i]] >= 2
  {
    assert b == b[..j] + [b[j]] + b[j + 1..];
    assert b[i] in multiset(b[..j]);
  }

  /** Reordering a table whose key is unique keeps it unique (so sorting does). */
  lemma PermutationKeepsUniqueKeys<T, K>(a: seq<T>, b: seq<T>, key: T -> K)
    requires multiset(a) == multiset(b)
    requires forall i, j :: 0 <= i < j < |a| ==> key(a[i]) != key(a[j])
    ensures forall i, j :: 0 <= i < j < |b| ==> key(b[i]) != key(b[j])
  {
    forall i, j | 0 <= i < j < |b| ensures key(b[i]) != key(b[j]) {
      assert b[i] in multiset(a) && b[j] in multiset(a);
      var p :| 0 <= p < |a| && a[p] == b[i];
      var q :| 0 <= q < |a| && a[q] == b[j];
      DistinctOnce(a, b[i]);
      if p == q {
        TwiceCounted(b, i, j);
      }
    }
  }
}
