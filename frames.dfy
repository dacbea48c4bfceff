/**
 * Tables as sequences of records, and the pandas operations the dashboard
 * applies to them. A missing cell (NaN/None) is `None` or `NA`; pandas'
 * `drop_duplicates` and `groupby` compare missing key parts as equal, which is
 * exactly datatype equality on `Option`.
 */
module Frames {

  datatype Option<+T> = None | Some(value: T)

  /** The Python exceptions the modelled code can raise. */
  datatype Failure = KeyError | IndexError | TypeError | ValueError | NameError

  datatype Result<+T> = Ok(value: T) | Err(error: Failure)

  /** One cell of an object column: missing, text as read with `dtype=str`, or a float. */
  datatype Cell = NA | Str(text: string) | Num(x: real)

  function OrElse<T>(o: Option<T>, default: T): T {
    match o
    case Some(v) => v
    case None => default
  }

  /** `DataFrame.fillna(v)` on one cell. */
  function FillNA(c: Cell, v: real): Cell {
    if c.NA? then Num(v) else c
  }

  /** Boolean-mask selection `df[mask]`: the rows satisfying `p`, in order. */
  function Filter<T>(rows: seq<T>, p: T -> bool): (r: seq<T>)
    ensures |r| <= |rows|
    ensures forall x :: x in r ==> x in rows && p(x)
    ensures forall x :: x in rows && p(x) ==> x in r
  {
    if rows == [] then []
    else (if p(rows[0]) then [rows[0]] else []) + Filter(rows[1..], p)
  }

  /** The two halves of a mask split the table: no row is lost or invented. */
  lemma {:induction false} FilterSplit<T>(rows: seq<T>, p: T -> bool)
    ensures |Filter(rows, p)| + |Filter(rows, x => !p(x))| == |rows|
    ensures multiset(Filter(rows, p)) + multiset(Filter(rows, x => !p(x))) == multiset(rows)
  {
    if rows != [] {
      FilterSplit(rows[1..], p);
      assert rows == [rows[0]] + rows[1..];
    }
  }

  /** A filter keeping everything is the identity. */
  lemma {:induction false} FilterAll<T>(rows: seq<T>, p: T -> bool)
    requires forall x :: x in rows ==> p(x)
    ensures Filter(rows, p) == rows
  {
    if rows != [] {
      FilterAll(rows[1..], p);
    }
  }

  /** A mask and its complement split the table's rows between them. */
  lemma {:induction false} FilterPartition<T>(rows: seq<T>, p: T -> bool, q: T -> bool)
    requires forall x :: q(x) == !p(x)
    ensures |Filter(rows, p)| + |Filter(rows, q)| == |rows|
    ensures multiset(Filter(rows, p)) + multiset(Filter(rows, q)) == multiset(rows)
  {
    if rows != [] {
      FilterPartition(rows[1..], p, q);
      assert rows == [rows[0]] + rows[1..];
    }
  }

  lemma {:induction false} FilterNone<T>(rows: seq<T>, p: T -> bool)
    requires forall x :: x in rows ==> !p(x)
    ensures Filter(rows, p) == []
  {
    if rows != [] {
      FilterNone(rows[1..], p);
    }
  }

  /** Filtering a prefix and the rest separately. */
  lemma {:induction false} FilterAppend<T>(a: seq<T>, b: seq<T>, p: T -> bool)
    ensures Filter(a + b, p) == Filter(a, p) + Filter(b, p)
  {
    if a == [] {
      assert a + b == b;
    } else {
      var head := if p(a[0]) then [a[0]] else [];
      calc {
        Filter(a + b, p);
        { assert (a + b)[0] == a[0] && (a + b)[1..] == a[1..] + b; }
        head + Filter(a[1..] + b, p);
        { FilterAppend(a[1..], b, p); }
        head + (Filter(a[1..], p) + Filter(b, p));
        (head + Filter(a[1..], p)) + Filter(b, p);
      }
    }
  }

  /** Number of rows whose key is `k`. */
  function Count<T, K(==)>(rows: seq<T>, key: T -> K, k: K): nat {
    if rows == [] then 0
    else (if key(rows[0]) == k then 1 else 0) + Count(rows[1..], key, k)
  }

  lemma {:induction false} CountPositive<T, K>(rows: seq<T>, key: T -> K, i: nat)
    requires i < |rows|
    ensures Count(rows, key, key(rows[i])) >= 1
  {
    if i > 0 {
      CountPositive(rows[1..], key, i - 1);
    }
  }

  lemma {:induction false} CountTwo<T, K>(rows: seq<T>, key: T -> K, i: nat, j: nat)
    requires i < j < |rows| && key(rows[i]) == key(rows[j])
    ensures Count(rows, key, key(rows[i])) >= 2
  {
    if i == 0 {
      CountPositive(rows[1..], key, j - 1);
    } else {
      CountTwo(rows[1..], key, i - 1, j - 1);
    }
  }

  lemma {:induction false} CountFilter<T, K>(rows: seq<T>, p: T -> bool, key: T -> K, k: K)
    ensures Count(Filter(rows, p), key, k) <= Count(rows, key, k)
  {
    if rows != [] {
      CountFilter(rows[1..], p, key, k);
      var head := if p(rows[0]) then [rows[0]] else [];
      CountAppend(head, Filter(rows[1..], p), key, k);
    }
  }

  lemma {:induction false} CountAppend<T, K>(a: seq<T>, b: seq<T>, key: T -> K, k: K)
    ensures Count(a + b, key, k) == Count(a, key, k) + Count(b, key, k)
  {
    if a == [] {
      assert a + b == b;
    } else {
      CountAppend(a[1..], b, key, k);
      assert (a + b)[1..] == a[1..] + b;
    }
  }

  /** No two rows share a key. */
  predicate UniqueKeys<T, K(==)>(rows: seq<T>, key: T -> K) {
    forall i, j :: 0 <= i < j < |rows| ==> key(rows[i]) != key(rows[j])
  }

  lemma {:induction false} CountUnique<T, K>(rows: seq<T>, key: T -> K)
    requires forall x :: x in rows ==> Count(rows, key, key(x)) == 1
    ensures UniqueKeys(rows, key)
  {
    forall i, j | 0 <= i < j < |rows|
      ensures key(rows[i]) != key(rows[j])
    {
      if key(rows[i]) == key(rows[j]) {
        CountTwo(rows, key, i, j);
      }
    }
  }

  /** A subsequence chosen by a mask keeps unique keys unique. */
  lemma {:induction false} FilterKeepsUnique<T, K>(rows: seq<T>, p: T -> bool, key: T -> K)
    requires UniqueKeys(rows, key)
    ensures UniqueKeys(Filter(rows, p), key)
  {
    if rows != [] {
      FilterKeepsUnique(rows[1..], p, key);
      var rest := Filter(rows[1..], p);
      forall x | x in rest ensures key(x) != key(rows[0]) {
        var j :| 0 <= j < |rows[1..]| && rows[1..][j] == x;
        assert rows[j + 1] == x;
      }
    }
  }

  /** Concatenating two tables with unique keys and no key in common keeps keys unique. */
  lemma UniqueKeysAppend<T, K>(a: seq<T>, b: seq<T>, key: T -> K)
    requires UniqueKeys(a, key) && UniqueKeys(b, key)
    requires forall x, y :: x in a && y in b ==> key(x) != key(y)
    ensures UniqueKeys(a + b, key)
  {
    var ab := a + b;
    forall i, j | 0 <= i < j < |ab| ensures key(ab[i]) != key(ab[j]) {
      if j < |a| {
        assert ab[i] == a[i] && ab[j] == a[j];
      } else if i >= |a| {
        assert ab[i] == b[i - |a|] && ab[j] == b[j - |a|];
      } else {
        assert ab[i] == a[i] && ab[j] == b[j - |a|];
      }
    }
  }

  /** In a table with unique keys every row's key occurs once. */
  lemma {:induction false} UniqueKeysCount<T, K>(rows: seq<T>, key: T -> K, i: nat)
    requires UniqueKeys(rows, key) && i < |rows|
    ensures Count(rows, key, key(rows[i])) == 1
  {
    var tail := rows[1..];
    assert UniqueKeys(tail, key) by {
      forall a, b | 0 <= a < b < |tail| ensures key(tail[a]) != key(tail[b]) {
        assert tail[a] == rows[a + 1] && tail[b] == rows[b + 1];
      }
    }
    if i == 0 {
      CountAbsent(tail, key, key(rows[0]));
    } else {
      UniqueKeysCount(tail, key, i - 1);
      assert tail[i - 1] == rows[i];
    }
  }

  lemma {:induction false} CountAbsent<T, K>(rows: seq<T>, key: T -> K, k: K)
    requires forall x :: x in rows ==> key(x) != k
    ensures Count(rows, key, k) == 0
  {
    if rows != [] {
      CountAbsent(rows[1..], key, k);
    }
  }

  /** Dropping all duplicates of a table whose keys are already unique drops nothing. */
  lemma {:induction false} DropAllDuplicatesOfUnique<T, K>(rows: seq<T>, key: T -> K)
    requires UniqueKeys(rows, key)
    ensures DropAllDuplicates(rows, key) == rows
  {
    forall x | x in rows ensures Count(rows, key, key(x)) <= 1 {
      var i :| 0 <= i < |rows| && rows[i] == x;
      UniqueKeysCount(rows, key, i);
    }
    FilterAll(rows, r => Count(rows, key, key(r)) <= 1);
  }

  /** `df.duplicated(subset, keep=False)`: every row whose key occurs more than once. */
  function Duplicated<T, K(==)>(rows: seq<T>, key: T -> K): seq<T> {
    Filter(rows, r => Count(rows, key, key(r)) > 1)
  }

  /** `df.drop_duplicates(subset, keep=False)`: every row whose key occurs exactly once. */
  function DropAllDuplicates<T, K(==)>(rows: seq<T>, key: T -> K): seq<T> {
    Filter(rows, r => Count(rows, key, key(r)) <= 1)
  }

  /** After dropping all duplicates the key is unique. */
  lemma {:induction false} DropAllDuplicatesUnique<T, K>(rows: seq<T>, key: T -> K)
    ensures UniqueKeys(DropAllDuplicates(rows, key), key)
  {
    var out := DropAllDuplicates(rows, key);
    var p := r => Count(rows, key, key(r)) <= 1;
    forall x | x in out ensures Count(out, key, key(x)) == 1 {
      CountFilter(rows, p, key, key(x));
      var i :| 0 <= i < |out| && out[i] == x;
      CountPositive(out, key, i);
    }
    CountUnique(out, key);
  }

  /**
   * The report of duplicated rows is exactly what `drop_duplicates(keep=False)`
   * removes: together they are the input, and a row is reported iff its key
   * occurs more than once.
   */
  lemma {:induction false} DuplicatedIsRemoved<T, K>(rows: seq<T>, key: T -> K)
    ensures |Duplicated(rows, key)| + |DropAllDuplicates(rows, key)| == |rows|
    ensures multiset(Duplicated(rows, key)) + multiset(DropAllDuplicates(rows, key)) == multiset(rows)
    ensures forall x :: x in Duplicated(rows, key) <==> x in rows && Count(rows, key, key(x)) >= 2
  {
    var p := r => Count(rows, key, key(r)) > 1;
    FilterSplit(rows, p);
    assert Filter(rows, x => !p(x)) == DropAllDuplicates(rows, key) by {
      FilterSame(rows, x => !p(x), r => Count(rows, key, key(r)) <= 1);
    }
  }

  lemma {:induction false} FilterSame<T>(rows: seq<T>, p: T -> bool, q: T -> bool)
    requires forall x :: p(x) == q(x)
    ensures Filter(rows, p) == Filter(rows, q)
  {
    if rows != [] {
      FilterSame(rows[1..], p, q);
    }
  }

  /**
   * A row-by-row filter and update: each row is either dropped (`None`) or
   * replaced by its update, in order.
   */
  function FilterMap<T, U>(rows: seq<T>, f: T -> Option<U>): (r: seq<U>)
    ensures |r| <= |rows|
    ensures forall x :: x in rows && f(x).Some? ==> f(x).value in r
  {
    if rows == [] then []
    else (if f(rows[0]).Some? then [f(rows[0]).value] else []) + FilterMap(rows[1..], f)
  }

  /** Every row of a filter-and-update is the update of some input row. */
  lemma {:induction false} FilterMapFrom<T, U>(rows: seq<T>, f: T -> Option<U>, y: U)
    requires y in FilterMap(rows, f)
    ensures exists x :: x in rows && f(x) == Some(y)
  {
    if f(rows[0]).Some? && y == f(rows[0]).value {
      assert rows[0] in rows;
    } else {
      FilterMapFrom(rows[1..], f, y);
      var x :| x in rows[1..] && f(x) == Some(y);
      assert x in rows;
    }
  }

  /** Two filter-and-update passes are one pass of the composed update. */
  lemma {:induction false} FilterMapCompose<T, U, V>(rows: seq<T>, f: T -> Option<U>, g: U -> Option<V>, h: T -> Option<V>)
    requires forall x :: h(x) == (if f(x).Some? then g(f(x).value) else None)
    ensures FilterMap(FilterMap(rows, f), g) == FilterMap(rows, h)
  {
    if rows != [] {
      FilterMapCompose(rows[1..], f, g, h);
      var head: seq<U> := if f(rows[0]).Some? then [f(rows[0]).value] else [];
      FilterMapAppend(head, FilterMap(rows[1..], f), g);
    }
  }

  lemma {:induction false} FilterMapAppend<T, U>(a: seq<T>, b: seq<T>, f: T -> Option<U>)
    ensures FilterMap(a + b, f) == FilterMap(a, f) + FilterMap(b, f)
  {
    if a == [] {
      assert a + b == b;
    } else {
      assert (a + b)[0] == a[0] && (a + b)[1..] == a[1..] + b;
      FilterMapAppend(a[1..], b, f);
    }
  }

  lemma {:induction false} FilterMapSame<T, U>(rows: seq<T>, f: T -> Option<U>, g: T -> Option<U>)
    requires forall x :: f(x) == g(x)
    ensures FilterMap(rows, f) == FilterMap(rows, g)
  {
    if rows != [] {
      FilterMapSame(rows[1..], f, g);
    }
  }

  /** Keeping every row unchanged is the identity. */
  lemma {:induction false} FilterMapKeepAll<T>(rows: seq<T>, f: T -> Option<T>)
    requires forall x :: f(x) == Some(x)
    ensures FilterMap(rows, f) == rows
  {
    if rows != [] {
      FilterMapKeepAll(rows[1..], f);
    }
  }

  /** The keys of a table, in row order. */
  function Keys<T, K>(rows: seq<T>, key: T -> K): (ks: seq<K>)
    ensures |ks| == |rows|
    ensures forall i :: 0 <= i < |rows| ==> ks[i] == key(rows[i])
  {
    seq(|rows|, i requires 0 <= i < |rows| => key(rows[i]))
  }

  /** The first components of a sequence of pairs, in order. */
  function Firsts<A, B>(ps: seq<(A, B)>): (fs: seq<A>)
    ensures |fs| == |ps| && forall i :: 0 <= i < |ps| ==> fs[i] == ps[i].0
  {
    seq(|ps|, i requires 0 <= i < |ps| => ps[i].0)
  }

  /** `df.query("first == @a").second.values` on a two-column table: the partners of `a`, in row order. */
  function Partners<A(==,!new), B(!new)>(pairs: seq<(A, B)>, a: A): (bs: seq<B>)
    ensures forall b :: b in bs <==> (a, b) in pairs
  {
    if pairs == [] then []
    else
      assert forall p :: p in pairs <==> p == pairs[0] || p in pairs[1..];
      (if pairs[0].0 == a then [pairs[0].1] else []) + Partners(pairs[1..], a)
  }

  /** `df.drop_duplicates(subset, keep="first")`. */
  function KeepFirst<T, K(==)>(rows: seq<T>, key: T -> K): (r: seq<T>)
    decreases |rows|
  {
    if rows == [] then []
    else
      var prefix := KeepFirst(rows[..|rows| - 1], key);
      var last := rows[|rows| - 1];
      if key(last) in Keys(prefix, key) then prefix else prefix + [last]
  }

  lemma KeysAppend<T, K>(a: seq<T>, b: seq<T>, key: T -> K)
    ensures Keys(a + b, key) == Keys(a, key) + Keys(b, key)
  {}

  /** Reordering rows keeps the set of their keys. */
  lemma PermutationKeepsKeys<T, K>(a: seq<T>, b: seq<T>, key: T -> K, k: K)
    requires multiset(a) == multiset(b)
    requires k in Keys(a, key)
    ensures k in Keys(b, key)
  {
    var i :| 0 <= i < |a| && Keys(a, key)[i] == k;
    assert a[i] in multiset(b);
    var j :| 0 <= j < |b| && b[j] == a[i];
    assert Keys(b, key)[j] == k;
  }

  /** `keep="first"` loses no key and invents none. */
  lemma {:induction false} KeepFirstKeys<T, K>(rows: seq<T>, key: T -> K)
    ensures forall k :: k in Keys(rows, key) <==> k in Keys(KeepFirst(rows, key), key)
    decreases |rows|
  {
    if rows != [] {
      var n := |rows| - 1;
      var pre, last := rows[..n], rows[n];
      assert rows == pre + [last];
      KeepFirstKeys(pre, key);
      var p := KeepFirst(pre, key);
      KeysAppend(pre, [last], key);
      KeysAppend(p, [last], key);
    }
  }

  lemma {:induction false} KeepFirstKeysAt<T, K>(rows: seq<T>, key: T -> K, m: nat)
    requires m < |rows|
    ensures key(rows[m]) in Keys(KeepFirst(rows, key), key)
    decreases |rows|
  {
    var n := |rows| - 1;
    var pre, last := rows[..n], rows[n];
    var p := KeepFirst(pre, key);
    var out := KeepFirst(rows, key);
    KeysAppend(p, [last], key);
    if m < n {
      KeepFirstKeysAt(pre, key, m);
      assert pre[m] == rows[m];
      var j :| 0 <= j < |p| && Keys(p, key)[j] == key(rows[m]);
      assert out[j] == p[j];
      assert Keys(out, key)[j] == key(rows[m]);
    } else if key(last) !in Keys(p, key) {
      assert Keys(out, key)[|p|] == key(last);
    }
  }

  /** Every row `keep="first"` keeps is an input row. */
  lemma {:induction false} KeepFirstSubset<T, K>(rows: seq<T>, key: T -> K)
    ensures forall x :: x in KeepFirst(rows, key) ==> x in rows
    decreases |rows|
  {
    if rows != [] {
      var n := |rows| - 1;
      KeepFirstSubset(rows[..n], key);
      assert rows == rows[..n] + [rows[n]];
    }
  }

  /** After `keep="first"` the key is unique. */
  lemma {:induction false} KeepFirstUnique<T, K>(rows: seq<T>, key: T -> K)
    ensures UniqueKeys(KeepFirst(rows, key), key)
    decreases |rows|
  {
    if rows != [] {
      var n := |rows| - 1;
      var pre, last := rows[..n], rows[n];
      KeepFirstUnique(pre, key);
      var p := KeepFirst(pre, key);
      if key(last) !in Keys(p, key) {
        var out := p + [last];
        forall i, j | 0 <= i < j < |out| ensures key(out[i]) != key(out[j]) {
          if j == |p| {
            assert Keys(p, key)[i] == key(out[i]);
          }
        }
      }
    }
  }

  /** The row kept for a key is the first input row carrying that key. */
  lemma {:induction false} KeepFirstIsFirst<T, K>(rows: seq<T>, key: T -> K, i: nat)
    requires i < |KeepFirst(rows, key)|
    ensures exists j :: 0 <= j < |rows| && rows[j] == KeepFirst(rows, key)[i] &&
              forall m :: 0 <= m < j ==> key(rows[m]) != key(rows[j])
    decreases |rows|
  {
    var n := |rows| - 1;
    var pre, last := rows[..n], rows[n];
    var p := KeepFirst(pre, key);
    var out := KeepFirst(rows, key);
    if i < |p| {
      KeepFirstIsFirst(pre, key, i);
      var j :| 0 <= j < |pre| && pre[j] == p[i] &&
               forall m :: 0 <= m < j ==> key(pre[m]) != key(pre[j]);
      assert rows[j] == pre[j];
      assert forall m :: 0 <= m < j ==> rows[m] == pre[m];
    } else {
      assert out[i] == last && key(last) !in Keys(p, key);
      forall m | 0 <= m < n ensures key(rows[m]) != key(rows[n]) {
        assert pre[m] == rows[m];
        KeepFirstKeysAt(pre, key, m);
      }
    }
  }

  function Id<T>(x: T): T { x }

  /** `Series.unique()` (and `groupby(..., sort=False)` keys): distinct values in first-appearance order. */
  function Unique<T(==)>(xs: seq<T>): seq<T> {
    KeepFirst(xs, Id)
  }

  /** The distinct values: no repeats, and exactly the input's values. */
  lemma {:induction false} UniqueSpec<T>(xs: seq<T>)
    ensures forall i, j :: 0 <= i < j < |Unique(xs)| ==> Unique(xs)[i] != Unique(xs)[j]
    ensures forall x :: x in Unique(xs) <==> x in xs
  {
    var u := KeepFirst(xs, Id);
    KeepFirstUnique(xs, Id);
    KeepFirstKeys(xs, Id);
    forall x ensures x in u <==> x in xs {
      if x in xs {
        var j :| 0 <= j < |xs| && xs[j] == x;
        assert Keys(xs, Id)[j] == x;
        assert x in Keys(u, Id);
        var i :| 0 <= i < |u| && Keys(u, Id)[i] == x;
        assert u[i] == x;
      }
      if x in u {
        var i :| 0 <= i < |u| && u[i] == x;
        assert Keys(u, Id)[i] == x;
        assert x in Keys(xs, Id);
        var j :| 0 <= j < |xs| && Keys(xs, Id)[j] == x;
        assert xs[j] == x;
      }
    }
    forall i, j | 0 <= i < j < |u| ensures u[i] != u[j] {
      assert Id(u[i]) != Id(u[j]);
    }
  }

  /** Exact-value `replace({old: new, ...})` on one cell value. */
  function ReplaceExact(v: Option<string>, table: map<string, string>): Option<string> {
    if v.Some? && v.value in table then Some(table[v.value]) else v
  }

  /** When no replacement target is itself a key, replacing twice is replacing once. */
  lemma ReplaceExactIdempotent(v: Option<string>, table: map<string, string>)
    requires forall k :: k in table ==> table[k] !in table
    ensures ReplaceExact(ReplaceExact(v, table), table) == ReplaceExact(v, table)
  {}
}
