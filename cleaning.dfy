/**
 * The numeric cleaning of one value column, as the start-up pipeline does it
 * for the district values and for each of Urban, Rural and Total of the state
 * table: rows whose value is present but not numeric are reported and dropped,
 * the column is cast to float, and rows with a negative value are reported and
 * dropped. Missing values are kept.
 *
 * The text-to-number conversion (`pd.to_numeric(..., errors="coerce")`, and
 * `float` in `astype`) is the parameter `parse`; both conversions are taken to
 * accept the same texts.
 */
module Cleaning {
  import opened Frames

  type Parser = string -> Option<real>

  /** `pd.to_numeric(c, errors="coerce")` is missing while `c` is not. */
  predicate NonNumeric(c: Cell, parse: Parser) {
    c.Str? && parse(c.text).None?
  }

  /** `astype("float64")` of a cell that is missing, a float, or numeric text. */
  function ToFloat(c: Cell, parse: Parser): (f: Cell)
    requires !NonNumeric(c, parse)
    ensures f.NA? <==> c.NA?
    ensures !f.Str?
    ensures c.Num? ==> f == c
    ensures c.Str? ==> f == Num(parse(c.text).value)
  {
    match c
    case NA => NA
    case Num(_) => c
    case Str(t) => Num(parse(t).value)
  }

  /** `c < 0` after the cast (false for a missing value). */
  predicate Negative(c: Cell) {
    c.Num? && c.x < 0.0
  }

  /** What the column holds after cleaning: missing, or a float that is not negative. */
  predicate CleanCell(c: Cell) {
    c.NA? || (c.Num? && c.x >= 0.0)
  }

  /** Column access and update for a row type: reading back what was written, and writing what was read, change nothing. */
  ghost predicate Lens<T(!new)>(get: T -> Cell, put: (T, Cell) -> T) {
    && (forall x: T, c: Cell :: get(put(x, c)) == c)
    && (forall x: T :: put(x, get(x)) == x)
  }

  /** The cleaned table and the two reports (the rows the pipeline prints and drops). */
  datatype Cleaned<T> = Cleaned(kept: seq<T>, nonNumeric: seq<T>, negatives: seq<T>)

  /** `astype({col: "float64"})` over the rows left after dropping the non-numeric ones. */
  function CastColumn<T>(rows: seq<T>, get: T -> Cell, put: (T, Cell) -> T, parse: Parser): (r: seq<T>)
    requires forall x :: x in rows ==> !NonNumeric(get(x), parse)
    ensures |r| == |rows|
    ensures forall i :: 0 <= i < |r| ==> r[i] == put(rows[i], ToFloat(get(rows[i]), parse))
  {
    seq(|rows|, i requires 0 <= i < |rows| => put(rows[i], ToFloat(get(rows[i]), parse)))
  }

  /** The rows the column's cleaning keeps at each step, as masks. */
  function IsNumericRow<T>(get: T -> Cell, parse: Parser): T -> bool {
    x => !NonNumeric(get(x), parse)
  }

  function IsNonNumericRow<T>(get: T -> Cell, parse: Parser): T -> bool {
    x => NonNumeric(get(x), parse)
  }

  function IsNegativeRow<T>(get: T -> Cell): T -> bool {
    x => Negative(get(x))
  }

  function IsNotNegativeRow<T>(get: T -> Cell): T -> bool {
    x => !Negative(get(x))
  }

  /** One column's cleaning: drop non-numeric, cast, drop negatives. */
  function CleanColumn<T>(rows: seq<T>, get: T -> Cell, put: (T, Cell) -> T, parse: Parser): Cleaned<T> {
    var numeric := Filter(rows, IsNumericRow(get, parse));
    var cast := CastColumn(numeric, get, put, parse);
    Cleaned(Filter(cast, IsNotNegativeRow(get)), Filter(rows, IsNonNumericRow(get, parse)), Filter(cast, IsNegativeRow(get)))
  }

  /** After cleaning every value is missing or a non-negative float. */
  lemma {:induction false} CleanColumnValues<T(!new)>(rows: seq<T>, get: T -> Cell, put: (T, Cell) -> T, parse: Parser)
    requires Lens(get, put)
    ensures forall x :: x in CleanColumn(rows, get, put, parse).kept ==> CleanCell(get(x))
  {
    var numeric := Filter(rows, IsNumericRow(get, parse));
    var cast := CastColumn(numeric, get, put, parse);
    forall x | x in Filter(cast, IsNotNegativeRow(get)) ensures CleanCell(get(x)) {
      var i :| 0 <= i < |cast| && cast[i] == x;
      assert get(x) == ToFloat(get(numeric[i]), parse);
    }
  }

  /**
   * The printed reports are exactly the removed rows. The non-numeric report
   * is the input rows whose value is present but not numeric; the numeric rest,
   * once cast, splits into the kept rows (missing or not negative) and the
   * negatives report (below 0), as multisets, so nothing is lost or invented.
   */
  lemma {:induction false} CleanColumnReports<T>(rows: seq<T>, get: T -> Cell, put: (T, Cell) -> T, parse: Parser)
    ensures |CleanColumn(rows, get, put, parse).kept| + |CleanColumn(rows, get, put, parse).nonNumeric|
            + |CleanColumn(rows, get, put, parse).negatives| == |rows|
    ensures forall x :: x in CleanColumn(rows, get, put, parse).nonNumeric <==>
              x in rows && get(x).Str? && parse(get(x).text).None?
    ensures multiset(Filter(rows, IsNumericRow(get, parse))) + multiset(CleanColumn(rows, get, put, parse).nonNumeric)
            == multiset(rows)
    ensures var cast := CastColumn(Filter(rows, IsNumericRow(get, parse)), get, put, parse);
            && (forall x :: x in CleanColumn(rows, get, put, parse).negatives <==> x in cast && Negative(get(x)))
            && (forall x :: x in CleanColumn(rows, get, put, parse).kept <==> x in cast && !Negative(get(x)))
            && multiset(CleanColumn(rows, get, put, parse).kept) + multiset(CleanColumn(rows, get, put, parse).negatives)
               == multiset(cast)
  {
    var numeric := Filter(rows, IsNumericRow(get, parse));
    var cast := CastColumn(numeric, get, put, parse);
    FilterPartition(rows, IsNumericRow(get, parse), IsNonNumericRow(get, parse));
    FilterPartition(cast, IsNotNegativeRow(get), IsNegativeRow(get));
  }

  /**
   * A row whose value is already clean (missing, or a float that is not
   * negative) is kept unchanged, and a float below 0 is reported as it was.
   */
  lemma {:induction false} CleanColumnKeepsClean<T(!new)>(rows: seq<T>, get: T -> Cell, put: (T, Cell) -> T, parse: Parser, x: T)
    requires Lens(get, put)
    requires x in rows && !get(x).Str?
    ensures CleanCell(get(x)) ==> x in CleanColumn(rows, get, put, parse).kept
    ensures Negative(get(x)) ==> x in CleanColumn(rows, get, put, parse).negatives
  {
    var numeric := Filter(rows, IsNumericRow(get, parse));
    var cast := CastColumn(numeric, get, put, parse);
    var i :| 0 <= i < |numeric| && numeric[i] == x;
    assert cast[i] == put(x, get(x)) == x;
  }

  /** What cleaning makes of one value: its float, or nothing when the row is dropped. */
  function CleanValue(c: Cell, parse: Parser): (v: Option<Cell>)
    ensures v.Some? ==> CleanCell(v.value)
  {
    if NonNumeric(c, parse) then None
    else if Negative(ToFloat(c, parse)) then None
    else Some(ToFloat(c, parse))
  }

  /** What cleaning makes of one row: the row with its value cast, or nothing when it is dropped. */
  function CleanRow<T>(x: T, get: T -> Cell, put: (T, Cell) -> T, parse: Parser): Option<T> {
    match CleanValue(get(x), parse)
    case None => None
    case Some(v) => Some(put(x, v))
  }

  /**
   * Cleaning a column decides row by row: the table kept is, in order, each
   * input row whose value is missing or parses to a number at least 0, with
   * that value cast.
   */
  lemma {:induction false} CleanColumnRowwise<T(!new)>(rows: seq<T>, get: T -> Cell, put: (T, Cell) -> T, parse: Parser)
    requires Lens(get, put)
    ensures CleanColumn(rows, get, put, parse).kept == FilterMap(rows, x => CleanRow(x, get, put, parse))
  {
    if rows != [] {
      CleanColumnRowwise(rows[1..], get, put, parse);
      CleanColumnCons(rows, get, put, parse);
    }
  }

  /** The kept rows of a table are the head's outcome followed by the kept rows of the rest. */
  lemma {:induction false} CleanColumnCons<T(!new)>(rows: seq<T>, get: T -> Cell, put: (T, Cell) -> T, parse: Parser)
    requires Lens(get, put) && rows != []
    ensures var r := CleanRow(rows[0], get, put, parse);
            CleanColumn(rows, get, put, parse).kept
            == (if r.Some? then [r.value] else []) + CleanColumn(rows[1..], get, put, parse).kept
  {
    var r := rows[0];
    var rest := rows[1..];
    var isNum := IsNumericRow(get, parse);
    var head := if isNum(r) then [r] else [];
    assert Filter(rows, isNum) == head + Filter(rest, isNum);
    var castHead := CastColumn(head, get, put, parse);
    var castRest := CastColumn(Filter(rest, isNum), get, put, parse);
    CastColumnAppend(head, Filter(rest, isNum), get, put, parse);
    FilterAppend(castHead, castRest, IsNotNegativeRow(get));
    if isNum(r) {
      assert castHead == [put(r, ToFloat(get(r), parse))];
      assert get(put(r, ToFloat(get(r), parse))) == ToFloat(get(r), parse);
    }
  }

  lemma CastColumnAppend<T>(a: seq<T>, b: seq<T>, get: T -> Cell, put: (T, Cell) -> T, parse: Parser)
    requires forall x :: x in a + b ==> !NonNumeric(get(x), parse)
    ensures CastColumn(a + b, get, put, parse) == CastColumn(a, get, put, parse) + CastColumn(b, get, put, parse)
  {
    assert forall x :: x in a ==> x in a + b;
    assert forall x :: x in b ==> x in a + b;
  }

  /** Cleaning a cleaned column removes nothing and reports nothing. */
  lemma {:induction false} CleanColumnIdempotent<T(!new)>(rows: seq<T>, get: T -> Cell, put: (T, Cell) -> T, parse: Parser)
    requires Lens(get, put)
    ensures var once := CleanColumn(rows, get, put, parse).kept;
            CleanColumn(once, get, put, parse) == Cleaned(once, [], [])
  {
    var once := CleanColumn(rows, get, put, parse).kept;
    CleanColumnValues(rows, get, put, parse);
    FilterAll(once, IsNumericRow(get, parse));
    FilterNone(once, IsNonNumericRow(get, parse));
    var cast := CastColumn(once, get, put, parse);
    assert cast == once by {
      forall i | 0 <= i < |once| ensures cast[i] == once[i] {
        assert once[i] in once;
        assert ToFloat(get(once[i]), parse) == get(once[i]);
      }
    }
    FilterAll(once, IsNotNegativeRow(get));
    FilterNone(once, IsNegativeRow(get));
  }

  /** A row property that the column update cannot change survives cleaning. */
  lemma {:induction false} CleanColumnPreserves<T(!new)>(rows: seq<T>, get: T -> Cell, put: (T, Cell) -> T,
                                                        parse: Parser, q: T -> bool)
    requires forall x: T, c: Cell :: q(put(x, c)) == q(x)
    requires forall x :: x in rows ==> q(x)
    ensures forall x :: x in CleanColumn(rows, get, put, parse).kept ==> q(x)
  {
    var numeric := Filter(rows, IsNumericRow(get, parse));
    var cast := CastColumn(numeric, get, put, parse);
    forall x | x in Filter(cast, IsNotNegativeRow(get)) ensures q(x) {
      var i :| 0 <= i < |cast| && cast[i] == x;
      assert numeric[i] in numeric;
    }
  }

  /** Cleaning drops rows and rewrites the value column only, so a key that ignores the value stays unique. */
  lemma {:induction false} CleanColumnKeepsUnique<T(!new), K>(rows: seq<T>, get: T -> Cell, put: (T, Cell) -> T,
                                                             parse: Parser, key: T -> K)
    requires forall x: T, c: Cell :: key(put(x, c)) == key(x)
    requires UniqueKeys(rows, key)
    ensures UniqueKeys(CleanColumn(rows, get, put, parse).kept, key)
  {
    var numeric := Filter(rows, IsNumericRow(get, parse));
    FilterKeepsUnique(rows, IsNumericRow(get, parse), key);
    var cast := CastColumn(numeric, get, put, parse);
    assert UniqueKeys(cast, key) by {
      forall i, j | 0 <= i < j < |cast| ensures key(cast[i]) != key(cast[j]) {
        assert key(cast[i]) == key(numeric[i]) && key(cast[j]) == key(numeric[j]);
      }
    }
    FilterKeepsUnique(cast, IsNotNegativeRow(get), key);
  }
}
