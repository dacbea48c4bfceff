/**
 * The long table behind the district map (pages/__init__.py): the district
 * sheet melted to one row per (district row, indicator), left-merged with the
 * district join keys on (State, District name), then cleaned.
 */
module DistrictValues {
  import opened Frames
  import opened GeoNames
  import opened Cleaning

  /** One melted cell: the sheet's key columns, the indicator column name and its value. */
  datatype MeltRow = MeltRow(state: Option<string>, district: Option<string>, round: Option<string>,
                             year: Option<string>, variable: string, value: Cell)

  /** A melted cell with the join key of its district (missing when the merge found none). */
  datatype MapRow = MapRow(state: Option<string>, district: Option<string>, round: Option<string>,
                           year: Option<string>, variable: string, value: Cell, geoKey: Option<string>)

  /** The melted cells of indicator column `j`, one per sheet row. */
  function MeltColumn(rows: seq<SurveyRow>, kpi: string, j: nat): (m: seq<MeltRow>)
    requires forall r :: r in rows ==> j < |r.values|
    ensures |m| == |rows|
    ensures forall i :: 0 <= i < |rows| ==>
              m[i] == MeltRow(rows[i].state, rows[i].district, rows[i].round, rows[i].year, kpi, rows[i].values[j])
  {
    seq(|rows|, i requires 0 <= i < |rows| =>
      MeltRow(rows[i].state, rows[i].district, rows[i].round, rows[i].year, kpi, rows[i].values[j]))
  }

  /**
   * `melt(id_vars=["State", "District name", "Round", "year"])`: column by
   * column, and within a column row by row.
   */
  function Melt(rows: seq<SurveyRow>, kpis: seq<string>): seq<MeltRow>
    requires forall r :: r in rows ==> |kpis| <= |r.values|
  {
    if kpis == [] then []
    else
      var n := |kpis| - 1;
      Melt(rows, kpis[..n]) + MeltColumn(rows, kpis[n], n)
  }

  /** The melted table holds every cell once: cell (i, j) of the sheet is row `j * |rows| + i`. */
  lemma {:induction false} MeltAt(rows: seq<SurveyRow>, kpis: seq<string>, i: nat, j: nat)
    requires forall r :: r in rows ==> |kpis| <= |r.values|
    requires i < |rows| && j < |kpis|
    ensures |Melt(rows, kpis)| == |kpis| * |rows|
    ensures j * |rows| + i < |Melt(rows, kpis)|
    ensures Melt(rows, kpis)[j * |rows| + i] ==
              MeltRow(rows[i].state, rows[i].district, rows[i].round, rows[i].year, kpis[j], rows[i].values[j])
    decreases |kpis|
  {
    var n := |kpis| - 1;
    MeltLength(rows, kpis[..n]);
    assert |Melt(rows, kpis[..n])| == n * |rows|;
    if j < n {
      MeltAt(rows, kpis[..n], i, j);
      assert (j + 1) * |rows| <= n * |rows| by { MulMono(j + 1, n, |rows|); }
    } else {
      assert j * |rows| + i - n * |rows| == i;
    }
    assert |kpis| * |rows| == n * |rows| + |rows|;
  }

  lemma {:induction false} MeltLength(rows: seq<SurveyRow>, kpis: seq<string>)
    requires forall r :: r in rows ==> |kpis| <= |r.values|
    ensures |Melt(rows, kpis)| == |kpis| * |rows|
    decreases |kpis|
  {
    if kpis != [] {
      var n := |kpis| - 1;
      MeltLength(rows, kpis[..n]);
      assert |kpis| * |rows| == n * |rows| + |rows|;
    }
  }

  lemma MulMono(a: nat, b: nat, c: nat)
    requires a <= b
    ensures a * c <= b * c
  {}

  /** The right-hand rows whose (State, District name) equals the given key. */
  function Matches(right: seq<GeoJoin>, state: Option<string>, district: Option<string>): seq<GeoJoin> {
    Filter(right, (g: GeoJoin) => Some(g.state) == state && Some(g.district) == district)
  }

  /** The merged rows of one left row: one per match, or one with a missing key when there is none. */
  function MergeRow(l: MeltRow, right: seq<GeoJoin>): seq<MapRow> {
    var ms := Matches(right, l.state, l.district);
    if ms == [] then [MapRow(l.state, l.district, l.round, l.year, l.variable, l.value, None)]
    else seq(|ms|, k requires 0 <= k < |ms| =>
           MapRow(l.state, l.district, l.round, l.year, l.variable, l.value, Some(ms[k].geoKey)))
  }

  /** `left.merge(right, on=["State", "District name"], how="left", sort=False)`. */
  function LeftMerge(left: seq<MeltRow>, right: seq<GeoJoin>): seq<MapRow> {
    if left == [] then [] else MergeRow(left[0], right) + LeftMerge(left[1..], right)
  }

  /** The join key the merge attaches to a left row whose key occurs at most once on the right. */
  function KeyFor(right: seq<GeoJoin>, state: Option<string>, district: Option<string>): (k: Option<string>)
    ensures k.Some? <==> exists g :: g in right && Some(g.state) == state && Some(g.district) == district
  {
    var ms := Matches(right, state, district);
    if ms == [] then None
    else
      assert ms[0] in ms;
      Some(ms[0].geoKey)
  }

  /** With (State, District name) unique on the right, at most one right row matches a key. */
  lemma {:induction false} MatchesAtMostOne(right: seq<GeoJoin>, state: Option<string>, district: Option<string>)
    requires UniqueKeys(right, JoinPairKey)
    ensures |Matches(right, state, district)| <= 1
  {
    if right != [] {
      var tail := right[1..];
      assert UniqueKeys(tail, JoinPairKey) by {
        forall i, j | 0 <= i < j < |tail| ensures JoinPairKey(tail[i]) != JoinPairKey(tail[j]) {
          assert tail[i] == right[i + 1] && tail[j] == right[j + 1];
        }
      }
      MatchesAtMostOne(tail, state, district);
      var g := right[0];
      if Some(g.state) == state && Some(g.district) == district {
        forall h | h in tail ensures !(Some(h.state) == state && Some(h.district) == district) {
          var k :| 0 <= k < |tail| && tail[k] == h;
          assert JoinPairKey(right[0]) != JoinPairKey(right[k + 1]);
        }
        FilterNone(tail, (g: GeoJoin) => Some(g.state) == state && Some(g.district) == district);
      }
    }
  }

  /**
   * Because (State, District name) is a key of the district table, the left
   * merge keeps every melted row exactly once and in order, adding the join
   * key of its district when there is one.
   */
  lemma {:induction false} LeftMergeKeepsRows(left: seq<MeltRow>, right: seq<GeoJoin>)
    requires UniqueKeys(right, JoinPairKey)
    ensures |LeftMerge(left, right)| == |left|
    ensures forall i :: 0 <= i < |left| ==>
              LeftMerge(left, right)[i] == MapRow(left[i].state, left[i].district, left[i].round, left[i].year,
                                                  left[i].variable, left[i].value, KeyFor(right, left[i].state, left[i].district))
  {
    if left != [] {
      LeftMergeKeepsRows(left[1..], right);
      MergeRowSingle(left[0], right);
      var m := LeftMerge(left, right);
      var rest := LeftMerge(left[1..], right);
      assert m == MergeRow(left[0], right) + rest;
      forall i | 0 < i < |left|
        ensures m[i] == MapRow(left[i].state, left[i].district, left[i].round, left[i].year,
                               left[i].variable, left[i].value, KeyFor(right, left[i].state, left[i].district))
      {
        assert m[i] == rest[i - 1];
        assert left[1..][i - 1] == left[i];
      }
    }
  }

  /** With the right key unique, one left row merges into exactly one row carrying its join key. */
  lemma MergeRowSingle(l: MeltRow, right: seq<GeoJoin>)
    requires UniqueKeys(right, JoinPairKey)
    ensures MergeRow(l, right) == [MapRow(l.state, l.district, l.round, l.year, l.variable, l.value, KeyFor(right, l.state, l.district))]
  {
    MatchesAtMostOne(right, l.state, l.district);
  }

  /** The value column of a merged row, as a column accessor and updater. */
  function ValueOf(r: MapRow): Cell {
    r.value
  }

  function WithValue(r: MapRow, c: Cell): MapRow {
    r.(value := c)
  }

  lemma ValueLens()
    ensures Lens(ValueOf, WithValue)
  {}

  /** `district_map_df`: melt, merge with the join keys, clean the value column. */
  function DistrictMap(rows: seq<SurveyRow>, kpis: seq<string>, right: seq<GeoJoin>, parse: Parser): Cleaned<MapRow>
    requires forall r :: r in rows ==> |kpis| <= |r.values|
  {
    CleanColumn(LeftMerge(Melt(rows, kpis), right), ValueOf, WithValue, parse)
  }

  /**
   * The district map table: every value is missing or a non-negative float;
   * the non-numeric report is exactly the present non-numeric values; the
   * numeric rest, cast, splits as a multiset into the table (values not below
   * 0) and the negatives report (values below 0); a row whose value is already
   * missing or a float is kept or reported as it was; and cleaning the table
   * again changes nothing.
   */
  lemma DistrictMapClean(rows: seq<SurveyRow>, kpis: seq<string>, right: seq<GeoJoin>, parse: Parser)
    requires forall r :: r in rows ==> |kpis| <= |r.values|
    ensures var c := DistrictMap(rows, kpis, right, parse);
            var merged := LeftMerge(Melt(rows, kpis), right);
            var cast := CastColumn(Filter(merged, IsNumericRow(ValueOf, parse)), ValueOf, WithValue, parse);
            && (forall x :: x in c.kept ==> CleanCell(x.value))
            && |c.kept| + |c.nonNumeric| + |c.negatives| == |merged|
            && (forall x :: x in c.nonNumeric <==> x in merged && x.value.Str? && parse(x.value.text).None?)
            && (forall x :: x in c.negatives <==> x in cast && Negative(x.value))
            && (forall x :: x in c.kept <==> x in cast && !Negative(x.value))
            && multiset(c.kept) + multiset(c.negatives) == multiset(cast)
            && (forall x :: x in merged && (x.value.NA? || (x.value.Num? && x.value.x >= 0.0)) ==> x in c.kept)
            && (forall x :: x in merged && x.value.Num? && x.value.x < 0.0 ==> x in c.negatives)
            && CleanColumn(c.kept, ValueOf, WithValue, parse) == Cleaned(c.kept, [], [])
  {
    var merged := LeftMerge(Melt(rows, kpis), right);
    ValueLens();
    CleanColumnValues(merged, ValueOf, WithValue, parse);
    CleanColumnReports(merged, ValueOf, WithValue, parse);
    CleanColumnIdempotent(merged, ValueOf, WithValue, parse);
    forall x | x in merged && !x.value.Str?
      ensures CleanCell(x.value) ==> x in DistrictMap(rows, kpis, right, parse).kept
      ensures Negative(x.value) ==> x in DistrictMap(rows, kpis, right, parse).negatives
    {
      CleanColumnKeepsClean(merged, ValueOf, WithValue, parse, x);
    }
  }
}
