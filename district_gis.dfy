/**
 * The district map page (pages/district_gis.py), for one place and one
 * indicator: the two rounds' rows of the map, the districts of the state that
 * report nothing (appended and filled with -1), the colour scale, the change
 * table with its Growth and Status columns, and the two cards with the
 * state-level totals. The choropleth figures, the colour range and the table
 * formatting are not modelled.
 *
 * Floats are modelled by `Float`: exact reals, the two infinities and NaN.
 */
module DistrictGis {
  import opened Frames
  import opened Text
  import opened Sorting
  import opened GeoNames
  import opened DistrictValues
  import opened StateTables

  // ---------------------------------------------------------------- scale, growth and status

  /** The one indicator measured in rupees rather than as a percentage. */
  const OutOfPocket: string := "Average out-of-pocket expenditure per delivery in a public health facility (Rs.)"

  /** `pcnt_scale`: rupee amounts are kept as they are, every other indicator is a percentage. */
  function PcntScale(kpi: string): (s: real)
    ensures s == 1.0 <==> kpi == OutOfPocket
    ensures s == 100.0 <==> kpi != OutOfPocket
  {
    if kpi != OutOfPocket then 100.0 else 1.0
  }

  /** A float64: a finite value, an infinity, or NaN. */
  datatype Float = Finite(x: real) | Inf(positive: bool) | NaN

  const Rising: string := "📈"
  const Falling: string := "📉"
  const Worse: string := "❌"
  const Better: string := "✔️"

  /** The Growth column: rising exactly when the change compares above zero (NaN never does). */
  function Growth(change: Float): (g: string)
    ensures g == Rising <==> (change.Finite? && change.x > 0.0) || (change.Inf? && change.positive)
    ensures g == Rising || g == Falling
  {
    if (change.Finite? && change.x > 0.0) || (change.Inf? && change.positive) then Rising else Falling
  }

  /** The Status column: a rise is bad for an indicator where higher is worse, a fall for every other one. */
  function Status(g: string, inverse: bool): (st: string)
    ensures st == Worse <==> (g == Rising && inverse) || (g == Falling && !inverse)
    ensures st == Worse || st == Better
  {
    if (g == Rising && inverse) || (g == Falling && !inverse) then Worse else Better
  }

  /** Inverting an indicator flips the status of every change. */
  lemma StatusFlips(change: Float)
    ensures Status(Growth(change), true) != Status(Growth(change), false)
    ensures Status(Growth(change), true) == Worse <==> Growth(change) == Rising
  {
  }

  // ---------------------------------------------------------------- float arithmetic

  /** `value / pcnt_scale`; a district missing from the round aligns to NaN. */
  function Scaled(v: Option<real>, kpi: string): (f: Float)
    ensures v.Some? ==> f == Finite(v.value / PcntScale(kpi))
    ensures v.None? ==> f == NaN
  {
    if v.None? then NaN
    else if kpi == OutOfPocket then Finite(v.value)
    else Finite(v.value / 100.0)
  }

  function AsFloat(v: Option<real>): Float {
    if v.None? then NaN else Finite(v.value)
  }

  /** IEEE subtraction. */
  function Minus(a: Float, b: Float): Float {
    match (a, b)
    case (Finite(x), Finite(y)) => Finite(x - y)
    case (Inf(_), Finite(_)) => a
    case (Finite(_), Inf(q)) => Inf(!q)
    case (Inf(p), Inf(q)) => if p != q then a else NaN
    case _ => NaN
  }

  /** IEEE division, by a non-negative zero where the divisor is zero. */
  function Over(a: Float, b: Float): Float {
    match (a, b)
    case (Finite(x), Finite(y)) =>
      if y != 0.0 then Finite(x / y)
      else if x > 0.0 then Inf(true)
      else if x < 0.0 then Inf(false)
      else NaN
    case (Inf(p), Finite(y)) => Inf(p == (y >= 0.0))
    case (Finite(_), Inf(_)) => Finite(0.0)
    case _ => NaN
  }

  /** `* pcnt_scale`: IEEE multiplication by the scale. */
  function Rescaled(a: Float, kpi: string): (f: Float)
    ensures a.Finite? ==> f == Finite(a.x * PcntScale(kpi))
    ensures !a.Finite? ==> f == a
  {
    match a
    case Finite(x) => if kpi == OutOfPocket then a else Finite(x * 100.0)
    case _ => a
  }

  // ---------------------------------------------------------------- change table

  /** One round's values by district name (`set_index("District name").value`); None is NaN. */
  type Series = seq<(string, Option<real>)>

  /** No district name occurs twice. */
  predicate DistinctNames(s: Series) {
    forall i, j :: 0 <= i < j < |s| ==> s[i].0 != s[j].0
  }

  /** The value under a name; a name the series lacks aligns to NaN. */
  function ValueAt(s: Series, n: string): (v: Option<real>)
    ensures (forall i :: 0 <= i < |s| ==> s[i].0 != n) ==> v.None?
    ensures forall i :: 0 <= i < |s| && s[i].0 == n && DistinctNames(s) ==> v == s[i].1
  {
    if s == [] then None
    else if s[0].0 == n then s[0].1
    else
      assert forall i :: 1 <= i < |s| ==> s[i] == s[1..][i - 1];
      ValueAt(s[1..], n)
  }

  /**
   * The index two series are aligned on: kept when both are equal or one is
   * empty, else the sorted union.
   */
  function Aligned(a: seq<string>, b: seq<string>): (u: seq<string>)
    ensures forall n :: n in u <==> n in a || n in b
    ensures a == b || b == [] ==> u == a
    ensures a == [] ==> u == b
    ensures a != b && a != [] && b != [] ==> SortedBy(u, LexLe) && forall i, j :: 0 <= i < j < |u| ==> u[i] != u[j]
  {
    if a == b || b == [] then a
    else if a == [] then b
    else
      var w := Unique(a + b);
      UniqueSpec(a + b);
      var u := SortLex(w);
      assert forall n :: n in u <==> n in w by {
        forall n ensures n in u <==> n in w {
          assert n in u <==> n in multiset(u);
        }
      }
      DistinctPermutation(w, u);
      u
  }

  /** A row of the change table. */
  datatype TableRow = TableRow(district: string, absChange: Float, relChange: Float, growth: string, status: string)

  /** The changes of one district, from NFHS-4 (`earlier`) to NFHS-5 (`later`). */
  function ChangeRow(n: string, earlier: Series, later: Series, kpi: string, inverse: bool): TableRow {
    var change := Minus(Scaled(ValueAt(later, n), kpi), Scaled(ValueAt(earlier, n), kpi));
    var rel := Rescaled(Over(change, AsFloat(ValueAt(earlier, n))), kpi);
    var g := Growth(change);
    TableRow(n, change, rel, g, Status(g, inverse))
  }

  /** `dropna(subset=["Abs. Change", "Rel. Change"])`. */
  predicate Complete(r: TableRow) {
    !r.absChange.NaN? && !r.relChange.NaN?
  }

  /**
   * `table_df`: one row per aligned district, incomplete rows dropped. The
   * relative change is aligned once more with the NFHS-4 index; that union has
   * the same names in the same order, so its rows are taken positionally.
   */
  function ChangeTable(earlier: Series, later: Series, kpi: string, inverse: bool): seq<TableRow> {
    Filter(ChangeRows(earlier, later, kpi, inverse), Complete)
  }

  /** The rows before `dropna`, one per aligned district. */
  function ChangeRows(earlier: Series, later: Series, kpi: string, inverse: bool): (rows: seq<TableRow>)
    ensures var names := Aligned(Firsts(later), Firsts(earlier));
            |rows| == |names| && forall k :: 0 <= k < |names| ==> rows[k] == ChangeRow(names[k], earlier, later, kpi, inverse)
  {
    var names := Aligned(Firsts(later), Firsts(earlier));
    seq(|names|, i requires 0 <= i < |names| => ChangeRow(names[i], earlier, later, kpi, inverse))
  }

  /** The row of a district present in both rounds: what it keeps and what it says. */
  lemma ChangeRowOfPresent(n: string, earlier: Series, later: Series, kpi: string, inverse: bool, a4: real, a5: real)
    requires ValueAt(earlier, n) == Some(a4) && ValueAt(later, n) == Some(a5)
    ensures var r := ChangeRow(n, earlier, later, kpi, inverse);
            && r.absChange.Finite? && (r.absChange.x > 0.0 <==> a5 > a4) && (r.absChange.x == 0.0 <==> a5 == a4)
            && (Complete(r) <==> !(a4 == 0.0 && a5 == 0.0))
            && (r.growth == Rising <==> a5 > a4)
            && (r.status == Worse <==> (a5 > a4) == inverse)
  {
  }

  /** The relative change of a district whose NFHS-4 value is not zero is the change over that value, whatever the scale. */
  lemma RelativeChange(n: string, earlier: Series, later: Series, kpi: string, inverse: bool, a4: real, a5: real)
    requires ValueAt(earlier, n) == Some(a4) && ValueAt(later, n) == Some(a5) && a4 != 0.0
    ensures ChangeRow(n, earlier, later, kpi, inverse).relChange == Finite((a5 - a4) / a4)
  {
    if kpi != OutOfPocket {
      assert a5 / 100.0 - a4 / 100.0 == (a5 - a4) / 100.0;
      PercentRatio(a5 - a4, a4);
    }
  }

  /** Dividing a change in percentage points by a value in percent and scaling back gives the plain ratio. */
  lemma PercentRatio(d: real, a: real)
    requires a != 0.0
    ensures (d / 100.0) / a * 100.0 == d / a
  {
    var q := d / a;
    assert q * a == d;
    assert (q / 100.0) * a == d / 100.0;
  }

  /** A district with a value in both rounds keeps its row unless both are zero. */
  lemma ChangeRowKept(n: string, earlier: Series, later: Series, kpi: string, inverse: bool, a4: real, a5: real)
    requires ValueAt(earlier, n) == Some(a4) && ValueAt(later, n) == Some(a5)
    ensures Complete(ChangeRow(n, earlier, later, kpi, inverse)) <==> !(a4 == 0.0 && a5 == 0.0)
  {
    ChangeRowOfPresent(n, earlier, later, kpi, inverse, a4, a5);
  }

  /** A district missing from a round, or without a value there, has no row. */
  lemma ChangeRowOfMissing(n: string, earlier: Series, later: Series, kpi: string, inverse: bool)
    ensures Complete(ChangeRow(n, earlier, later, kpi, inverse)) ==> ValueAt(earlier, n).Some? && ValueAt(later, n).Some?
  {
  }

  /** What a kept row says: both rounds hold a value, not both zero, and Growth and Status follow their order. */
  predicate RowSays(r: TableRow, earlier: Series, later: Series, inverse: bool) {
    exists i, j :: 0 <= i < |earlier| && 0 <= j < |later| && earlier[i].0 == r.district && later[j].0 == r.district
      && earlier[i].1.Some? && later[j].1.Some? && !(earlier[i].1.value == 0.0 && later[j].1.value == 0.0)
      && (r.growth == Rising <==> later[j].1.value > earlier[i].1.value)
      && (r.status == Worse <==> (later[j].1.value > earlier[i].1.value) == inverse)
  }

  lemma ChangeRowSound(n: string, earlier: Series, later: Series, kpi: string, inverse: bool)
    requires DistinctNames(earlier) && DistinctNames(later)
    requires Complete(ChangeRow(n, earlier, later, kpi, inverse))
    ensures RowSays(ChangeRow(n, earlier, later, kpi, inverse), earlier, later, inverse)
  {
    ChangeRowOfMissing(n, earlier, later, kpi, inverse);
    var i :| 0 <= i < |earlier| && earlier[i].0 == n;
    var j :| 0 <= j < |later| && later[j].0 == n;
    ChangeRowOfPresent(n, earlier, later, kpi, inverse, ValueAt(earlier, n).value, ValueAt(later, n).value);
  }

  /** Each row of the table is a district with a value in both rounds, not both zero, and its Growth and Status follow the change. */
  lemma ChangeTableSound(earlier: Series, later: Series, kpi: string, inverse: bool)
    requires DistinctNames(earlier) && DistinctNames(later)
    ensures forall r :: r in ChangeTable(earlier, later, kpi, inverse) ==> RowSays(r, earlier, later, inverse)
  {
    var names := Aligned(Firsts(later), Firsts(earlier));
    var rows := ChangeRows(earlier, later, kpi, inverse);
    forall r | r in ChangeTable(earlier, later, kpi, inverse) ensures RowSays(r, earlier, later, inverse) {
      var k :| 0 <= k < |rows| && rows[k] == r;
      ChangeRowSound(names[k], earlier, later, kpi, inverse);
    }
  }

  /** Every district with a value in both rounds, not both zero, has a row. */
  lemma ChangeTableComplete(earlier: Series, later: Series, kpi: string, inverse: bool, i: nat, j: nat)
    requires DistinctNames(earlier) && DistinctNames(later)
    requires i < |earlier| && j < |later| && earlier[i].0 == later[j].0
    requires earlier[i].1.Some? && later[j].1.Some? && !(earlier[i].1.value == 0.0 && later[j].1.value == 0.0)
    ensures exists r :: r in ChangeTable(earlier, later, kpi, inverse) && r.district == earlier[i].0
  {
    var names := Aligned(Firsts(later), Firsts(earlier));
    var rows := ChangeRows(earlier, later, kpi, inverse);
    var n := earlier[i].0;
    assert Firsts(earlier)[i] == n;
    assert n in names;
    var k :| 0 <= k < |names| && names[k] == n;
    assert ValueAt(earlier, n) == earlier[i].1;
    assert ValueAt(later, n) == later[j].1;
    ChangeRowKept(n, earlier, later, kpi, inverse, earlier[i].1.value, later[j].1.value);
    var r := rows[k];
    assert r == ChangeRow(n, earlier, later, kpi, inverse);
    assert r in rows && Complete(r);
    assert r in ChangeTable(earlier, later, kpi, inverse);
  }

  /** A district at the same non-zero value in both rounds reads as falling, so it is bad for a regular indicator. */
  lemma UnchangedReadsAsFalling(n: string, earlier: Series, later: Series, kpi: string, a: real)
    requires a != 0.0 && ValueAt(earlier, n) == Some(a) && ValueAt(later, n) == Some(a)
    ensures Complete(ChangeRow(n, earlier, later, kpi, false))
    ensures ChangeRow(n, earlier, later, kpi, false).growth == Falling
    ensures ChangeRow(n, earlier, later, kpi, false).status == Worse
  {
    ChangeRowOfPresent(n, earlier, later, kpi, false, a, a);
  }

  // ---------------------------------------------------------------- districts not reported

  /** Some row of the round names this district. */
  predicate Shown(shown: seq<MapRow>, n: string) {
    exists r :: r in shown && r.district == Some(n)
  }

  function GeoDistricts(geo: seq<GeoJoin>): (ns: seq<string>)
    ensures |ns| == |geo| && forall i :: 0 <= i < |geo| ==> ns[i] == geo[i].district
  {
    seq(|geo|, i requires 0 <= i < |geo| => geo[i].district)
  }

  /** `np.setdiff1d`: the state's district names the round does not show, distinct and sorted. */
  function NotReported(geo: seq<GeoJoin>, shown: seq<MapRow>): (ns: seq<string>)
    ensures SortedBy(ns, LexLe)
    ensures forall i, j :: 0 <= i < j < |ns| ==> ns[i] != ns[j]
    ensures forall n :: n in ns <==> n in GeoDistricts(geo) && !Shown(shown, n)
  {
    var missing := Filter(GeoDistricts(geo), (n: string) => !Shown(shown, n));
    var w := Unique(missing);
    UniqueSpec(missing);
    var ns := SortLex(w);
    assert forall n :: n in ns <==> n in w by {
      forall n ensures n in ns <==> n in w {
        assert n in ns <==> n in multiset(ns);
      }
    }
    DistinctPermutation(w, ns);
    ns
  }

  /** `query("`District name` == @a_name").District_geo.values[0]`: the first row's key. */
  function FirstGeo(geo: seq<GeoJoin>, n: string): (k: string)
    requires n in GeoDistricts(geo)
    ensures exists i :: 0 <= i < |geo| && geo[i].district == n && k == geo[i].geoKey &&
              forall j :: 0 <= j < i ==> geo[j].district != n
  {
    if geo[0].district == n then geo[0].geoKey
    else
      assert n in GeoDistricts(geo[1..]) by {
        var i :| 0 <= i < |geo| && GeoDistricts(geo)[i] == n;
        assert GeoDistricts(geo[1..])[i - 1] == n;
      }
      var k := FirstGeo(geo[1..], n);
      assert forall i :: 1 <= i < |geo| ==> geo[i] == geo[1..][i - 1];
      k
  }

  // ---------------------------------------------------------------- map frames

  /**
   * A row of a map frame after `concat` and `fillna(-1)`: the columns of the
   * district table, and the extra `District_name` column the appended rows
   * bring in.
   */
  datatype DisplayRow = DisplayRow(state: Cell, district: Cell, round: Cell, year: Cell, variable: Cell,
                                   value: Cell, geoKey: Cell, districtName: Cell)

  function TextCell(o: Option<string>): Cell {
    if o.None? then NA else Str(o.value)
  }

  /** A row of the round, before the fill: no `District_name`. */
  function ShownRow(r: MapRow): DisplayRow {
    DisplayRow(TextCell(r.state), TextCell(r.district), TextCell(r.round), TextCell(r.year), Str(r.variable),
               r.value, TextCell(r.geoKey), NA)
  }

  /** An appended row, before the fill: only `District_geo` and `District_name`. */
  function AppendedRow(n: string, key: string): DisplayRow {
    DisplayRow(NA, NA, NA, NA, NA, NA, Str(key), Str(n))
  }

  /** The value `fillna(-1)` puts in every missing cell. */
  const Unreported: Cell := Num(-1.0)

  function Fill(c: Cell): (f: Cell)
    ensures !f.NA? && (c.NA? ==> f == Unreported) && (!c.NA? ==> f == c)
  {
    if c.NA? then Unreported else c
  }

  function FillRow(d: DisplayRow): (f: DisplayRow)
    ensures Filled(f)
  {
    DisplayRow(Fill(d.state), Fill(d.district), Fill(d.round), Fill(d.year), Fill(d.variable),
               Fill(d.value), Fill(d.geoKey), Fill(d.districtName))
  }

  /** Every cell of a row is present. */
  predicate Filled(d: DisplayRow) {
    !d.state.NA? && !d.district.NA? && !d.round.NA? && !d.year.NA? && !d.variable.NA?
    && !d.value.NA? && !d.geoKey.NA? && !d.districtName.NA?
  }

  /** One round's map frame: its rows, then one row per district not reported, missing cells at -1. */
  function MapFrame(shown: seq<MapRow>, geo: seq<GeoJoin>): (f: seq<DisplayRow>)
    ensures |f| == |shown| + |NotReported(geo, shown)|
    ensures forall i :: 0 <= i < |shown| ==> f[i] == FillRow(ShownRow(shown[i]))
    ensures forall k :: 0 <= k < |NotReported(geo, shown)| ==>
              f[|shown| + k] == FillRow(AppendedRow(NotReported(geo, shown)[k], FirstGeo(geo, NotReported(geo, shown)[k])))
  {
    var missing := NotReported(geo, shown);
    seq(|shown|, i requires 0 <= i < |shown| => FillRow(ShownRow(shown[i])))
      + seq(|missing|, k requires 0 <= k < |missing| => FillRow(AppendedRow(missing[k], FirstGeo(geo, missing[k]))))
  }

  /**
   * The map frame keeps the round's rows with missing cells at -1, then
   * appends the districts not reported in sorted order, each with its geo
   * key, its name in `District_name` and -1 in every other column (so also in
   * "District name"); no cell is left missing.
   */
  lemma MapFrameSpec(shown: seq<MapRow>, geo: seq<GeoJoin>)
    ensures var f := MapFrame(shown, geo);
            var missing := NotReported(geo, shown);
            && |f| == |shown| + |missing|
            && (forall d :: d in f ==> Filled(d))
            && (forall i :: 0 <= i < |shown| ==>
                  f[i].value == Fill(shown[i].value) && f[i].district == Fill(TextCell(shown[i].district))
                  && f[i].geoKey == Fill(TextCell(shown[i].geoKey)) && f[i].districtName == Unreported)
            && (forall k :: 0 <= k < |missing| ==>
                  f[|shown| + k].districtName == Str(missing[k]) && f[|shown| + k].geoKey == Str(FirstGeo(geo, missing[k]))
                  && f[|shown| + k].value == Unreported && f[|shown| + k].district == Unreported)
  {
    var f := MapFrame(shown, geo);
    forall d | d in f ensures Filled(d) {
      var i :| 0 <= i < |f| && f[i] == d;
      if i < |shown| {
        assert d == FillRow(ShownRow(shown[i]));
      } else {
        var k := i - |shown|;
        assert d == f[|shown| + k];
      }
    }
  }

  /** Every district of the state appears in the frame: by its row if the round shows it, else appended. */
  lemma MapFrameCovers(shown: seq<MapRow>, geo: seq<GeoJoin>, n: string)
    requires n in GeoDistricts(geo)
    ensures exists d :: d in MapFrame(shown, geo) && (d.district == Str(n) || d.districtName == Str(n))
  {
    var f := MapFrame(shown, geo);
    var missing := NotReported(geo, shown);
    if Shown(shown, n) {
      var r :| r in shown && r.district == Some(n);
      var i :| 0 <= i < |shown| && shown[i] == r;
      assert f[i].district == Str(n);
    } else {
      var k :| 0 <= k < |missing| && missing[k] == n;
      assert f[|shown| + k].districtName == Str(n);
    }
  }

  // ---------------------------------------------------------------- colour scale

  /** A stop of a continuous colour scale. */
  datatype Stop = Stop(at: real, colour: string)

  const Gray: string := "gray"

  const NanBlueYRed: seq<Stop> :=
    [Stop(0.0, Gray), Stop(0.001, Gray), Stop(0.001, "Navy"), Stop(0.5, "FloralWhite"), Stop(1.0, "DarkRed")]

  const NanRedYBlue: seq<Stop> :=
    [Stop(0.0, Gray), Stop(0.001, Gray), Stop(0.001, "DarkRed"), Stop(0.5, "FloralWhite"), Stop(1.0, "Navy")]

  /** `dyn_color_scale`: the bottom band is gray (unreported districts); high values are dark red where higher is worse, navy otherwise. */
  function ColourScale(kpi: string, inverse: set<string>): (scale: seq<Stop>)
    ensures |scale| == 5 && scale[0] == Stop(0.0, Gray) && scale[1] == Stop(0.001, Gray)
    ensures scale[2].at == 0.001 && scale[3] == Stop(0.5, "FloralWhite") && scale[4].at == 1.0
    ensures kpi in inverse <==> scale[4].colour == "DarkRed"
    ensures kpi in inverse <==> scale[2].colour == "Navy"
    ensures kpi !in inverse <==> scale[4].colour == "Navy"
  {
    if kpi in inverse then NanBlueYRed else NanRedYBlue
  }

  // ---------------------------------------------------------------- cards

  /** `bool(array)` of numpy: empty is false, one element is its own truth value, more raise. */
  function Truth(vals: seq<Cell>): (r: Result<bool>)
    ensures r.Err? <==> |vals| > 1
    ensures r == Ok(true) <==> |vals| == 1 && (vals[0].NA? || (vals[0].Num? && vals[0].x != 0.0) || (vals[0].Str? && vals[0].text != ""))
  {
    if |vals| > 1 then Err(ValueError)
    else if vals == [] then Ok(false)
    else
      match vals[0]
      case NA => Ok(true)
      case Num(x) => Ok(x != 0.0)
      case Str(t) => Ok(t != "")
  }

  /** What a card shows: a value or "N/A". */
  datatype Card = NotAvailable | Shows(v: Cell)

  /** `card[0] if card else "N/A"` for one card. */
  function CardOf(vals: seq<Cell>): (r: Result<Card>)
    ensures r.Err? <==> |vals| > 1
    ensures r.Ok? && r.value.Shows? ==> |vals| == 1 && r.value.v == vals[0]
    ensures vals == [] ==> r == Ok(NotAvailable)
    ensures |vals| == 1 ==> (r == Ok(NotAvailable) <==> Truth(vals) == Ok(false))
  {
    match Truth(vals)
    case Err(e) => Err(e)
    case Ok(t) => if t then Ok(Shows(vals[0])) else Ok(NotAvailable)
  }

  /**
   * Both cards as written: the NFHS-4 card is `CardOf` its own values, but the
   * NFHS-5 card tests the NFHS-4 values, so it shows `card5[0]` exactly when the
   * NFHS-4 value is true, and raises `IndexError` when that lookup is empty.
   */
  function CardsAsWritten(card4: seq<Cell>, card5: seq<Cell>): (r: Result<(Card, Card)>)
    ensures r.Err? <==> |card4| > 1 || (Truth(card4) == Ok(true) && card5 == [])
    ensures r.Ok? ==> r.value.0 == CardOf(card4).value
    ensures r.Ok? ==> (r.value.1.Shows? <==> Truth(card4) == Ok(true))
    ensures r.Ok? && r.value.1.Shows? ==> card5 != [] && r.value.1.v == card5[0]
  {
    match Truth(card4)
    case Err(e) => Err(e)
    case Ok(t) =>
      var first := if t then Shows(card4[0]) else NotAvailable;
      if !t then Ok((first, NotAvailable))
      else if card5 == [] then Err(IndexError)
      else Ok((first, Shows(card5[0])))
  }

  /** Each card guarded by its own values. */
  function Cards(card4: seq<Cell>, card5: seq<Cell>): (r: Result<(Card, Card)>)
    ensures r.Err? <==> |card4| > 1 || |card5| > 1
    ensures r.Ok? ==> r.value == (CardOf(card4).value, CardOf(card5).value)
  {
    match CardOf(card4)
    case Err(e) => Err(e)
    case Ok(c4) =>
      match CardOf(card5)
      case Err(e) => Err(e)
      case Ok(c5) => Ok((c4, c5))
  }

  /**
   * As written, an empty NFHS-4 lookup hides the NFHS-5 value, and a present
   * NFHS-4 value with an empty NFHS-5 lookup raises; guarded by their own
   * values, the cards show the NFHS-5 value and "N/A".
   */
  lemma CardGuardCounterexample()
    ensures CardsAsWritten([], [Num(50.0)]) == Ok((NotAvailable, NotAvailable))
    ensures Cards([], [Num(50.0)]) == Ok((NotAvailable, Shows(Num(50.0))))
    ensures CardsAsWritten([Num(1.0)], []) == Err(IndexError)
    ensures Cards([Num(1.0)], []) == Ok((Shows(Num(1.0)), NotAvailable))
  {
  }

  /** The NFHS-5 card depends on the NFHS-5 values only, never raises `IndexError`, and shows a value exactly when there is a true one. */
  lemma CardsSpec(card4: seq<Cell>, card5: seq<Cell>, other4: seq<Cell>)
    requires |card4| <= 1 && |card5| <= 1 && |other4| <= 1
    ensures Cards(card4, card5).Ok? && Cards(other4, card5).Ok?
    ensures Cards(card4, card5).value.1 == Cards(other4, card5).value.1
    ensures Cards(card4, card5).value.1.Shows? <==> Truth(card5) == Ok(true)
    ensures Cards(card4, card5).value.1.Shows? ==> Cards(card4, card5).value.1.v == card5[0]
  {
  }

  /** As written, the NFHS-5 card is "N/A" whenever the NFHS-4 lookup is empty, and raises when only NFHS-5 is empty. */
  lemma CardsAsWrittenSpec(card4: seq<Cell>, card5: seq<Cell>)
    ensures card4 == [] ==> CardsAsWritten(card4, card5) == Ok((NotAvailable, NotAvailable))
    ensures Truth(card4) == Ok(true) && card5 == [] ==> CardsAsWritten(card4, card5) == Err(IndexError)
  {
  }

  // ---------------------------------------------------------------- callback

  /** The rows of the district table for one state, indicator and round. */
  function RoundRows(mapRows: seq<MapRow>, place: string, kpi: string, round: string): (rows: seq<MapRow>)
    ensures forall r :: r in rows <==> r in mapRows && r.state == Some(place) && r.variable == kpi && r.round == Some(round)
  {
    Filter(mapRows, RoundMask(place, kpi, round))
  }

  /** `State == @india_or_state & variable == @distr_kpi & Round == ...`. */
  function RoundMask(place: string, kpi: string, round: string): MapRow -> bool {
    (r: MapRow) => r.state == Some(place) && r.variable == kpi && r.round == Some(round)
  }

  /** The key the district table holds once per row. */
  function MapKey(r: MapRow): (Option<string>, Option<string>, Option<string>, string) {
    (r.state, r.district, r.round, r.variable)
  }

  /** `Total` of the state table for one state, indicator and survey. */
  function CardValues(stateRows: seq<StateRow>, place: string, kpi: string, nfhs: string): seq<Cell> {
    var rows := Filter(stateRows, (r: StateRow) => r.state == Some(place) && r.indicator == Some(kpi) && r.nfhs == Some(nfhs));
    seq(|rows|, i requires 0 <= i < |rows| => rows[i].total)
  }

  /** The district table as the start-up pipeline leaves it: every row names its district and holds a float or nothing. */
  predicate MapRowsClean(mapRows: seq<MapRow>) {
    forall r :: r in mapRows ==> r.district.Some? && !r.value.Str?
  }

  function SeriesOf(rows: seq<MapRow>): (s: Series)
    requires forall r :: r in rows ==> r.district.Some?
    ensures |s| == |rows|
    ensures forall i :: 0 <= i < |rows| ==>
              s[i] == (rows[i].district.value, if rows[i].value.Num? then Some(rows[i].value.x) else None)
  {
    seq(|rows|, i requires 0 <= i < |rows| =>
      (rows[i].district.value, if rows[i].value.Num? then Some(rows[i].value.x) else None))
  }

  /** The change table of a state, from its NFHS-4 and NFHS-5 rows. */
  function StateTable(mapRows: seq<MapRow>, place: string, kpi: string, inverse: bool): seq<TableRow>
    requires MapRowsClean(mapRows)
  {
    ChangeTable(SeriesOf(RoundRows(mapRows, place, kpi, "NFHS-4")), SeriesOf(RoundRows(mapRows, place, kpi, "NFHS-5")), kpi, inverse)
  }

  /** Where the map key is unique, each row of a state's table says what its two rounds hold. */
  lemma StateTableSound(mapRows: seq<MapRow>, place: string, kpi: string, inverse: bool)
    requires MapRowsClean(mapRows) && UniqueKeys(mapRows, MapKey)
    ensures forall r :: r in StateTable(mapRows, place, kpi, inverse) ==>
              RowSays(r, SeriesOf(RoundRows(mapRows, place, kpi, "NFHS-4")), SeriesOf(RoundRows(mapRows, place, kpi, "NFHS-5")), inverse)
  {
    RoundRowsDistinct(mapRows, place, kpi, "NFHS-4");
    RoundRowsDistinct(mapRows, place, kpi, "NFHS-5");
    ChangeTableSound(SeriesOf(RoundRows(mapRows, place, kpi, "NFHS-4")), SeriesOf(RoundRows(mapRows, place, kpi, "NFHS-5")), kpi, inverse);
  }

  /** Where the map key is unique, a district of the state with a number in both rounds, not both zero, has a table row. */
  lemma StateTableComplete(mapRows: seq<MapRow>, place: string, kpi: string, inverse: bool, i: nat, j: nat)
    requires MapRowsClean(mapRows) && UniqueKeys(mapRows, MapKey)
    requires i < |RoundRows(mapRows, place, kpi, "NFHS-4")| && j < |RoundRows(mapRows, place, kpi, "NFHS-5")|
    requires RoundRows(mapRows, place, kpi, "NFHS-4")[i].district == RoundRows(mapRows, place, kpi, "NFHS-5")[j].district
    requires RoundRows(mapRows, place, kpi, "NFHS-4")[i].value.Num? && RoundRows(mapRows, place, kpi, "NFHS-5")[j].value.Num?
    requires !(RoundRows(mapRows, place, kpi, "NFHS-4")[i].value.x == 0.0 && RoundRows(mapRows, place, kpi, "NFHS-5")[j].value.x == 0.0)
    ensures exists r :: r in StateTable(mapRows, place, kpi, inverse) && Some(r.district) == RoundRows(mapRows, place, kpi, "NFHS-4")[i].district
  {
    var r4 := RoundRows(mapRows, place, kpi, "NFHS-4");
    var r5 := RoundRows(mapRows, place, kpi, "NFHS-5");
    assert r4[i] in mapRows && r5[j] in mapRows;
    RoundRowsDistinct(mapRows, place, kpi, "NFHS-4");
    RoundRowsDistinct(mapRows, place, kpi, "NFHS-5");
    ChangeTableComplete(SeriesOf(r4), SeriesOf(r5), kpi, inverse, i, j);
  }

  /** What the page shows for a state. */
  datatype MapView = MapView(round4: seq<DisplayRow>, round5: seq<DisplayRow>, scale: seq<Stop>,
                             card4: Card, card5: Card, table: seq<TableRow>)

  /**
   * `disp_in_district_map` for a place and an indicator. "All India" never
   * defines the table nor the cards and fails with `NameError`; a state needs
   * its features and its district rows; the cards fail on more than one value.
   */
  function DisplayInDistrictMap(place: string, kpi: string, mapRows: seq<MapRow>, stateRows: seq<StateRow>,
                                geoDict: map<string, seq<Feature>>, districtGeoDict: map<string, seq<GeoJoin>>,
                                inverse: set<string>): (r: Result<MapView>)
    requires MapRowsClean(mapRows)
    ensures place == "All India" ==> r == Err(NameError)
    ensures place != "All India" && (place !in geoDict || place !in districtGeoDict) ==> r == Err(KeyError)
    ensures r.Ok? ==> place != "All India" && place in districtGeoDict
    ensures r.Ok? ==> r.value.round4 == MapFrame(RoundRows(mapRows, place, kpi, "NFHS-4"), districtGeoDict[place])
                      && r.value.round5 == MapFrame(RoundRows(mapRows, place, kpi, "NFHS-5"), districtGeoDict[place])
    ensures r.Ok? ==> r.value.scale == ColourScale(kpi, inverse)
    ensures r.Ok? ==> r.value.table == StateTable(mapRows, place, kpi, kpi in inverse)
    ensures place != "All India" && place in geoDict && place in districtGeoDict ==>
              (r.Ok? <==> Cards(CardValues(stateRows, place, kpi, "NFHS 4"), CardValues(stateRows, place, kpi, "NFHS 5")).Ok?)
    ensures r.Ok? ==> Cards(CardValues(stateRows, place, kpi, "NFHS 4"), CardValues(stateRows, place, kpi, "NFHS 5"))
                      == Ok((r.value.card4, r.value.card5))
  {
    if place == "All India" then Err(NameError)
    else if place !in geoDict || place !in districtGeoDict then Err(KeyError)
    else
      var r4 := RoundRows(mapRows, place, kpi, "NFHS-4");
      var r5 := RoundRows(mapRows, place, kpi, "NFHS-5");
      var table := StateTable(mapRows, place, kpi, kpi in inverse);
      var geo := districtGeoDict[place];
      match Cards(CardValues(stateRows, place, kpi, "NFHS 4"), CardValues(stateRows, place, kpi, "NFHS 5"))
      case Err(e) => Err(e)
      case Ok(cards) =>
        Ok(MapView(MapFrame(r4, geo), MapFrame(r5, geo), ColourScale(kpi, inverse), cards.0, cards.1, table))
  }

  /** Where the district table holds each (state, district, round, indicator) once, a round names each district once. */
  lemma RoundRowsDistinct(mapRows: seq<MapRow>, place: string, kpi: string, round: string)
    requires MapRowsClean(mapRows) && UniqueKeys(mapRows, MapKey)
    ensures DistinctNames(SeriesOf(RoundRows(mapRows, place, kpi, round)))
  {
    FilterKeepsUnique(mapRows, RoundMask(place, kpi, round), MapKey);
    var rows := RoundRows(mapRows, place, kpi, round);
    var s := SeriesOf(rows);
    forall i, j | 0 <= i < j < |s| ensures s[i].0 != s[j].0 {
      assert rows[i] in rows && rows[j] in rows;
      assert MapKey(rows[i]) != MapKey(rows[j]);
    }
  }
}
