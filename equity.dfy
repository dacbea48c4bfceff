/**
 * The equity table (pages/__init__.py): the first six sheets of the equity
 * workbook stacked into one table, each row labelled with its sheet's name,
 * rows without a State or a Year dropped, three columns normalised by
 * exact-value replacement, and the nineteen breakdown columns cast to float.
 *
 * A row is read after the `Unnamed: 0 -> State` and `Unnamed: 1 -> Total`
 * renaming; `values` holds the nineteen breakdown columns in the order of
 * `EquityColumns`, a column a sheet lacks being missing in every row.
 */
module Equity {
  import opened Frames
  import opened Cleaning

  /** The breakdown columns cast to float, in order. */
  const EquityColumns: seq<string> := [
    "Total", "Rural", "Urban", "Poorest", "Poor", "Middle", "Rich", "Richest",
    "No education", "Primary education", "Secondary education", "Higher education",
    "SC", "ST", "OBC", "Others", "Hindu", "Muslim", "Other"
  ]

  /** One row of the equity table: every cell read as text (`dtype=str`), or missing. */
  datatype EquityRow = EquityRow(state: Option<string>, year: Option<string>, indicator: Option<string>, values: seq<Cell>)

  /** One sheet of the workbook, in workbook order. */
  datatype Sheet = Sheet(name: string, rows: seq<EquityRow>)

  /** The number of sheets stacked. */
  const SheetCount: nat := 6

  /** `list(equity_df.keys())[:6]`. */
  function FirstSheets(sheets: seq<Sheet>): (r: seq<Sheet>)
    ensures |r| == if |sheets| < SheetCount then |sheets| else SheetCount
    ensures r <= sheets
  {
    if |sheets| <= SheetCount then sheets else sheets[..SheetCount]
  }

  /** Has both a State and a Year (`dropna(subset=["State", "Year"])`). */
  predicate HasStateAndYear(r: EquityRow) {
    r.state.Some? && r.year.Some?
  }

  /** One sheet labelled with its name and stripped of rows lacking a State or a Year. */
  function SheetRows(s: Sheet): (rows: seq<EquityRow>)
    ensures forall r :: r in rows ==> HasStateAndYear(r) && r.indicator == Some(s.name)
    ensures forall x :: x in s.rows && HasStateAndYear(x) ==> x.(indicator := Some(s.name)) in rows
    ensures forall r :: r in rows ==> r.(indicator := None) in Labelled(s.rows, None)
  {
    var labelled := Labelled(s.rows, Some(s.name));
    forall x | x in s.rows ensures x.(indicator := Some(s.name)) in labelled {
      var i :| 0 <= i < |s.rows| && s.rows[i] == x;
      assert labelled[i] == x.(indicator := Some(s.name));
    }
    forall r | r in labelled ensures r.(indicator := None) in Labelled(s.rows, None) {
      var i :| 0 <= i < |labelled| && labelled[i] == r;
      assert Labelled(s.rows, None)[i] == r.(indicator := None);
    }
    Filter(labelled, HasStateAndYear)
  }

  /** Every row of a table with its Indicator column set to one value. */
  function Labelled(rows: seq<EquityRow>, ind: Option<string>): (r: seq<EquityRow>)
    ensures |r| == |rows| && forall i :: 0 <= i < |rows| ==> r[i] == rows[i].(indicator := ind)
  {
    seq(|rows|, i requires 0 <= i < |rows| => rows[i].(indicator := ind))
  }

  /** `pd.concat` of the prepared sheets, in sheet order. */
  function Stacked(sheets: seq<Sheet>): seq<EquityRow>
    decreases |sheets|
  {
    if sheets == [] then []
    else
      var n := |sheets| - 1;
      Stacked(sheets[..n]) + SheetRows(sheets[n])
  }

  /**
   * The loop that fills `df_list_equity`, then `pd.concat`; concatenating an
   * empty list raises `ValueError`.
   */
  method StackEquity(sheets: seq<Sheet>) returns (r: Result<seq<EquityRow>>)
    ensures r.Err? <==> sheets == []
    ensures r.Ok? ==> r.value == Stacked(FirstSheets(sheets))
  {
    var names := FirstSheets(sheets);
    var parts: seq<EquityRow> := [];
    var i := 0;
    while i < |names|
      invariant 0 <= i <= |names|
      invariant parts == Stacked(names[..i])
    {
      var s := names[i];
      var labelled := Labelled(s.rows, Some(s.name));
      assert names[..i + 1][..i] == names[..i];
      parts := parts + Filter(labelled, HasStateAndYear);
      i := i + 1;
    }
    assert names[..i] == names;
    if |names| == 0 {
      r := Err(ValueError);
    } else {
      r := Ok(parts);
    }
  }

  /**
   * The stacked table holds exactly the rows of the stacked sheets that have a
   * State and a Year, each labelled with its own sheet's name.
   */
  lemma {:induction false} StackedRows(sheets: seq<Sheet>)
    ensures forall r :: r in Stacked(sheets) ==>
              HasStateAndYear(r) && exists s :: s in sheets && r.indicator == Some(s.name) && r.(indicator := None) in Labelled(s.rows, None)
    ensures forall s, x :: s in sheets && x in s.rows && HasStateAndYear(x) ==> x.(indicator := Some(s.name)) in Stacked(sheets)
    decreases |sheets|
  {
    if sheets != [] {
      var n := |sheets| - 1;
      StackedRows(sheets[..n]);
      assert forall s :: s in sheets <==> s in sheets[..n] || s == sheets[n];
    }
  }

  /** The exact-value corrections of the Indicator column. */
  const IndicatorFixes: map<string, string> := map["Protected against neonatTetnus " := "Neonatal Protection"]

  /** The exact-value corrections of the Year column. */
  const YearFixes: map<string, string> := map[
    "2015-16" := "NFHS-4 (2015-16)",
    "2019-21" := "NFHS-5 (2019-21)",
    "2019-2021" := "NFHS-5 (2019-21)"
  ]

  /** The exact-value corrections of the State column. */
  const EquityStateFixes: map<string, string> := map[
    "India" := "All India",
    "Jammu And Kashmir" := "Jammu and Kashmir",
    "Andaman And Nicobar Islands" := "Andaman and Nicobar Islands",
    "Andaman & Nicobar Isl" := "Andaman and Nicobar Islands",
    "Dadra & Nagar Haveli" := "Dadra and Nagar Haveli",
    "Delhi" := "Nct of Delhi",
    "Nct Of Delhi" := "Nct of Delhi"
  ]

  /** `replace({"Indicator": {...}, "Year": {...}, "State": {...}})` on one row. */
  function FixRow(r: EquityRow): (f: EquityRow)
    ensures f.values == r.values
    ensures r.state.Some? && r.state.value in EquityStateFixes ==> f.state == Some(EquityStateFixes[r.state.value])
    ensures (r.state.Some? && r.state.value !in EquityStateFixes) || r.state.None? ==> f.state == r.state
    ensures r.year.Some? && r.year.value in YearFixes ==> f.year == Some(YearFixes[r.year.value])
    ensures (r.year.Some? && r.year.value !in YearFixes) || r.year.None? ==> f.year == r.year
    ensures r.indicator.Some? && r.indicator.value in IndicatorFixes ==> f.indicator == Some(IndicatorFixes[r.indicator.value])
    ensures (r.indicator.Some? && r.indicator.value !in IndicatorFixes) || r.indicator.None? ==> f.indicator == r.indicator
  {
    r.(indicator := ReplaceExact(r.indicator, IndicatorFixes),
       year := ReplaceExact(r.year, YearFixes),
       state := ReplaceExact(r.state, EquityStateFixes))
  }

  /** No correction produces a value that would itself be corrected. */
  lemma FixesSettle()
    ensures forall k :: k in IndicatorFixes ==> IndicatorFixes[k] !in IndicatorFixes
    ensures forall k :: k in YearFixes ==> YearFixes[k] !in YearFixes
    ensures forall k :: k in EquityStateFixes ==> EquityStateFixes[k] !in EquityStateFixes
  {}

  /** After the replacement no old spelling is left, and replacing again changes nothing. */
  lemma FixRowSettles(r: EquityRow)
    ensures var f := FixRow(r);
            && (f.state.Some? ==> f.state.value !in EquityStateFixes)
            && (f.year.Some? ==> f.year.value !in YearFixes)
            && (f.indicator.Some? ==> f.indicator.value !in IndicatorFixes)
            && FixRow(f) == f
  {
    FixesSettle();
    ReplaceExactIdempotent(r.state, EquityStateFixes);
    ReplaceExactIdempotent(r.year, YearFixes);
    ReplaceExactIdempotent(r.indicator, IndicatorFixes);
  }

  /** The replacement over the table. */
  function FixRows(rows: seq<EquityRow>): (f: seq<EquityRow>)
    ensures |f| == |rows| && forall i :: 0 <= i < |rows| ==> f[i] == FixRow(rows[i])
  {
    seq(|rows|, i requires 0 <= i < |rows| => FixRow(rows[i]))
  }

  /** A present cell that is not numeric text makes `astype("float64")` raise. */
  predicate CastFails(r: EquityRow, parse: Parser) {
    exists j :: 0 <= j < |r.values| && NonNumeric(r.values[j], parse)
  }

  /** The breakdown values of one row cast to float. */
  function CastRow(r: EquityRow, parse: Parser): (c: EquityRow)
    requires !CastFails(r, parse)
    ensures c.(values := r.values) == r && |c.values| == |r.values|
    ensures forall j :: 0 <= j < |r.values| ==> !c.values[j].Str? && c.values[j].NA? == r.values[j].NA?
    ensures forall j :: 0 <= j < |r.values| && r.values[j].Num? ==> c.values[j] == r.values[j]
    ensures forall j :: 0 <= j < |r.values| && r.values[j].Str? ==> c.values[j] == Num(parse(r.values[j].text).value)
  {
    r.(values := seq(|r.values|, j requires 0 <= j < |r.values| => ToFloat(r.values[j], parse)))
  }

  /** `astype` of the breakdown columns over the table: `ValueError` on any non-numeric text. */
  function CastValues(rows: seq<EquityRow>, parse: Parser): (r: Result<seq<EquityRow>>)
    ensures r.Err? <==> exists i :: 0 <= i < |rows| && CastFails(rows[i], parse)
    ensures r.Ok? ==> |r.value| == |rows| && forall i :: 0 <= i < |rows| ==> r.value[i] == CastRow(rows[i], parse)
  {
    if exists i :: 0 <= i < |rows| && CastFails(rows[i], parse) then Err(ValueError)
    else Ok(seq(|rows|, i requires 0 <= i < |rows| => CastRow(rows[i], parse)))
  }

  /** `df_equity`. */
  function EquityTable(sheets: seq<Sheet>, parse: Parser): Result<seq<EquityRow>> {
    if sheets == [] then Err(ValueError)
    else CastValues(FixRows(Stacked(FirstSheets(sheets))), parse)
  }

  /**
   * The equity table fails exactly when the workbook has no sheet or a kept row
   * of the first six sheets has a present breakdown value that is not numeric.
   */
  lemma EquityTableFails(sheets: seq<Sheet>, parse: Parser)
    ensures EquityTable(sheets, parse).Err? <==>
              sheets == [] || exists x :: x in Stacked(FirstSheets(sheets)) && CastFails(x, parse)
  {
    if sheets != [] {
      var stacked := Stacked(FirstSheets(sheets));
      var fixed := FixRows(stacked);
      if exists x :: x in stacked && CastFails(x, parse) {
        var x :| x in stacked && CastFails(x, parse);
        var i :| 0 <= i < |stacked| && stacked[i] == x;
        assert fixed[i].values == x.values;
      }
      if exists i :: 0 <= i < |fixed| && CastFails(fixed[i], parse) {
        var i :| 0 <= i < |fixed| && CastFails(fixed[i], parse);
        assert stacked[i] in stacked;
      }
    }
  }

  /**
   * Otherwise every breakdown value is missing or a float, every row has a
   * State and a Year, its indicator is its sheet's (corrected) name, and no
   * uncorrected State, Year or Indicator spelling remains.
   */
  lemma EquityTableRows(sheets: seq<Sheet>, parse: Parser, k: nat)
    requires EquityTable(sheets, parse).Ok? && k < |EquityTable(sheets, parse).value|
    ensures var r := EquityTable(sheets, parse).value[k];
            && (forall j :: 0 <= j < |r.values| ==> !r.values[j].Str?)
            && HasStateAndYear(r)
            && (exists s :: s in FirstSheets(sheets) && r.indicator == ReplaceExact(Some(s.name), IndicatorFixes))
            && r.state.value !in EquityStateFixes && r.year.value !in YearFixes
            && r.indicator.value !in IndicatorFixes
  {
    var stacked := Stacked(FirstSheets(sheets));
    StackedRows(FirstSheets(sheets));
    assert stacked[k] in stacked;
    FixRowSettles(stacked[k]);
  }
}
