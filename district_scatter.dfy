/**
 * The selection logic of the district scatter page (pages/district_scatter.py):
 * the states tree and its decoding, the indicator dropdowns of a domain, the
 * flattening of the pivoted column names, the axis column names and their
 * suffixes, the reference state and the lookup of the state-level reference
 * value. Plotting, the trendline and R² are not modelled.
 */
module DistrictScatter {
  import opened Frames
  import opened Text
  import opened Sorting
  import opened Trees
  import opened Taxonomy
  import opened DistrictValues
  import GeoNames
  import StateTables

  // ---------------------------------------------------------------- states tree

  /** `states_index`: the data states sorted case-insensitively, numbered "0", "1", ... */
  function StatesIndex(dataStates: seq<string>): (idx: map<string, string>)
    ensures forall i :: 0 <= i < |dataStates| ==> NatToString(i) in idx && idx[NatToString(i)] == SortCaseInsensitive(dataStates)[i]
    ensures forall k :: k in idx ==> exists i :: 0 <= i < |dataStates| && k == NatToString(i)
  {
    IndexByPosition(SortCaseInsensitive(dataStates))
  }

  /** The children of `selection_tree` (its root is "All India" with key "0"). */
  function SelectionTree(dataStates: seq<string>): (cs: seq<TreeNode>)
    ensures |cs| == |dataStates|
    ensures forall i :: 0 <= i < |cs| ==> cs[i].key == ChildKey(i) && cs[i].title == SortCaseInsensitive(dataStates)[i]
  {
    Children(SortCaseInsensitive(dataStates))
  }

  /** The selection the session store carries: the whole country, or a list of states. */
  datatype Selection = AllIndia | States(names: seq<string>)

  /** `[states_index[k.split("-")[1]] for k in checked]`: the first bad key raises. */
  function DecodeStateKeys(checked: seq<string>, idx: map<string, string>): (r: Result<seq<string>>)
    ensures r.Ok? ==> |r.value| == |checked|
    ensures r.Ok? ==> forall i :: 0 <= i < |checked| ==>
              |Split(checked[i], '-')| >= 2 && Split(checked[i], '-')[1] in idx && r.value[i] == idx[Split(checked[i], '-')[1]]
    ensures r.Err? <==> exists i :: 0 <= i < |checked| && (|Split(checked[i], '-')| < 2 || Split(checked[i], '-')[1] !in idx)
  {
    if checked == [] then Ok([])
    else
      var parts := Split(checked[0], '-');
      if |parts| < 2 then Err(IndexError)
      else if parts[1] !in idx then Err(KeyError)
      else
        match DecodeStateKeys(checked[1..], idx)
        case Err(e) => Err(e)
        case Ok(rest) =>
          assert forall i :: 1 <= i < |checked| ==> checked[i] == checked[1..][i - 1];
          Ok([idx[parts[1]]] + rest)
  }

  /**
   * `update_states_selector`: the button label and the selection. A checked
   * root means the whole country whatever else is checked.
   */
  function UpdateStatesSelector(checked: seq<string>, idx: map<string, string>): (r: Result<(string, Selection)>)
    ensures RootKey in checked ==> r == Ok(("Active Selection: All India", AllIndia))
    ensures RootKey !in checked ==> (r.Err? <==> DecodeStateKeys(checked, idx).Err?)
    ensures RootKey !in checked && r.Ok? ==>
              r.value.1 == States(DecodeStateKeys(checked, idx).value)
              && r.value.0 == "Active Selection: " + NatToString(|checked|) + " States"
  {
    if RootKey in checked then Ok(("Active Selection: All India", AllIndia))
    else
      match DecodeStateKeys(checked, idx)
      case Err(e) => Err(e)
      case Ok(names) => Ok(("Active Selection: " + NatToString(|names|) + " States", States(names)))
  }

  /**
   * Checking tree children decodes to exactly their states: for the keys of
   * the children at positions `picks`, the selection is the states at those
   * positions of the sorted list, and the label counts them.
   */
  lemma SelectorDecodesTree(dataStates: seq<string>, picks: seq<nat>, checked: seq<string>)
    requires forall j :: 0 <= j < |picks| ==> picks[j] < |dataStates|
    requires |checked| == |picks| && forall j :: 0 <= j < |picks| ==> checked[j] == ChildKey(picks[j])
    ensures var r := UpdateStatesSelector(checked, StatesIndex(dataStates));
            && r.Ok? && r.value.0 == "Active Selection: " + NatToString(|picks|) + " States"
            && r.value.1.States? && |r.value.1.names| == |picks|
            && forall j :: 0 <= j < |picks| ==> r.value.1.names[j] == SortCaseInsensitive(dataStates)[picks[j]]
  {
    var sorted := SortCaseInsensitive(dataStates);
    DecodeChildKeys(sorted, picks, checked);
    assert RootKey !in checked;
  }

  /** The decoding half of `SelectorDecodesTree`, over any numbered list. */
  lemma DecodeChildKeys(sorted: seq<string>, picks: seq<nat>, checked: seq<string>)
    requires forall j :: 0 <= j < |picks| ==> picks[j] < |sorted|
    requires |checked| == |picks| && forall j :: 0 <= j < |picks| ==> checked[j] == ChildKey(picks[j])
    ensures DecodeStateKeys(checked, IndexByPosition(sorted)).Ok?
    ensures forall j :: 0 <= j < |picks| ==> DecodeStateKeys(checked, IndexByPosition(sorted)).value[j] == sorted[picks[j]]
  {
    var idx := IndexByPosition(sorted);
    forall j | 0 <= j < |checked|
      ensures |Split(checked[j], '-')| >= 2 && Split(checked[j], '-')[1] in idx
      ensures idx[Split(checked[j], '-')[1]] == sorted[picks[j]]
    {
      ChildKeySplit(picks[j]);
    }
  }

  // ---------------------------------------------------------------- indicator dropdowns

  /**
   * `sorted(nfhs_dist_ind_df.query("ind_domain == @dmn").district_kpi.values, key=str.lower)`
   * and its first element: the options of one domain's indicator dropdown and
   * the preselected value; an empty domain has no first element.
   */
  function DomainKpiOptions(ind: seq<(string, string)>, dmn: string): (r: Result<(seq<string>, string)>)
    ensures r.Err? <==> Partners(ind, dmn) == []
    ensures r.Ok? ==> && SortedBy(r.value.0, CaseInsensitiveLe)
                      && multiset(r.value.0) == multiset(Partners(ind, dmn))
                      && |r.value.0| > 0 && r.value.1 == r.value.0[0]
  {
    var sorted := SortCaseInsensitive(Partners(ind, dmn));
    if sorted == [] then
      assert |multiset(Partners(ind, dmn))| == 0;
      Err(IndexError)
    else Ok((sorted, sorted[0]))
  }

  /** `update_district_kpi_options`: both dropdowns; either domain being empty raises. */
  function UpdateDistrictKpiOptions(ind: seq<(string, string)>, dmnX: string, dmnY: string): (r: Result<(seq<string>, string, seq<string>, string)>)
    ensures r.Err? <==> Partners(ind, dmnX) == [] || Partners(ind, dmnY) == []
    ensures r.Ok? ==> (r.value.0, r.value.1) == DomainKpiOptions(ind, dmnX).value
                      && (r.value.2, r.value.3) == DomainKpiOptions(ind, dmnY).value
  {
    var x := DomainKpiOptions(ind, dmnX);
    var y := DomainKpiOptions(ind, dmnY);
    if x.Err? then Err(x.error)
    else if y.Err? then Err(y.error)
    else Ok((x.value.0, x.value.1, y.value.0, y.value.1))
  }

  /** The preselected indicator belongs to the chosen domain and comes first case-insensitively. */
  lemma DomainKpiPreselected(ind: seq<(string, string)>, dmn: string)
    requires DomainKpiOptions(ind, dmn).Ok?
    ensures var v := DomainKpiOptions(ind, dmn).value.1;
            (dmn, v) in ind && forall k :: k in Partners(ind, dmn) ==> CaseInsensitiveLe(v, k)
  {
    var opts := DomainKpiOptions(ind, dmn).value.0;
    assert opts[0] in multiset(opts);
    forall k | k in Partners(ind, dmn) ensures CaseInsensitiveLe(opts[0], k) {
      assert k in multiset(opts);
      var j :| 0 <= j < |opts| && opts[j] == k;
      CaseInsensitiveTotal();
      if j == 0 {
        LexLeTotal(Lower(k), Lower(k));
      }
    }
  }

  // ---------------------------------------------------------------- column names

  /** `(" (".join((name, sub)) + ")").removesuffix(" ()")`: a pivoted column's flat name. */
  function FlatColumnName(name: string, sub: string): string {
    RemoveSuffix(name + " (" + sub + ")", " ()")
  }

  /**
   * The flat name is "name (sub)", and just "name" for the key columns whose
   * second level is empty; a second level ending in " (" loses its last two
   * characters as well.
   */
  lemma FlatColumnNameCases(name: string, sub: string)
    ensures sub == "" ==> FlatColumnName(name, sub) == name
    ensures sub != "" && !EndsWith(sub, " (") ==> FlatColumnName(name, sub) == name + " (" + sub + ")"
    ensures EndsWith(sub, " (") ==> FlatColumnName(name, sub) == name + " (" + sub[..|sub| - 2]
  {
    var s := name + " (" + sub + ")";
    if sub == "" {
      assert s == name + " ()";
      RemoveSuffixAppended(name, " ()");
    } else if EndsWith(sub, " (") {
      var u := sub[..|sub| - 2];
      assert sub == u + " (";
      assert s == (name + " (" + u) + " ()";
      RemoveSuffixAppended(name + " (" + u, " ()");
    } else if |sub| >= 2 {
      var t := s[|s| - 3..];
      assert t == sub[|sub| - 2..] + ")";
      assert t[..2] == sub[|sub| - 2..] != " (";
    } else {
      var t := s[|s| - 3..];
      assert t[0] == '(';
    }
  }

  /** The two plots of the page: the NFHS rounds against each other, or the changes. */
  datatype ScatterMode = Rounds | Change

  /** `value_or_change == "rounds"`; any other value plots the changes. */
  function ModeOf(value: string): (m: ScatterMode)
    ensures m == Rounds <==> value == "rounds"
  {
    if value == "rounds" then Rounds else Change
  }

  datatype Axis = X | Y

  /** The round column each axis plots: NFHS-4 against NFHS-5, or the change on both axes. */
  function RoundOf(mode: ScatterMode, axis: Axis): string {
    match (mode, axis)
    case (Rounds, X) => "NFHS-4"
    case (Rounds, Y) => "NFHS-5"
    case (Change, _) => "NFHS-5 minus NFHS-4"
  }

  /** The renamed `kpi_1` / `kpi_2`: `" (".join([kpi, round]) + ")"`. */
  function AxisColumn(kpi: string, mode: ScatterMode, axis: Axis): string {
    kpi + " (" + RoundOf(mode, axis) + ")"
  }

  /** The suffix the state-indicator query strips from the axis column. */
  function QuerySuffix(mode: ScatterMode, axis: Axis): string {
    match (mode, axis)
    case (Rounds, X) => " (NFHS-4)"
    case (Rounds, Y) => " (NFHS-5)"
    case (Change, _) => " (NFHS-5 minus NFHS-4)"
  }

  /**
   * The axis column is one of the flattened pivot columns, and stripping the
   * query's suffix from it gives back the indicator chosen in the dropdown.
   */
  lemma AxisColumnRoundTrip(kpi: string, mode: ScatterMode, axis: Axis)
    ensures AxisColumn(kpi, mode, axis) == FlatColumnName(kpi, RoundOf(mode, axis))
    ensures RemoveSuffix(AxisColumn(kpi, mode, axis), QuerySuffix(mode, axis)) == kpi
  {
    RoundSuffix(mode, axis);
    FlatColumnNameCases(kpi, RoundOf(mode, axis));
    SuffixRoundTrip(kpi, RoundOf(mode, axis));
  }

  /** The query suffix is the round in parentheses, and no round ends in " (". */
  lemma RoundSuffix(mode: ScatterMode, axis: Axis)
    ensures QuerySuffix(mode, axis) == " (" + RoundOf(mode, axis) + ")"
    ensures RoundOf(mode, axis) != "" && !EndsWith(RoundOf(mode, axis), " (")
  {
    match (mode, axis)
    case (Rounds, X) =>
    case (Rounds, Y) =>
    case (Change, _) =>
  }

  /** Removing the parenthesised round from "kpi (round)" gives the indicator back. */
  lemma SuffixRoundTrip(kpi: string, r: string)
    ensures RemoveSuffix(kpi + " (" + r + ")", " (" + r + ")") == kpi
  {
    assert kpi + " (" + r + ")" == kpi + (" (" + r + ")");
    RemoveSuffixAppended(kpi, " (" + r + ")");
  }

  // ---------------------------------------------------------------- reference value

  /** `match_state`: the one selected state under its state-sheet spelling, else "All India". */
  function MatchState(sel: Selection): (s: string)
    ensures sel.AllIndia? || |sel.names| != 1 ==> s == "All India"
    ensures sel.States? && |sel.names| == 1 && sel.names[0] !in GeoNames.DistrictStateMatch ==> s == sel.names[0]
    ensures sel.States? && |sel.names| == 1 && sel.names[0] in GeoNames.DistrictStateMatch ==>
              s == GeoNames.DistrictStateMatch[sel.names[0]]
  {
    if sel.States? && |sel.names| == 1 then
      var n := sel.names[0];
      if n in GeoNames.DistrictStateMatch then GeoNames.DistrictStateMatch[n] else n
    else "All India"
  }

  /** The state-level rows a reference value is read from: state, indicator type, indicator. */
  datatype RefQuery = RefQuery(state: string, itype: string, indicator: string)

  /** The rows of `dist_state_kpi_df` for one domain and district indicator. */
  function KpiRows(table: seq<KpiMatch>, dmn: string, kpi: string): seq<KpiMatch> {
    Filter(table, (r: KpiMatch) => r.domDist == dmn && r.kpiDistrict == kpi)
  }

  /**
   * `None if pd.isna(*match.kpi_state) else <query>`: unpacking anything but
   * one row into `pd.isna` raises `TypeError`; a missing state counterpart
   * gives no reference value.
   */
  function RefLookup(table: seq<KpiMatch>, dmn: string, kpi: string, state: string): (r: Result<Option<RefQuery>>)
    ensures r.Err? <==> |KpiRows(table, dmn, kpi)| != 1
    ensures r.Ok? ==> var m := KpiRows(table, dmn, kpi)[0];
                      && (r.value.None? <==> m.kpiState.None?)
                      && (r.value.Some? ==> r.value.value == RefQuery(state, m.domState, m.kpiState.value))
  {
    var ms := KpiRows(table, dmn, kpi);
    if |ms| != 1 then Err(TypeError)
    else if ms[0].kpiState.None? then Ok(None)
    else Ok(Some(RefQuery(state, ms[0].domState, ms[0].kpiState.value)))
  }

  /** `(domain, district indicator)` identifies a row of the correspondence table. */
  function KpiKey(r: KpiMatch): (string, string) {
    (r.domDist, r.kpiDistrict)
  }

  /** With one row per (domain, indicator), the lookup of a listed indicator succeeds and finds that row. */
  lemma {:induction false} RefLookupUnique(table: seq<KpiMatch>, i: nat, state: string)
    requires UniqueKeys(table, KpiKey) && i < |table|
    ensures KpiRows(table, table[i].domDist, table[i].kpiDistrict) == [table[i]]
    ensures RefLookup(table, table[i].domDist, table[i].kpiDistrict, state).Ok?
    ensures RefLookup(table, table[i].domDist, table[i].kpiDistrict, state).value.None? <==> table[i].kpiState.None?
  {
    var p := (r: KpiMatch) => r.domDist == table[i].domDist && r.kpiDistrict == table[i].kpiDistrict;
    FilterSingle(table, p, i);
    assert KpiRows(table, table[i].domDist, table[i].kpiDistrict) == Filter(table, p);
  }

  /** A mask that holds at exactly one position keeps exactly that row. */
  lemma {:induction false} FilterSingle(table: seq<KpiMatch>, p: KpiMatch -> bool, i: nat)
    requires UniqueKeys(table, KpiKey) && i < |table|
    requires forall r :: p(r) <==> KpiKey(r) == KpiKey(table[i])
    ensures Filter(table, p) == [table[i]]
  {
    if i == 0 {
      forall r | r in table[1..] ensures !p(r) {
        var k :| 0 <= k < |table[1..]| && table[1..][k] == r;
        assert table[k + 1] == r;
      }
      FilterNone(table[1..], p);
    } else {
      var tail := table[1..];
      assert UniqueKeys(tail, KpiKey) by {
        forall a, b | 0 <= a < b < |tail| ensures KpiKey(tail[a]) != KpiKey(tail[b]) {
          assert tail[a] == table[a + 1] && tail[b] == table[b + 1];
        }
      }
      assert tail[i - 1] == table[i];
      FilterSingle(tail, p, i - 1);
      assert KpiKey(table[0]) != KpiKey(table[i]);
    }
  }

  /** A state-table row the reference query keeps: the state, indicator type, indicator and survey round. */
  predicate RefRow(q: RefQuery, nfhs: string, x: StateTables.StateRow) {
    x.state == Some(q.state) && x.itype == Some(q.itype) && x.indicator == Some(q.indicator) && x.nfhs == Some(nfhs)
  }

  /**
   * `df_nfhs_345.query("State == ... & `Indicator Type` == ... & Indicator == ... & NFHS == ...").Total.values`:
   * the totals of exactly the rows the query keeps.
   */
  function RefTotals(rows: seq<StateTables.StateRow>, q: RefQuery, nfhs: string): (r: seq<Cell>)
    ensures |r| <= |rows|
    ensures forall i :: 0 <= i < |r| ==> IsRefTotal(rows, q, nfhs, r[i])
    ensures forall x :: x in rows && RefRow(q, nfhs, x) ==> x.total in r
  {
    RefTotalsMembers(rows, q, nfhs);
    Keys(RefRows(rows, q, nfhs), TotalOf)
  }

  /** `c` is the total of some row the reference query keeps. */
  predicate IsRefTotal(rows: seq<StateTables.StateRow>, q: RefQuery, nfhs: string, c: Cell) {
    exists x :: x in rows && RefRow(q, nfhs, x) && x.total == c
  }

  /** The rows the reference query keeps. */
  function RefRows(rows: seq<StateTables.StateRow>, q: RefQuery, nfhs: string): seq<StateTables.StateRow> {
    Filter(rows, (x: StateTables.StateRow) => RefRow(q, nfhs, x))
  }

  function TotalOf(x: StateTables.StateRow): Cell { x.total }

  lemma RefTotalsMembers(rows: seq<StateTables.StateRow>, q: RefQuery, nfhs: string)
    ensures forall i :: 0 <= i < |Keys(RefRows(rows, q, nfhs), TotalOf)| ==>
              IsRefTotal(rows, q, nfhs, Keys(RefRows(rows, q, nfhs), TotalOf)[i])
    ensures forall x :: x in rows && RefRow(q, nfhs, x) ==> x.total in Keys(RefRows(rows, q, nfhs), TotalOf)
  {
    var ms := RefRows(rows, q, nfhs);
    var ts := Keys(ms, TotalOf);
    forall i | 0 <= i < |ms| ensures IsRefTotal(rows, q, nfhs, ts[i]) {
      var x := ms[i];
      assert x in ms;
      assert x in rows && RefRow(q, nfhs, x) && x.total == ts[i];
    }
    forall x | x in rows && RefRow(q, nfhs, x) ensures x.total in ts {
      assert x in ms;
      var k :| 0 <= k < |ms| && ms[k] == x;
      assert ts[k] == x.total;
    }
  }

  /**
   * The reference value of one axis before it is reduced: the NFHS 4 (x) or
   * NFHS 5 (y) totals in the rounds view, and the NFHS 5 and NFHS 4 totals
   * whose difference is taken in the change view.
   */
  datatype RefValues = Totals(vals: seq<Cell>) | Difference(later: seq<Cell>, earlier: seq<Cell>)

  function RefValuesOf(rows: seq<StateTables.StateRow>, q: RefQuery, mode: ScatterMode, axis: Axis): (v: RefValues)
    ensures mode == Rounds <==> v.Totals?
    ensures v.Totals? ==> v.vals == RefTotals(rows, q, if axis == X then "NFHS 4" else "NFHS 5")
    ensures v.Difference? ==> v.later == RefTotals(rows, q, "NFHS 5") && v.earlier == RefTotals(rows, q, "NFHS 4")
  {
    match mode
    case Rounds => Totals(RefTotals(rows, q, if axis == X then "NFHS 4" else "NFHS 5"))
    case Change => Difference(RefTotals(rows, q, "NFHS 5"), RefTotals(rows, q, "NFHS 4"))
  }

  // ---------------------------------------------------------------- the scatter callback

  /** The rows `district_map_df.query(...)` keeps for the two chosen indicators. */
  function ScatterRows(sel: Selection, rows: seq<MapRow>, kpi1: string, kpi2: string): (r: seq<MapRow>)
    ensures forall x :: x in r <==> (x in rows && (x.variable == kpi1 || x.variable == kpi2)
                                    && (sel.States? ==> x.state.Some? && x.state.value in sel.names))
  {
    Filter(rows, ScatterMask(sel, kpi1, kpi2))
  }

  /** `State in @states & variable in @kpi_list`, or only the second test for the whole country. */
  function ScatterMask(sel: Selection, kpi1: string, kpi2: string): MapRow -> bool {
    (x: MapRow) => (x.variable == kpi1 || x.variable == kpi2) && (sel.States? ==> x.state.Some? && x.state.value in sel.names)
  }

  /** The cell `pivot(index=["State", "District name"], columns=["variable", "Round"])` puts a row's value in. */
  function PivotKey(x: MapRow): (Option<string>, Option<string>, string, Option<string>) {
    (x.state, x.district, x.variable, x.round)
  }

  /** The pivot has a `(kpi, round)` column exactly when some queried row carries that indicator and round. */
  predicate HasColumn(shown: seq<MapRow>, kpi: string, round: string) {
    exists x :: x in shown && x.variable == kpi && x.round == Some(round)
  }

  /** The four columns the change computation reads. */
  predicate PivotComplete(shown: seq<MapRow>, kpi1: string, kpi2: string) {
    && HasColumn(shown, kpi1, "NFHS-5") && HasColumn(shown, kpi1, "NFHS-4")
    && HasColumn(shown, kpi2, "NFHS-5") && HasColumn(shown, kpi2, "NFHS-4")
  }

  /** What `update_scatter` shows, leaving out the figure itself. */
  datatype ScatterView =
    | NoFigure
    | Figure(rows: seq<MapRow>, xColumn: string, yColumn: string, refState: string,
             xRef: Option<RefQuery>, yRef: Option<RefQuery>, xAvg: Option<RefValues>, yAvg: Option<RefValues>)

  /**
   * `update_scatter`: no session data gives the placeholder; a repeated pivot
   * cell raises `ValueError`; no matching row gives the placeholder; a
   * missing round of either indicator raises `KeyError` when the changes are
   * computed; otherwise the axis columns, the reference state and the
   * state-level reference queries and totals of both indicators.
   */
  function UpdateScatter(value: string, session: Option<Selection>, rows: seq<MapRow>, kpi1: string, kpi2: string,
                         dmnX: string, dmnY: string, table: seq<KpiMatch>, stateRows: seq<StateTables.StateRow>)
    : (r: Result<ScatterView>)
    ensures session.None? ==> r == Ok(NoFigure)
    ensures session.Some? ==>
              var shown := ScatterRows(session.value, rows, kpi1, kpi2);
              var state := MatchState(session.value);
              && (r == Err(ValueError) <==> !UniqueKeys(shown, PivotKey))
              && (r == Ok(NoFigure) <==> UniqueKeys(shown, PivotKey) && shown == [])
              && (r == Err(KeyError) <==> UniqueKeys(shown, PivotKey) && shown != [] && !PivotComplete(shown, kpi1, kpi2))
              && (r == Err(TypeError) <==>
                    && UniqueKeys(shown, PivotKey) && shown != [] && PivotComplete(shown, kpi1, kpi2)
                    && (RefLookup(table, dmnX, kpi1, state).Err? || RefLookup(table, dmnY, kpi2, state).Err?))
              && (r.Ok? && r.value.Figure? <==>
                    && UniqueKeys(shown, PivotKey) && shown != [] && PivotComplete(shown, kpi1, kpi2)
                    && RefLookup(table, dmnX, kpi1, state).Ok? && RefLookup(table, dmnY, kpi2, state).Ok?)
    ensures r.Ok? && r.value.Figure? ==>
              && session.Some? && r.value.rows == ScatterRows(session.value, rows, kpi1, kpi2) && r.value.rows != []
              && r.value.xColumn == AxisColumn(kpi1, ModeOf(value), X)
              && r.value.yColumn == AxisColumn(kpi2, ModeOf(value), Y)
              && r.value.refState == MatchState(session.value)
              && Ok(r.value.xRef) == RefLookup(table, dmnX, kpi1, r.value.refState)
              && Ok(r.value.yRef) == RefLookup(table, dmnY, kpi2, r.value.refState)
              && (r.value.xAvg.Some? <==> r.value.xRef.Some?)
              && (r.value.xAvg.Some? ==> r.value.xAvg.value == RefValuesOf(stateRows, r.value.xRef.value, ModeOf(value), X))
              && (r.value.yAvg.Some? <==> r.value.yRef.Some?)
              && (r.value.yAvg.Some? ==> r.value.yAvg.value == RefValuesOf(stateRows, r.value.yRef.value, ModeOf(value), Y))
  {
    if session.None? then Ok(NoFigure)
    else
      var sel := session.value;
      var shown := ScatterRows(sel, rows, kpi1, kpi2);
      if !UniqueKeys(shown, PivotKey) then Err(ValueError)
      else if shown == [] then Ok(NoFigure)
      else if !PivotComplete(shown, kpi1, kpi2) then Err(KeyError)
      else
        var mode := ModeOf(value);
        var xCol, yCol := AxisColumn(kpi1, mode, X), AxisColumn(kpi2, mode, Y);
        var state := MatchState(sel);
        AxisColumnRoundTrip(kpi1, mode, X);
        AxisColumnRoundTrip(kpi2, mode, Y);
        var x := RefLookup(table, dmnX, RemoveSuffix(xCol, QuerySuffix(mode, X)), state);
        var y := RefLookup(table, dmnY, RemoveSuffix(yCol, QuerySuffix(mode, Y)), state);
        if x.Err? then Err(x.error)
        else if y.Err? then Err(y.error)
        else
          var xAvg := if x.value.None? then None else Some(RefValuesOf(stateRows, x.value.value, mode, X));
          var yAvg := if y.value.None? then None else Some(RefValuesOf(stateRows, y.value.value, mode, Y));
          Ok(Figure(shown, xCol, yCol, state, x.value, y.value, xAvg, yAvg))
  }

  /** An empty list of states never plots anything. */
  lemma EmptySelectionNoFigure(value: string, rows: seq<MapRow>, kpi1: string, kpi2: string,
                               dmnX: string, dmnY: string, table: seq<KpiMatch>, stateRows: seq<StateTables.StateRow>)
    ensures UpdateScatter(value, Some(States([])), rows, kpi1, kpi2, dmnX, dmnY, table, stateRows) == Ok(NoFigure)
  {
    FilterNone(rows, ScatterMask(States([]), kpi1, kpi2));
  }
}
