/**
 * The state-level survey table (pages/__init__.py): the India fact sheet with
 * a synthetic NFHS-4 slice, the states sheet with its duplicate report, the
 * gender and "India" rewrites, the union keeping the first row per key, the
 * gender fold into the indicator type, and the cleaning of the Urban, Rural
 * and Total columns.
 */
module StateTables {
  import opened Frames
  import opened Text
  import opened Sorting
  import opened Cleaning

  /** A row of the India fact sheet after its columns are renamed (read as text). */
  datatype IndiaRow = IndiaRow(indicator: Option<string>, nfhs4: Cell, urban: Cell, rural: Cell, total: Cell,
                               itype: Option<string>, gender: Option<string>, nfhs: Option<string>, year: Option<string>)

  /** A row of the state table: the key columns, the survey year, and the three residence values. */
  datatype StateRow = StateRow(itype: Option<string>, indicator: Option<string>, state: Option<string>,
                               gender: Option<string>, nfhs: Option<string>, year: Option<string>,
                               urban: Cell, rural: Cell, total: Cell)

  type IndiaKey = (Option<string>, Option<string>, Option<string>, Option<string>)
  type StateKey = (Option<string>, Option<string>, Option<string>, Option<string>, Option<string>)

  /** (Indicator Type, Indicator, Gender, NFHS): the India table's duplicate key. */
  function IndiaKeyOf(r: StateRow): IndiaKey {
    (r.itype, r.indicator, r.gender, r.nfhs)
  }

  /** (Indicator Type, Indicator, State, Gender, NFHS): the state table's duplicate key. */
  function StateKeyOf(r: StateRow): StateKey {
    (r.itype, r.indicator, r.state, r.gender, r.nfhs)
  }

  // ---------------------------------------------------------------- India sheet

  /** `drop(0)`: the first row (a sub-header) is dropped; an empty sheet has no label 0. */
  function DropHeaderRow(rows: seq<IndiaRow>): (r: Result<seq<IndiaRow>>)
    ensures r.Err? <==> rows == []
    ensures r.Ok? ==> r.value == rows[1..] && |r.value| == |rows| - 1
  {
    if rows == [] then Err(KeyError) else Ok(rows[1..])
  }

  /** The NFHS-4 column as rows of its own: Total only, State "India", NFHS and Year missing. */
  function NfhsFourSlice(rows: seq<IndiaRow>): (s: seq<StateRow>)
    ensures |s| == |rows|
    ensures forall i :: 0 <= i < |rows| ==>
              s[i] == StateRow(rows[i].itype, rows[i].indicator, Some("India"), rows[i].gender, None, None, NA, NA, rows[i].nfhs4)
  {
    seq(|rows|, i requires 0 <= i < |rows| =>
      StateRow(rows[i].itype, rows[i].indicator, Some("India"), rows[i].gender, None, None, NA, NA, rows[i].nfhs4))
  }

  /** The sheet without its NFHS-4 column, State set to "India". */
  function IndiaAsStates(rows: seq<IndiaRow>): (s: seq<StateRow>)
    ensures |s| == |rows|
    ensures forall i :: 0 <= i < |rows| ==>
              s[i] == StateRow(rows[i].itype, rows[i].indicator, Some("India"), rows[i].gender, rows[i].nfhs,
                               rows[i].year, rows[i].urban, rows[i].rural, rows[i].total)
  {
    seq(|rows|, i requires 0 <= i < |rows| =>
      StateRow(rows[i].itype, rows[i].indicator, Some("India"), rows[i].gender, rows[i].nfhs,
               rows[i].year, rows[i].urban, rows[i].rural, rows[i].total))
  }

  /** `fillna({"NFHS": "NFHS 4", "Year (give as a period)": "2016"})`, on every row. */
  function FillRound(rows: seq<StateRow>): (s: seq<StateRow>)
    ensures |s| == |rows|
    ensures forall i :: 0 <= i < |rows| ==>
              && s[i].nfhs == Some(OrElse(rows[i].nfhs, "NFHS 4")) && s[i].year == Some(OrElse(rows[i].year, "2016"))
              && s[i] == rows[i].(nfhs := s[i].nfhs, year := s[i].year)
  {
    seq(|rows|, i requires 0 <= i < |rows| =>
      rows[i].(nfhs := Some(OrElse(rows[i].nfhs, "NFHS 4")), year := Some(OrElse(rows[i].year, "2016"))))
  }

  /** The India sheet stacked under its NFHS-4 slice, before the duplicates are dropped. */
  function IndiaStacked(rows: seq<IndiaRow>): seq<StateRow> {
    FillRound(NfhsFourSlice(rows) + IndiaAsStates(rows))
  }

  /** `df_india_45`: the stacked India table with every duplicated (Type, Indicator, Gender, NFHS) dropped. */
  function India45(rows: seq<IndiaRow>): seq<StateRow> {
    DropAllDuplicates(IndiaStacked(rows), IndiaKeyOf)
  }

  /**
   * The stacked table is the NFHS-4 slice, tagged "NFHS 4" and "2016" and
   * carrying the NFHS-4 value as Total, followed by the sheet itself.
   */
  lemma IndiaStackedShape(rows: seq<IndiaRow>, i: nat)
    requires i < |rows|
    ensures |IndiaStacked(rows)| == 2 * |rows|
    ensures IndiaStacked(rows)[i] ==
              StateRow(rows[i].itype, rows[i].indicator, Some("India"), rows[i].gender, Some("NFHS 4"), Some("2016"),
                       NA, NA, rows[i].nfhs4)
    ensures IndiaStacked(rows)[|rows| + i] ==
              StateRow(rows[i].itype, rows[i].indicator, Some("India"), rows[i].gender,
                       Some(OrElse(rows[i].nfhs, "NFHS 4")), Some(OrElse(rows[i].year, "2016")),
                       rows[i].urban, rows[i].rural, rows[i].total)
  {
    var both := NfhsFourSlice(rows) + IndiaAsStates(rows);
    assert both[i] == NfhsFourSlice(rows)[i];
    assert both[|rows| + i] == IndiaAsStates(rows)[i];
  }

  /** After the drop the India key is unique. */
  lemma India45Unique(rows: seq<IndiaRow>)
    ensures UniqueKeys(India45(rows), IndiaKeyOf)
  {
    DropAllDuplicatesUnique(IndiaStacked(rows), IndiaKeyOf);
  }

  /**
   * A sheet row with no NFHS value is filled as "NFHS 4" and so collides with
   * its own NFHS-4 slice row: both are dropped.
   */
  lemma IndiaMissingRoundDropped(rows: seq<IndiaRow>, i: nat)
    requires i < |rows| && rows[i].nfhs.None?
    ensures IndiaStacked(rows)[i] !in India45(rows)
    ensures IndiaStacked(rows)[|rows| + i] !in India45(rows)
  {
    var st := IndiaStacked(rows);
    IndiaStackedShape(rows, i);
    CountTwo(st, IndiaKeyOf, i, |rows| + i);
    assert IndiaKeyOf(st[i]) == IndiaKeyOf(st[|rows| + i]);
  }

  /**
   * When every sheet row names a round other than "NFHS 4" and no two rows
   * share (Type, Indicator, Gender), nothing is dropped: the India table is the
   * whole stacked table.
   */
  lemma India45Complete(rows: seq<IndiaRow>)
    requires forall i :: 0 <= i < |rows| ==> rows[i].nfhs.Some? && rows[i].nfhs != Some("NFHS 4")
    requires forall i, j :: 0 <= i < j < |rows| ==>
               (rows[i].itype, rows[i].indicator, rows[i].gender) != (rows[j].itype, rows[j].indicator, rows[j].gender)
    ensures India45(rows) == IndiaStacked(rows)
  {
    var st := IndiaStacked(rows);
    var n := |rows|;
    forall a, b | 0 <= a < b < |st| ensures IndiaKeyOf(st[a]) != IndiaKeyOf(st[b]) {
      if b < n {
        IndiaStackedShape(rows, a);
        IndiaStackedShape(rows, b);
      } else if a < n {
        IndiaStackedShape(rows, a);
        IndiaStackedShape(rows, b - n);
      } else {
        IndiaStackedShape(rows, a - n);
        IndiaStackedShape(rows, b - n);
      }
    }
    DropAllDuplicatesOfUnique(st, IndiaKeyOf);
  }

  // ---------------------------------------------------------------- states sheet

  /** The rows printed as "missing gender": every row whose five-column key occurs more than once. */
  function StatesReport(rows: seq<StateRow>): seq<StateRow> {
    Duplicated(rows, StateKeyOf)
  }

  /** `drop_duplicates(keep=False)` on the five-column key. */
  function StatesDeduped(rows: seq<StateRow>): seq<StateRow> {
    DropAllDuplicates(rows, StateKeyOf)
  }

  /**
   * The report is exactly what the drop removes: a row is reported iff its key
   * occurs more than once, report and result together are the sheet, and the
   * result's key is unique.
   */
  lemma StatesReportIsRemoved(rows: seq<StateRow>)
    ensures |StatesReport(rows)| + |StatesDeduped(rows)| == |rows|
    ensures multiset(StatesReport(rows)) + multiset(StatesDeduped(rows)) == multiset(rows)
    ensures forall x :: x in StatesReport(rows) <==> x in rows && Count(rows, StateKeyOf, StateKeyOf(x)) >= 2
    ensures UniqueKeys(StatesDeduped(rows), StateKeyOf)
  {
    DuplicatedIsRemoved(rows, StateKeyOf);
    DropAllDuplicatesUnique(rows, StateKeyOf);
  }

  /** `replace({"Gender": {"(?i)(female)": "Female", r"(?i)(\bmale\b)": "Male"}}, regex=True)`, in that order. */
  function NormaliseGender(g: string): string {
    SubWordIgnoreCase(SubIgnoreCase(g, "female", "Female"), "male", "Male", false)
  }

  /** The gender rewrite changes letter case and nothing else. */
  lemma NormaliseGenderKeepsLetters(g: string)
    ensures Lower(NormaliseGender(g)) == Lower(g)
  {
    SubIgnoreCaseKeepsLower(g, "female", "Female");
    SubWordIgnoreCaseKeepsLower(SubIgnoreCase(g, "female", "Female"), "male", "Male", false);
  }

  /** Any spelling of "female" becomes "Female"; the second pattern does not touch the "male" inside it. */
  lemma NormaliseFemale(g: string)
    requires Lower(g) == "female"
    ensures NormaliseGender(g) == "Female"
  {
    assert |g| == 6 && g[..6] == g && g[6..] == [];
    assert SubIgnoreCase(g, "female", "Female") == "Female" + SubIgnoreCase([], "female", "Female");
    var f: string := "Female";
    assert Lower(f[..4]) != "male" by { assert Lower(f[..4])[0] == 'f'; }
    assert IsWordChar(f[0]) && IsWordChar(f[1]);
    assert SubWordIgnoreCase(f, "male", "Male", false) == [f[0]] + SubWordIgnoreCase(f[1..], "male", "Male", true);
    var m := f[1..][1..];
    assert m == "male";
    SubWordIgnoreCaseShort(m, "male", "Male");
    assert SubWordIgnoreCase(f[1..], "male", "Male", true) == [f[1]] + SubWordIgnoreCase(m, "male", "Male", true);
    assert SubIgnoreCase(g, "female", "Female") == f;
    assert [f[0]] + ([f[1]] + m) == f;
  }

  /** Any spelling of "male" becomes "Male". */
  lemma NormaliseMale(g: string)
    requires Lower(g) == "male"
    ensures NormaliseGender(g) == "Male"
  {
    SubIgnoreCaseShort(g, "female", "Female");
    assert |g| == 4 && g[..4] == g && g[4..] == [];
    assert SubWordIgnoreCase(g, "male", "Male", false) == "Male" + SubWordIgnoreCase([], "male", "Male", true);
  }

  /** The gender rewrite applied to one row (a missing gender stays missing). */
  function WithNormalisedGender(r: StateRow): StateRow {
    r.(gender := if r.gender.Some? then Some(NormaliseGender(r.gender.value)) else None)
  }

  /** `df_states` after the report, the drop and the gender rewrite. */
  function StatesClean(rows: seq<StateRow>): (s: seq<StateRow>)
    ensures |s| == |StatesDeduped(rows)|
    ensures forall i :: 0 <= i < |s| ==> s[i] == WithNormalisedGender(StatesDeduped(rows)[i])
  {
    var d := StatesDeduped(rows);
    seq(|d|, i requires 0 <= i < |d| => WithNormalisedGender(d[i]))
  }

  // ---------------------------------------------------------------- union

  /** `replace({"State": {r"(?i)(\bindia\b)": "All India"}}, regex=True)` on one name. */
  function RewriteIndia(s: string): string {
    SubWordIgnoreCase(s, "india", "All India", false)
  }

  lemma RewriteIndiaOfIndia()
    ensures RewriteIndia("India") == "All India"
  {
    var s: string := "India";
    assert Lower(s) == "india" by {
      assert LowerChar('I') == 'i';
    }
    assert s[..5] == s && s[5..] == [];
    assert RewriteIndia(s) == "All India" + SubWordIgnoreCase([], "india", "All India", true);
  }

  /** The rewrite is not idempotent: a name already reading "All India" gets a second "All". */
  lemma RewriteIndiaNotIdempotent()
    ensures RewriteIndia("All India") == "All All India"
  {
    var pat, rep := "india", "All India";
    SubWordSkip("All India", pat, rep, false);
    SubWordSkip("ll India", pat, rep, true);
    SubWordSkip("l India", pat, rep, true);
    SubWordSkip(" India", pat, rep, true);
    RewriteIndiaOfIndia();
  }

  function WithIndiaRewritten(r: StateRow): StateRow {
    r.(state := if r.state.Some? then Some(RewriteIndia(r.state.value)) else None)
  }

  function RewriteStates(rows: seq<StateRow>): (s: seq<StateRow>)
    ensures |s| == |rows| && forall i :: 0 <= i < |rows| ==> s[i] == WithIndiaRewritten(rows[i])
  {
    seq(|rows|, i requires 0 <= i < |rows| => WithIndiaRewritten(rows[i]))
  }

  /** The states table and the India table stacked, "India" rewritten, and the first row per key kept. */
  function Union(states: seq<StateRow>, india: seq<StateRow>): seq<StateRow> {
    KeepFirst(RewriteStates(states + india), StateKeyOf)
  }

  /**
   * The union's five-column key is unique, and where the states sheet and the
   * India sheet share a key the states sheet's row is the one kept.
   */
  lemma UnionKeepsStatesFirst(states: seq<StateRow>, india: seq<StateRow>, i: nat)
    requires i < |Union(states, india)|
    ensures UniqueKeys(Union(states, india), StateKeyOf)
    ensures var x := Union(states, india)[i];
            (exists k :: 0 <= k < |states| && StateKeyOf(WithIndiaRewritten(states[k])) == StateKeyOf(x)) ==>
            x in RewriteStates(states)
  {
    var all := RewriteStates(states + india);
    KeepFirstUnique(all, StateKeyOf);
    KeepFirstIsFirst(all, StateKeyOf, i);
    var x := Union(states, india)[i];
    var j :| 0 <= j < |all| && all[j] == x && forall m :: 0 <= m < j ==> StateKeyOf(all[m]) != StateKeyOf(x);
    if k :| 0 <= k < |states| && StateKeyOf(WithIndiaRewritten(states[k])) == StateKeyOf(x) {
      assert all[k] == WithIndiaRewritten((states + india)[k]);
      assert (states + india)[k] == states[k];
      assert j <= k;
      assert (states + india)[j] == states[j];
      assert RewriteStates(states)[j] == x;
    }
  }

  // ---------------------------------------------------------------- gender fold

  /** `Indicator Type := Indicator Type + " - " + Gender` where Gender is present. */
  function FoldRow(r: StateRow): StateRow
    requires r.gender.Some? ==> r.itype.Some?
  {
    if r.gender.Some? then r.(itype := Some(r.itype.value + " - " + r.gender.value)) else r
  }

  /** The fold over the table; joining a missing type raises `TypeError`. */
  function FoldGender(rows: seq<StateRow>): (r: Result<seq<StateRow>>)
    ensures r.Err? <==> exists x :: x in rows && x.gender.Some? && x.itype.None?
    ensures r.Ok? ==> |r.value| == |rows| && forall i :: 0 <= i < |rows| ==> r.value[i] == FoldRow(rows[i])
  {
    if exists x :: x in rows && x.gender.Some? && x.itype.None? then Err(TypeError)
    else Ok(seq(|rows|, i requires 0 <= i < |rows| => FoldRow(rows[i])))
  }

  /** The joined type determines the type, for a given gender. */
  lemma JoinedTypeCancel(x: string, y: string, g: string)
    ensures x + " - " + g == y + " - " + g ==> x == y
  {
    if x + " - " + g == y + " - " + g {
      assert |x| == |y|;
      assert x == (x + " - " + g)[..|x|] && y == (y + " - " + g)[..|y|];
    }
  }

  /** The fold keeps the five-column key unique: the gender is part of the key and is recoverable from the new type. */
  lemma FoldGenderKeepsUnique(rows: seq<StateRow>)
    requires UniqueKeys(rows, StateKeyOf)
    requires FoldGender(rows).Ok?
    ensures UniqueKeys(FoldGender(rows).value, StateKeyOf)
  {
    var out := FoldGender(rows).value;
    forall i, j | 0 <= i < j < |out| ensures StateKeyOf(out[i]) != StateKeyOf(out[j]) {
      var a, b := rows[i], rows[j];
      assert StateKeyOf(a) != StateKeyOf(b);
      if a.gender.Some? && a.gender == b.gender {
        assert a.itype.Some? && b.itype.Some? by { assert a in rows && b in rows; }
        assert out[i] == FoldRow(a) && out[j] == FoldRow(b);
        JoinedTypeCancel(a.itype.value, b.itype.value, a.gender.value);
      }
    }
  }

  /** `df_nfhs_345` before the cleaning loop. */
  function Nfhs345(states: seq<StateRow>, india: seq<IndiaRow>): Result<seq<StateRow>> {
    FoldGender(Union(StatesClean(states), India45(india)))
  }

  /** Whatever the sheets hold, a successful table has a unique five-column key. */
  lemma Nfhs345Unique(states: seq<StateRow>, india: seq<IndiaRow>)
    requires Nfhs345(states, india).Ok?
    ensures UniqueKeys(Nfhs345(states, india).value, StateKeyOf)
  {
    var u := Union(StatesClean(states), India45(india));
    KeepFirstUnique(RewriteStates(StatesClean(states) + India45(india)), StateKeyOf);
    FoldGenderKeepsUnique(u);
  }

  /** `groupby(["Indicator Type", "Indicator"], sort=False)`: the distinct present pairs, first appearance first. */
  function IndicatorIndex(rows: seq<StateRow>): (ps: seq<(string, string)>)
    ensures forall i, j :: 0 <= i < j < |ps| ==> ps[i] != ps[j]
    ensures forall p :: p in ps <==> exists r :: r in rows && r.itype == Some(p.0) && r.indicator == Some(p.1)
  {
    UniqueSpec(TypeIndicatorPairs(rows));
    Unique(TypeIndicatorPairs(rows))
  }

  function TypeIndicatorPairs(rows: seq<StateRow>): (ps: seq<(string, string)>)
    ensures forall p :: p in ps <==> exists r :: r in rows && r.itype == Some(p.0) && r.indicator == Some(p.1)
  {
    if rows == [] then []
    else
      var r := rows[0];
      assert forall x :: x in rows <==> x == r || x in rows[1..];
      (if r.itype.Some? && r.indicator.Some? then [(r.itype.value, r.indicator.value)] else [])
        + TypeIndicatorPairs(rows[1..])
  }

  /** `nfhs_345_states`: the distinct states sorted case-insensitively; a missing state makes `str.lower` raise. */
  function Nfhs345States(rows: seq<StateRow>): (r: Result<seq<string>>)
    ensures r.Err? <==> exists x :: x in rows && x.state.None?
    ensures r.Ok? ==> SortedBy(r.value, CaseInsensitiveLe)
    ensures r.Ok? ==> forall i, j :: 0 <= i < j < |r.value| ==> r.value[i] != r.value[j]
    ensures r.Ok? ==> forall s :: s in r.value <==> exists x :: x in rows && x.state == Some(s)
  {
    if exists x :: x in rows && x.state.None? then Err(TypeError)
    else
      var names := StateNames(rows);
      SortedUniqueNames(names);
      Ok(SortCaseInsensitive(Unique(names)))
  }

  /** The distinct names sorted case-insensitively: sorted, without repeats, and holding exactly the names. */
  lemma SortedUniqueNames(names: seq<string>)
    ensures SortedBy(SortCaseInsensitive(Unique(names)), CaseInsensitiveLe)
    ensures var v := SortCaseInsensitive(Unique(names));
            forall i, j :: 0 <= i < j < |v| ==> v[i] != v[j]
    ensures forall s :: s in SortCaseInsensitive(Unique(names)) <==> s in names
  {
    var u := Unique(names);
    UniqueSpec(names);
    var sorted := SortCaseInsensitive(u);
    forall s ensures s in sorted <==> s in u {
      assert s in sorted <==> s in multiset(sorted);
      assert s in u <==> s in multiset(u);
    }
    DistinctPermutation(u, sorted);
  }

  function StateNames(rows: seq<StateRow>): (ns: seq<string>)
    requires forall x :: x in rows ==> x.state.Some?
    ensures forall s :: s in ns <==> exists x :: x in rows && x.state == Some(s)
  {
    if rows == [] then []
    else
      assert forall x :: x in rows <==> x == rows[0] || x in rows[1..];
      [rows[0].state.value] + StateNames(rows[1..])
  }

  /** A permutation of a sequence without repeats has no repeats. */
  lemma DistinctPermutation(a: seq<string>, b: seq<string>)
    requires multiset(a) == multiset(b)
    requires forall i, j :: 0 <= i < j < |a| ==> a[i] != a[j]
    ensures forall i, j :: 0 <= i < j < |b| ==> b[i] != b[j]
  {
    forall x | x in multiset(a) ensures multiset(a)[x] == 1 {
      DistinctOnce(a, x);
    }
    forall i, j | 0 <= i < j < |b| ensures b[i] != b[j] {
      if b[i] == b[j] {
        TwiceCounted(b, i, j);
        assert false;
      }
    }
  }

  // ---------------------------------------------------------------- residence cleaning

  /** The three value columns cleaned in turn. */
  datatype Residence = Urban | Rural | Total

  const Residences: seq<Residence> := [Urban, Rural, Total]

  function Get(col: Residence): StateRow -> Cell {
    match col
    case Urban => (r: StateRow) => r.urban
    case Rural => (r: StateRow) => r.rural
    case Total => (r: StateRow) => r.total
  }

  function Put(col: Residence): (StateRow, Cell) -> StateRow {
    match col
    case Urban => (r: StateRow, c: Cell) => r.(urban := c)
    case Rural => (r: StateRow, c: Cell) => r.(rural := c)
    case Total => (r: StateRow, c: Cell) => r.(total := c)
  }

  lemma ResidenceLens(col: Residence)
    ensures Lens(Get(col), Put(col))
    ensures forall x: StateRow, c: Cell :: StateKeyOf(Put(col)(x, c)) == StateKeyOf(x)
  {}

  /** Updating one residence column leaves the others as they were. */
  lemma ResidenceIndependent(c: Residence, d: Residence)
    requires c != d
    ensures forall x: StateRow, v: Cell :: Get(c)(Put(d)(x, v)) == Get(c)(x)
  {
    match d
    case Urban =>
    case Rural =>
    case Total =>
  }

  /** The table after cleaning the columns `cols`, first to last. */
  function CleanColumns(rows: seq<StateRow>, cols: seq<Residence>, parse: Parser): seq<StateRow>
    decreases |cols|
  {
    if cols == [] then rows
    else
      var n := |cols| - 1;
      CleanColumn(CleanColumns(rows, cols[..n], parse), Get(cols[n]), Put(cols[n]), parse).kept
  }

  /** The reports printed while cleaning the columns `cols`, one per column. */
  function ColumnReports(rows: seq<StateRow>, cols: seq<Residence>, parse: Parser): (rs: seq<Cleaned<StateRow>>)
    ensures |rs| == |cols|
    decreases |cols|
  {
    if cols == [] then []
    else
      var n := |cols| - 1;
      ColumnReports(rows, cols[..n], parse) + [CleanColumn(CleanColumns(rows, cols[..n], parse), Get(cols[n]), Put(cols[n]), parse)]
  }

  /**
   * The loop over Urban, Rural and Total: each pass prints and drops the
   * non-numeric values, casts, and prints and drops the negatives. The reports
   * are returned, one per column.
   */
  method CleanResidences(rows: seq<StateRow>, parse: Parser) returns (out: seq<StateRow>, reports: seq<Cleaned<StateRow>>)
    ensures out == CleanColumns(rows, Residences, parse)
    ensures reports == ColumnReports(rows, Residences, parse)
  {
    out, reports := CleanInTurn(rows, Residences, parse);
  }

  /** Cleans the columns `cols` one after the other, collecting one report per column. */
  method CleanInTurn(rows: seq<StateRow>, cols: seq<Residence>, parse: Parser) returns (out: seq<StateRow>, reports: seq<Cleaned<StateRow>>)
    ensures out == CleanColumns(rows, cols, parse)
    ensures reports == ColumnReports(rows, cols, parse)
  {
    out := rows;
    reports := [];
    var i := 0;
    while i < |cols|
      invariant 0 <= i <= |cols|
      invariant out == CleanColumns(rows, cols[..i], parse)
      invariant reports == ColumnReports(rows, cols[..i], parse)
    {
      var col := cols[i];
      var cleaned := CleanColumn(out, Get(col), Put(col), parse);
      assert cols[..i + 1][..i] == cols[..i];
      reports := reports + [cleaned];
      out := cleaned.kept;
      i := i + 1;
    }
    assert cols[..i] == cols;
  }

  /** Cleaning later columns leaves a cleaned column clean. */
  lemma {:induction false} CleanColumnsAt(rows: seq<StateRow>, cols: seq<Residence>, parse: Parser, c: Residence)
    requires c in cols
    ensures forall x :: x in CleanColumns(rows, cols, parse) ==> CleanCell(Get(c)(x))
    decreases |cols|
  {
    var n := |cols| - 1;
    var pre := CleanColumns(rows, cols[..n], parse);
    var last := cols[n];
    ResidenceLens(last);
    if c == last {
      CleanColumnValues(pre, Get(last), Put(last), parse);
    } else {
      assert c in cols[..n] by {
        var k :| 0 <= k < |cols| && cols[k] == c;
        assert k < n && cols[..n][k] == c;
      }
      CleanColumnsAt(rows, cols[..n], parse, c);
      ResidenceIndependent(c, last);
      CleanColumnPreserves(pre, Get(last), Put(last), parse, (x: StateRow) => CleanCell(Get(c)(x)));
    }
  }

  /** Cleaning keeps the five-column key unique. */
  lemma {:induction false} CleanColumnsUnique(rows: seq<StateRow>, cols: seq<Residence>, parse: Parser)
    requires UniqueKeys(rows, StateKeyOf)
    ensures UniqueKeys(CleanColumns(rows, cols, parse), StateKeyOf)
    decreases |cols|
  {
    if cols != [] {
      var n := |cols| - 1;
      CleanColumnsUnique(rows, cols[..n], parse);
      ResidenceLens(cols[n]);
      CleanColumnKeepsUnique(CleanColumns(rows, cols[..n], parse), Get(cols[n]), Put(cols[n]), parse, StateKeyOf);
    }
  }

  /** What cleaning the columns `cols`, first to last, makes of one row. */
  function CleanRowColumns(x: StateRow, cols: seq<Residence>, parse: Parser): Option<StateRow>
    decreases |cols|
  {
    if cols == [] then Some(x)
    else
      var n := |cols| - 1;
      match CleanRowColumns(x, cols[..n], parse)
      case None => None
      case Some(y) => CleanRow(y, Get(cols[n]), Put(cols[n]), parse)
  }

  /** The column-by-column loop decides row by row. */
  lemma {:induction false} CleanColumnsRowwise(rows: seq<StateRow>, cols: seq<Residence>, parse: Parser)
    ensures CleanColumns(rows, cols, parse) == FilterMap(rows, x => CleanRowColumns(x, cols, parse))
    decreases |cols|
  {
    if cols == [] {
      FilterMapKeepAll(rows, x => CleanRowColumns(x, cols, parse));
    } else {
      var n := |cols| - 1;
      var pre := (x: StateRow) => CleanRowColumns(x, cols[..n], parse);
      var step := (y: StateRow) => CleanRow(y, Get(cols[n]), Put(cols[n]), parse);
      CleanColumnsRowwise(rows, cols[..n], parse);
      ResidenceLens(cols[n]);
      CleanColumnRowwise(CleanColumns(rows, cols[..n], parse), Get(cols[n]), Put(cols[n]), parse);
      FilterMapCompose(rows, pre, step, x => CleanRowColumns(x, cols, parse));
    }
  }

  /**
   * The reference for the Urban/Rural/Total loop, one row at a time: a row is
   * kept exactly when each of the three values is missing or parses to a
   * number at least 0, and it is kept with the three values cast.
   */
  function ResidenceRow(x: StateRow, parse: Parser): Option<StateRow> {
    match (CleanValue(x.urban, parse), CleanValue(x.rural, parse), CleanValue(x.total, parse))
    case (Some(u), Some(r), Some(t)) => Some(x.(urban := u, rural := r, total := t))
    case _ => None
  }

  lemma ResidenceRowIsLoop(x: StateRow, parse: Parser)
    ensures CleanRowColumns(x, Residences, parse) == ResidenceRow(x, parse)
  {
    assert Residences[..2] == [Urban, Rural];
    assert Residences[..2][..1] == [Urban];
    assert [Urban][..0] == [];
  }

  /**
   * The cleaned state table is, in order, the rows whose Urban, Rural and
   * Total are each missing or a number at least 0, cast: so each of the three
   * is missing or non-negative afterwards. This holds for any table; that the
   * five-column key stays unique is `CleanColumnsUnique`.
   */
  lemma ResidencesClean(rows: seq<StateRow>, parse: Parser)
    ensures CleanColumns(rows, Residences, parse) == FilterMap(rows, x => ResidenceRow(x, parse))
    ensures forall x :: x in CleanColumns(rows, Residences, parse) ==>
              CleanCell(x.urban) && CleanCell(x.rural) && CleanCell(x.total)
  {
    CleanColumnsRowwise(rows, Residences, parse);
    forall x ensures CleanRowColumns(x, Residences, parse) == ResidenceRow(x, parse) {
      ResidenceRowIsLoop(x, parse);
    }
    FilterMapSame(rows, x => CleanRowColumns(x, Residences, parse), x => ResidenceRow(x, parse));
    CleanColumnsAt(rows, Residences, parse, Urban);
    CleanColumnsAt(rows, Residences, parse, Rural);
    CleanColumnsAt(rows, Residences, parse, Total);
  }
}
