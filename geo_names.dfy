/**
 * Reconciling the survey's state and district names with the names of the
 * district boundary features, and the per-state lookups built from the result
 * (pages/__init__.py, district part of the start-up pipeline).
 *
 * A boundary feature carries one label "district,state"; the survey sheet has
 * its own spelling of both names. States are resolved by fuzzy match against
 * the geo states, districts only against the geo districts of the matched
 * state, a fixed list of manual overrides is applied afterwards, and the
 * resolved pair is turned back into a "district,state" join key.
 */
module GeoNames {
  import opened Frames
  import opened Text
  import opened Sorting
  import opened Fuzzy

  /** A boundary feature, reduced to its "district,state" label (geometry is not modelled). */
  datatype Feature = Feature(name: string)

  /** A row of the (Dist, State) table split out of the feature labels. */
  datatype GeoName = GeoName(dist: string, state: Option<string>)

  /** A row of the district sheet, read as text: key columns, then one cell per indicator column. */
  datatype SurveyRow = SurveyRow(state: Option<string>, district: Option<string>, round: Option<string>,
                                 year: Option<string>, values: seq<Cell>)

  /** The resolved geo state of one survey state. */
  datatype StateGeo = StateGeo(state: string, geo: Option<string>)

  /** The resolved geo names of one survey (state, district) pair. */
  datatype DistrictGeo = DistrictGeo(district: string, distGeo: Option<string>, state: string, stateGeo: Option<string>)

  /** A survey (state, district) pair with the label of its boundary feature. */
  datatype GeoJoin = GeoJoin(district: string, geoKey: string, state: string)

  /** The similarity cutoff of every fuzzy match in the pipeline. */
  const Cutoff: real := 0.5

  // ---------------------------------------------------------------- labels

  /**
   * `label.split(",")[0]` and `label.split(",")[1]` (missing when there is no
   * comma). The state part keeps the blank that follows the comma.
   */
  function SplitLabel(text: string): (g: GeoName)
    ensures ',' !in g.dist && StartsWith(text, g.dist)
    ensures g.state.None? <==> ',' !in text
    ensures g.state.None? ==> g.dist == text
    ensures g.state.Some? ==> ',' !in g.state.value && StartsWith(text, g.dist + [','] + g.state.value)
    ensures g.state.Some? ==> var end := |g.dist| + 1 + |g.state.value|;
                              end == |text| || text[end] == ','
  {
    var fields := Split(text, ',');
    SplitFirst(text, ',');
    if |fields| > 1 then
      SecondField(text);
      GeoName(fields[0], Some(fields[1]))
    else
      assert text == Join(fields, ',') by { JoinSplit(text, ','); }
      GeoName(fields[0], None)
  }

  /** The second comma field follows the first and its comma, and ends at a comma or at the end. */
  lemma {:induction false} SecondField(text: string)
    requires |Split(text, ',')| > 1
    ensures var fields := Split(text, ',');
            var end := |fields[0]| + 1 + |fields[1]|;
            && ',' !in fields[1]
            && end <= |text|
            && text[..end] == fields[0] + [','] + fields[1]
            && (end == |text| || text[end] == ',')
  {
    var fields := Split(text, ',');
    SplitFirst(text, ',');
    var n0 := |fields[0]|;
    var rest := text[n0 + 1..];
    SplitFirst(rest, ',');
    assert fields[1] == Split(rest, ',')[0] by {
      assert fields[1..][0] == Split(rest, ',')[0];
    }
    var n1 := |fields[1]|;
    assert text[..n0] == fields[0];
    assert rest[..n1] == fields[1];
    assert text[..n0 + 1 + n1] == text[..n0] + [text[n0]] + rest[..n1] by {
      assert text[..n0 + 1 + n1] == text[..n0 + 1] + text[n0 + 1..][..n1];
    }
    if ',' !in rest {
      assert Split(rest, ',') == [rest] by { JoinSplit(rest, ','); }
    }
  }

  /** The join key "district,state", with "N/A" standing for a missing side. */
  function JoinKey(dist: Option<string>, state: Option<string>): string {
    OrElse(dist, "N/A") + "," + OrElse(state, "N/A")
  }

  /** A label with exactly one comma is rebuilt by the join key of its own split. */
  lemma LabelKeyRoundTrip(text: string)
    requires |Split(text, ',')| == 2
    ensures JoinKey(Some(SplitLabel(text).dist), SplitLabel(text).state) == text
  {
    var fields := Split(text, ',');
    JoinSplit(text, ',');
    assert Join(fields, ',') == fields[0] + [','] + fields[1];
  }

  /** Both sides of a join key come back out of it when neither contains a comma. */
  lemma JoinKeySplit(dist: Option<string>, state: Option<string>)
    requires ',' !in OrElse(dist, "N/A") && ',' !in OrElse(state, "N/A")
    ensures Split(JoinKey(dist, state), ',') == [OrElse(dist, "N/A"), OrElse(state, "N/A")]
  {
    var fields := [OrElse(dist, "N/A"), OrElse(state, "N/A")];
    SplitJoin(fields, ',');
    assert Join(fields, ',') == JoinKey(dist, state);
  }

  /** The (Dist, State) table of the boundary features, in feature order. */
  function GeoNames(features: seq<Feature>): (t: seq<GeoName>)
    ensures |t| == |features|
    ensures forall i :: 0 <= i < |t| ==> t[i] == SplitLabel(features[i].name)
  {
    seq(|features|, i requires 0 <= i < |features| => SplitLabel(features[i].name))
  }

  // ---------------------------------------------------------------- survey names

  const StateFixes: map<string, string> :=
    map["WB" := "West Bengal", "TR" := "Tripura", "UTTAR PRADESH" := "Uttar Pradesh", "UTTARAKHAND" := "Uttarakhand"]

  const DistrictFixes: map<string, string> := map["Tue" := "Mon"]

  /** The exact-value spelling fixes applied to the State and District name columns. */
  function FixSurveyRow(r: SurveyRow): (f: SurveyRow)
    ensures f.state.Some? && f.state.value in StateFixes.Values ==> r.state.Some?
    ensures r.state.Some? && r.state.value in StateFixes ==> f.state == Some(StateFixes[r.state.value])
    ensures f.district == (if r.district == Some("Tue") then Some("Mon") else r.district)
    ensures r.state.None? || r.state.value !in StateFixes ==> f.state == r.state
    ensures f.round == r.round && f.year == r.year && f.values == r.values
  {
    r.(state := ReplaceExact(r.state, StateFixes), district := ReplaceExact(r.district, DistrictFixes))
  }

  /** Fixing a fixed row changes nothing: no fix produces a name that is fixed again. */
  lemma {:induction false} FixSurveyRowIdempotent(r: SurveyRow)
    ensures FixSurveyRow(FixSurveyRow(r)) == FixSurveyRow(r)
  {
    ReplaceExactIdempotent(r.state, StateFixes);
    ReplaceExactIdempotent(r.district, DistrictFixes);
  }

  /** The (State, District name) pairs of the rows where both are present, in row order. */
  function PresentPairs(rows: seq<SurveyRow>): (ps: seq<(string, string)>)
    ensures forall p :: p in ps <==> exists r :: r in rows && r.state == Some(p.0) && r.district == Some(p.1)
  {
    if rows == [] then []
    else
      var r := rows[0];
      var rest := PresentPairs(rows[1..]);
      assert forall x :: x in rows <==> x == r || x in rows[1..];
      if r.state.Some? && r.district.Some? then [(r.state.value, r.district.value)] + rest else rest
  }

  /** `groupby(["State", "District name"], sort=False)`: the distinct present pairs, first appearance first. */
  function StateDistrictPairs(rows: seq<SurveyRow>): (ps: seq<(string, string)>)
    ensures forall i, j :: 0 <= i < j < |ps| ==> ps[i] != ps[j]
    ensures forall p :: p in ps <==> exists r :: r in rows && r.state == Some(p.0) && r.district == Some(p.1)
  {
    UniqueSpec(PresentPairs(rows));
    Unique(PresentPairs(rows))
  }

  /** `data_states`: the distinct states of the pairs, first appearance first. */
  function DataStates(pairs: seq<(string, string)>): (ss: seq<string>)
    ensures forall i, j :: 0 <= i < j < |ss| ==> ss[i] != ss[j]
    ensures forall s :: s in ss <==> exists p :: p in pairs && p.0 == s
  {
    var firsts := seq(|pairs|, i requires 0 <= i < |pairs| => pairs[i].0);
    UniqueSpec(firsts);
    forall s ensures s in firsts <==> exists p :: p in pairs && p.0 == s {
      if s in firsts {
        var i :| 0 <= i < |firsts| && firsts[i] == s;
        assert pairs[i] in pairs;
      }
      if exists p :: p in pairs && p.0 == s {
        var p :| p in pairs && p.0 == s;
        var i :| 0 <= i < |pairs| && pairs[i] == p;
        assert firsts[i] == s;
      }
    }
    Unique(firsts)
  }

  /** `geo_states`: the distinct present states of the geo table, first appearance first. */
  function GeoStates(geo: seq<GeoName>): (ss: seq<string>)
    ensures forall i, j :: 0 <= i < j < |ss| ==> ss[i] != ss[j]
    ensures forall s :: s in ss <==> exists g :: g in geo && g.state == Some(s)
  {
    var present := PresentStates(geo);
    UniqueSpec(present);
    Unique(present)
  }

  function PresentStates(geo: seq<GeoName>): (ss: seq<string>)
    ensures forall s :: s in ss <==> exists g :: g in geo && g.state == Some(s)
  {
    if geo == [] then []
    else
      assert forall x :: x in geo <==> x == geo[0] || x in geo[1..];
      (if geo[0].state.Some? then [geo[0].state.value] else []) + PresentStates(geo[1..])
  }

  // ---------------------------------------------------------------- states

  /** The fuzzy step: each survey state, lower-cased, against the geo states. */
  function FuzzyStateTable(dataStates: seq<string>, geoStates: seq<string>, sim: Similarity): (t: seq<StateGeo>)
    ensures |t| == |dataStates|
    ensures forall i :: 0 <= i < |t| ==> t[i].state == dataStates[i]
    ensures forall i :: 0 <= i < |t| ==> IsCloseMatch(Lower(dataStates[i]), geoStates, Cutoff, sim, t[i].geo)
  {
    seq(|dataStates|, i requires 0 <= i < |dataStates| =>
      StateGeo(dataStates[i], CloseMatch(Lower(dataStates[i]), geoStates, Cutoff, sim)))
  }

  /** The states whose geo name is set by hand, whatever the fuzzy step found. */
  const StateOverrides: map<string, string> :=
    map["D & D" := " Daman and Diu", "DNH" := " Dadra and Nagar Haveli"]

  /** The manual state overrides: they win, and no other row changes. */
  function ApplyStateOverrides(t: seq<StateGeo>): (r: seq<StateGeo>)
    ensures |r| == |t|
    ensures forall i :: 0 <= i < |r| ==> r[i].state == t[i].state
    ensures forall i :: 0 <= i < |r| && t[i].state in StateOverrides ==> r[i].geo == Some(StateOverrides[t[i].state])
    ensures forall i :: 0 <= i < |r| && t[i].state !in StateOverrides ==> r[i] == t[i]
  {
    seq(|t|, i requires 0 <= i < |t| =>
      if t[i].state in StateOverrides then t[i].(geo := Some(StateOverrides[t[i].state])) else t[i])
  }

  /** `state_geo_df`. */
  function StateGeoTable(dataStates: seq<string>, geoStates: seq<string>, sim: Similarity): seq<StateGeo> {
    ApplyStateOverrides(FuzzyStateTable(dataStates, geoStates, sim))
  }

  /**
   * Every survey state gets its override when it has one, and otherwise the geo
   * state difflib picks for its lower-cased name (or none when no geo state
   * reaches the cutoff).
   */
  lemma StateGeoTableSpec(dataStates: seq<string>, geoStates: seq<string>, sim: Similarity, i: nat)
    requires i < |dataStates|
    ensures |StateGeoTable(dataStates, geoStates, sim)| == |dataStates|
    ensures StateGeoTable(dataStates, geoStates, sim)[i].state == dataStates[i]
    ensures dataStates[i] in StateOverrides ==>
              StateGeoTable(dataStates, geoStates, sim)[i].geo == Some(StateOverrides[dataStates[i]])
    ensures dataStates[i] !in StateOverrides ==>
              IsCloseMatch(Lower(dataStates[i]), geoStates, Cutoff, sim, StateGeoTable(dataStates, geoStates, sim)[i].geo)
  {
    var f := FuzzyStateTable(dataStates, geoStates, sim);
    assert f[i].state == dataStates[i];
  }

  /** The State column of the state table. */
  function StatesOf(t: seq<StateGeo>): (ss: seq<string>)
    ensures |ss| == |t| && forall i :: 0 <= i < |t| ==> ss[i] == t[i].state
  {
    seq(|t|, i requires 0 <= i < |t| => t[i].state)
  }

  /** `state_geo_df[state_geo_df.State == s].State_geo.values[0]`. */
  function GeoOf(t: seq<StateGeo>, s: string): (g: Option<string>)
    requires s in StatesOf(t)
  {
    if t[0].state == s then t[0].geo
    else
      assert StatesOf(t) == [t[0].state] + StatesOf(t[1..]);
      GeoOf(t[1..], s)
  }

  /** With distinct states the lookup finds the state's own row. */
  lemma {:induction false} GeoOfAt(t: seq<StateGeo>, i: nat)
    requires i < |t|
    requires forall j, k :: 0 <= j < k < |t| ==> t[j].state != t[k].state
    ensures GeoOf(t, t[i].state) == t[i].geo
  {
    if i > 0 {
      assert t[0].state != t[i].state;
      assert t[1..][i - 1] == t[i];
      assert StatesOf(t[1..])[i - 1] == t[i].state;
      GeoOfAt(t[1..], i - 1);
    }
  }

  // ---------------------------------------------------------------- districts

  /** The districts paired with `state`, in pair order. */
  function DistrictsOf(pairs: seq<(string, string)>, state: string): (ds: seq<string>)
    ensures forall d :: d in ds <==> (state, d) in pairs
  {
    if pairs == [] then []
    else
      var rest := DistrictsOf(pairs[1..], state);
      assert forall p :: p in pairs <==> p == pairs[0] || p in pairs[1..];
      if pairs[0].0 == state then [pairs[0].1] + rest else rest
  }

  /** Distinct pairs give distinct districts within one state. */
  lemma {:induction false} DistrictsOfUnique(pairs: seq<(string, string)>, state: string)
    requires forall i, j :: 0 <= i < j < |pairs| ==> pairs[i] != pairs[j]
    ensures forall i, j :: 0 <= i < j < |DistrictsOf(pairs, state)| ==>
              DistrictsOf(pairs, state)[i] != DistrictsOf(pairs, state)[j]
  {
    if pairs != [] {
      var tail := pairs[1..];
      DistrictsOfUnique(tail, state);
    }
  }

  /** `ds_df[ds_df.State == matched].Dist`: a missing matched state equals no geo state. */
  function GeoDistrictsOf(geo: seq<GeoName>, matched: Option<string>): (ds: seq<string>)
    ensures forall d :: d in ds <==> matched.Some? && GeoName(d, matched) in geo
  {
    if geo == [] then []
    else
      var rest := GeoDistrictsOf(geo[1..], matched);
      assert forall g :: g in geo <==> g == geo[0] || g in geo[1..];
      if matched.Some? && geo[0].state == matched then [geo[0].dist] + rest else rest
  }

  /** One state's block of the district table: each district, lower-cased, against its state's geo districts. */
  function MatchStateDistricts(state: string, matched: Option<string>, districts: seq<string>,
                               geoDistricts: seq<string>, sim: Similarity): (rows: seq<DistrictGeo>)
    ensures |rows| == |districts|
    ensures forall i :: 0 <= i < |rows| ==>
              && rows[i].district == districts[i] && rows[i].state == state && rows[i].stateGeo == matched
              && IsCloseMatch(Lower(districts[i]), geoDistricts, Cutoff, sim, rows[i].distGeo)
  {
    seq(|districts|, i requires 0 <= i < |districts| =>
      DistrictGeo(districts[i], CloseMatch(Lower(districts[i]), geoDistricts, Cutoff, sim), state, matched))
  }

  /** The block the loop appends for `state`. */
  function StateBlock(state: string, pairs: seq<(string, string)>, table: seq<StateGeo>,
                      geo: seq<GeoName>, sim: Similarity): seq<DistrictGeo>
    requires state in StatesOf(table)
  {
    var matched := GeoOf(table, state);
    MatchStateDistricts(state, matched, DistrictsOf(pairs, state), GeoDistrictsOf(geo, matched), sim)
  }

  /** The state tables of the loop's first `|states|` iterations, concatenated. */
  function DistrictTable(states: seq<string>, pairs: seq<(string, string)>, table: seq<StateGeo>,
                         geo: seq<GeoName>, sim: Similarity): seq<DistrictGeo>
    requires forall s :: s in states ==> s in StatesOf(table)
    decreases |states|
  {
    if states == [] then []
    else
      var n := |states| - 1;
      assert states[n] in states && forall s :: s in states[..n] ==> s in states;
      DistrictTable(states[..n], pairs, table, geo, sim) + StateBlock(states[n], pairs, table, geo, sim)
  }

  /**
   * The loop over the survey states: for each one, its districts are matched
   * against the geo districts of its matched state, and the block is appended.
   * The blocks are then concatenated, which raises `ValueError` when there are
   * no survey states (`pd.concat` of an empty list).
   */
  method MatchDistricts(dataStates: seq<string>, pairs: seq<(string, string)>, table: seq<StateGeo>,
                        geo: seq<GeoName>, sim: Similarity) returns (res: Result<seq<DistrictGeo>>)
    requires StatesOf(table) == dataStates
    ensures dataStates == [] <==> res == Err(ValueError)
    ensures dataStates != [] ==> res == Ok(DistrictTable(dataStates, pairs, table, geo, sim))
  {
    var out := [];
    var i := 0;
    while i < |dataStates|
      invariant 0 <= i <= |dataStates|
      invariant out == DistrictTable(dataStates[..i], pairs, table, geo, sim)
    {
      var state := dataStates[i];
      var matched := GeoOf(table, state);
      var block := MatchStateDistricts(state, matched, DistrictsOf(pairs, state), GeoDistrictsOf(geo, matched), sim);
      assert dataStates[..i + 1][..i] == dataStates[..i];
      out := out + block;
      i := i + 1;
    }
    assert dataStates[..i] == dataStates;
    res := if dataStates == [] then Err(ValueError) else Ok(out);
  }

  /**
   * A district is only ever matched inside its own state: a matched district is
   * a geo district whose feature lies in the row's matched state, and it reaches
   * the cutoff for the lower-cased survey name.
   */
  lemma {:induction false} DistrictTableWithinState(states: seq<string>, pairs: seq<(string, string)>,
                                                    table: seq<StateGeo>, geo: seq<GeoName>, sim: Similarity)
    requires forall s :: s in states ==> s in StatesOf(table)
    ensures forall r :: r in DistrictTable(states, pairs, table, geo, sim) ==>
              && r.state in states && (r.state, r.district) in pairs
              && r.stateGeo == GeoOf(table, r.state)
              && (r.distGeo.Some? ==>
                    r.stateGeo.Some? && GeoName(r.distGeo.value, r.stateGeo) in geo
                    && sim(Lower(r.district), r.distGeo.value) >= Cutoff)
    decreases |states|
  {
    if states != [] {
      var n := |states| - 1;
      assert states[n] in states && forall s :: s in states[..n] ==> s in states;
      DistrictTableWithinState(states[..n], pairs, table, geo, sim);
      var block := StateBlock(states[n], pairs, table, geo, sim);
      forall r | r in block
        ensures && r.state in states && (r.state, r.district) in pairs
                && r.stateGeo == GeoOf(table, r.state)
                && (r.distGeo.Some? ==>
                      r.stateGeo.Some? && GeoName(r.distGeo.value, r.stateGeo) in geo
                      && sim(Lower(r.district), r.distGeo.value) >= Cutoff)
      {
        var k :| 0 <= k < |block| && block[k] == r;
        assert r.district in DistrictsOf(pairs, states[n]);
      }
    }
  }

  /**
   * Every pair of a listed state gets at most one row, so (State, District name)
   * is a key of the district table when the states are distinct.
   */
  lemma {:induction false} DistrictTableKeys(states: seq<string>, pairs: seq<(string, string)>,
                                             table: seq<StateGeo>, geo: seq<GeoName>, sim: Similarity)
    requires forall s :: s in states ==> s in StatesOf(table)
    requires forall i, j :: 0 <= i < j < |states| ==> states[i] != states[j]
    requires forall i, j :: 0 <= i < j < |pairs| ==> pairs[i] != pairs[j]
    ensures UniqueKeys(DistrictTable(states, pairs, table, geo, sim), PairKey)
    decreases |states|
  {
    if states != [] {
      var n := |states| - 1;
      assert states[n] in states && forall s :: s in states[..n] ==> s in states;
      var pre := DistrictTable(states[..n], pairs, table, geo, sim);
      var block := StateBlock(states[n], pairs, table, geo, sim);
      DistrictTableKeys(states[..n], pairs, table, geo, sim);
      DistrictTableWithinState(states[..n], pairs, table, geo, sim);
      var ds := DistrictsOf(pairs, states[n]);
      DistrictsOfUnique(pairs, states[n]);
      assert UniqueKeys(block, PairKey) by {
        forall i, j | 0 <= i < j < |block| ensures PairKey(block[i]) != PairKey(block[j]) {
          assert block[i].district == ds[i] && block[j].district == ds[j];
        }
      }
      forall x, y | x in pre && y in block ensures PairKey(x) != PairKey(y) {
        var k :| 0 <= k < |block| && block[k] == y;
        assert y.state == states[n];
        var m :| 0 <= m < n && states[m] == x.state;
      }
      UniqueKeysAppend(pre, block, PairKey);
    }
  }

  /** Every pair of a listed state gets a row of the district table. */
  lemma {:induction false} DistrictTableCovers(states: seq<string>, pairs: seq<(string, string)>,
                                               table: seq<StateGeo>, geo: seq<GeoName>, sim: Similarity)
    requires forall s :: s in states ==> s in StatesOf(table)
    ensures forall p :: p in pairs && p.0 in states ==>
              exists r :: r in DistrictTable(states, pairs, table, geo, sim) && PairKey(r) == p
    decreases |states|
  {
    if states != [] {
      var n := |states| - 1;
      assert states[n] in states && forall s :: s in states[..n] ==> s in states;
      var pre := DistrictTable(states[..n], pairs, table, geo, sim);
      var block := StateBlock(states[n], pairs, table, geo, sim);
      DistrictTableCovers(states[..n], pairs, table, geo, sim);
      var ds := DistrictsOf(pairs, states[n]);
      forall p | p in pairs && p.0 in states
        ensures exists r :: r in pre + block && PairKey(r) == p
      {
        if p.0 == states[n] {
          assert p.1 in ds;
          var k :| 0 <= k < |ds| && ds[k] == p.1;
          assert PairKey(block[k]) == p && block[k] in pre + block;
        } else {
          var m :| 0 <= m < |states| && states[m] == p.0;
          assert p.0 in states[..n];
          var r :| r in pre && PairKey(r) == p;
          assert r in pre + block;
        }
      }
    }
  }

  /** The merge key of a district row. */
  function PairKey(r: DistrictGeo): (string, string) {
    (r.state, r.district)
  }

  /** The districts whose geo name is set by hand after the fuzzy step. */
  const DistrictOverrides: map<string, string> := map[
    "D & DNH" := "Dadra & Nagar Haveli",
    "East Godavari" := "East Godavari",
    "East Khasi Hills" := "East Khasi Hills",
    "East Garo Hills" := "East Garo Hills",
    "Imphal East" := "Imphal East",
    "East District" := "East District",
    "Ranga Reddy" := "Ranga Reddy",
    "East Kameng" := "East Kameng",
    "East Siang" := "East Siang",
    "East" := "East",
    "North East" := "North East",
    "South East" := "South East"
  ]

  /**
   * The manual district overrides, selected by district name alone: they win,
   * and no other column or row changes.
   */
  function ApplyDistrictOverrides(rows: seq<DistrictGeo>): (r: seq<DistrictGeo>)
    ensures |r| == |rows|
    ensures forall i :: 0 <= i < |r| ==>
              r[i].district == rows[i].district && r[i].state == rows[i].state && r[i].stateGeo == rows[i].stateGeo
    ensures forall i :: 0 <= i < |r| && rows[i].district in DistrictOverrides ==>
              r[i].distGeo == Some(DistrictOverrides[rows[i].district])
    ensures forall i :: 0 <= i < |r| && rows[i].district !in DistrictOverrides ==> r[i] == rows[i]
  {
    seq(|rows|, i requires 0 <= i < |rows| =>
      if rows[i].district in DistrictOverrides
      then rows[i].(distGeo := Some(DistrictOverrides[rows[i].district]))
      else rows[i])
  }

  /** The join-key column replaces the two geo columns. */
  function WithGeoKeys(rows: seq<DistrictGeo>): (r: seq<GeoJoin>)
    ensures |r| == |rows|
    ensures forall i :: 0 <= i < |r| ==>
              r[i].district == rows[i].district && r[i].state == rows[i].state
              && r[i].geoKey == JoinKey(rows[i].distGeo, rows[i].stateGeo)
  {
    seq(|rows|, i requires 0 <= i < |rows| =>
      GeoJoin(rows[i].district, JoinKey(rows[i].distGeo, rows[i].stateGeo), rows[i].state))
  }

  /** `state_district_geo_df` after the overrides and the join key. */
  method BuildDistrictGeo(dataStates: seq<string>, pairs: seq<(string, string)>, table: seq<StateGeo>,
                          geo: seq<GeoName>, sim: Similarity) returns (res: Result<seq<GeoJoin>>)
    requires StatesOf(table) == dataStates
    ensures dataStates == [] <==> res == Err(ValueError)
    ensures dataStates != [] ==> res == Ok(WithGeoKeys(ApplyDistrictOverrides(DistrictTable(dataStates, pairs, table, geo, sim))))
  {
    var matched := MatchDistricts(dataStates, pairs, table, geo, sim);
    match matched
    case Err(e) => res := Err(e);
    case Ok(rows) => res := Ok(WithGeoKeys(ApplyDistrictOverrides(rows)));
  }

  /**
   * A district matched inside its own state gets exactly the label of the
   * matching feature as its join key, when the label has one comma.
   */
  lemma JoinKeyIsLabel(r: DistrictGeo, f: Feature)
    requires |Split(f.name, ',')| == 2
    requires r.distGeo == Some(SplitLabel(f.name).dist) && r.stateGeo == SplitLabel(f.name).state
    ensures JoinKey(r.distGeo, r.stateGeo) == f.name
  {
    LabelKeyRoundTrip(f.name);
  }

  /** The join key keeps the (State, District name) key of the district table unique. */
  lemma {:induction false} GeoKeysKeepPairs(rows: seq<DistrictGeo>)
    requires UniqueKeys(rows, PairKey)
    ensures UniqueKeys(WithGeoKeys(ApplyDistrictOverrides(rows)), JoinPairKey)
  {
    var out := WithGeoKeys(ApplyDistrictOverrides(rows));
    forall i, j | 0 <= i < j < |out| ensures JoinPairKey(out[i]) != JoinPairKey(out[j]) {
      assert PairKey(rows[i]) != PairKey(rows[j]);
    }
  }

  function JoinPairKey(r: GeoJoin): (string, string) {
    (r.state, r.district)
  }

  // ---------------------------------------------------------------- per-state lookups

  /** `matched_state in label`: the features of one matched state; a missing state raises `TypeError`. */
  function FeaturesOf(features: seq<Feature>, matched: Option<string>): (r: Result<seq<Feature>>)
    ensures r.Err? <==> matched.None? && |features| > 0
    ensures r.Err? ==> r.error == TypeError
    ensures r.Ok? ==> forall f :: f in r.value <==> f in features && Contains(f.name, matched.value)
  {
    if features == [] then Ok([])
    else if matched.None? then Err(TypeError)
    else Ok(Filter(features, (f: Feature) => Contains(f.name, matched.value)))
  }

  /** A feature whose label splits into a district of the matched state is among that state's features. */
  lemma FeatureOfMatchedState(features: seq<Feature>, f: Feature, matched: string)
    requires f in features && SplitLabel(f.name).state == Some(matched)
    ensures FeaturesOf(features, Some(matched)).Ok? && f in FeaturesOf(features, Some(matched)).value
  {
    var g := SplitLabel(f.name);
    var n := |g.dist + [','] + matched|;
    assert f.name == (g.dist + [',']) + matched + f.name[n..];
    ContainsInfix(g.dist + [','], matched, f.name[n..]);
  }

  /** `geo_dict`: the loop filling state → features, stopped by the first state that raises. */
  method BuildGeoDict(dataStates: seq<string>, table: seq<StateGeo>, features: seq<Feature>)
    returns (r: Result<map<string, seq<Feature>>>)
    requires StatesOf(table) == dataStates
    requires forall i, j :: 0 <= i < j < |dataStates| ==> dataStates[i] != dataStates[j]
    ensures r.Err? <==> |features| > 0 && exists i :: 0 <= i < |table| && table[i].geo.None?
    ensures r.Err? ==> r.error == TypeError
    ensures r.Ok? ==> r.value.Keys == set s | s in dataStates
    ensures r.Ok? ==> forall s :: s in dataStates ==> FeaturesOf(features, GeoOf(table, s)) == Ok(r.value[s])
  {
    var dict: map<string, seq<Feature>> := map[];
    var i := 0;
    while i < |dataStates|
      invariant 0 <= i <= |dataStates|
      invariant forall k :: 0 <= k < i ==> |features| == 0 || table[k].geo.Some?
      invariant dict.Keys == set s | s in dataStates[..i]
      invariant forall s :: s in dataStates[..i] ==> FeaturesOf(features, GeoOf(table, s)) == Ok(dict[s])
    {
      var state := dataStates[i];
      var matched := GeoOf(table, state);
      GeoOfAt(table, i);
      var found := FeaturesOf(features, matched);
      if found.Err? {
        return Err(found.error);
      }
      dict := dict[state := found.value];
      assert dataStates[..i + 1] == dataStates[..i] + [state];
      i := i + 1;
    }
    assert dataStates[..i] == dataStates;
    r := Ok(dict);
  }

  /** `district_geo_dict`: each state's rows of the district table, and the whole table under "All India". */
  method BuildDistrictGeoDict(dataStates: seq<string>, rows: seq<GeoJoin>) returns (dict: map<string, seq<GeoJoin>>)
    ensures dict.Keys == (set s | s in dataStates) + {"All India"}
    ensures dict["All India"] == rows
    ensures forall s :: s in dataStates && s != "All India" ==>
              dict[s] == Filter(rows, (r: GeoJoin) => r.state == s)
  {
    dict := map[];
    var i := 0;
    while i < |dataStates|
      invariant 0 <= i <= |dataStates|
      invariant dict.Keys == set s | s in dataStates[..i]
      invariant forall s :: s in dataStates[..i] ==> dict[s] == Filter(rows, (r: GeoJoin) => r.state == s)
    {
      var state := dataStates[i];
      dict := dict[state := Filter(rows, (r: GeoJoin) => r.state == state)];
      assert dataStates[..i + 1] == dataStates[..i] + [state];
      i := i + 1;
    }
    assert dataStates[..i] == dataStates;
    dict := dict["All India" := rows];
  }

  /** A state's table holds exactly the district rows of that state. */
  lemma StateTableExact(rows: seq<GeoJoin>, s: string)
    ensures forall r :: r in Filter(rows, (r: GeoJoin) => r.state == s) <==> r in rows && r.state == s
  {}

  // ---------------------------------------------------------------- option lists

  /** The state dropdown: "All India" and the survey states, sorted case-insensitively. */
  function StateOptions(dataStates: seq<string>): (opts: seq<string>)
    ensures SortedBy(opts, CaseInsensitiveLe)
    ensures multiset(opts) == multiset(["All India"] + dataStates)
  {
    SortCaseInsensitive(["All India"] + dataStates)
  }

  /** The district indicator dropdown: the indicator columns (all columns after the four key columns), sorted case-insensitively. */
  function DistrictKpiOptions(columns: seq<string>): (opts: seq<string>)
    ensures |columns| >= 4 ==> multiset(opts) == multiset(columns[4..])
    ensures |columns| < 4 ==> opts == []
    ensures SortedBy(opts, CaseInsensitiveLe)
  {
    SortCaseInsensitive(if |columns| >= 4 then columns[4..] else [])
  }

  /** Survey state names that differ from the state sheet's spelling. */
  const DistrictStateMatch: map<string, string> := map[
    "Andaman & Nicobar" := "Andaman & Nicobar Islands",
    "DNH" := "Dadra & Nagar Haveli",
    "Maharastra" := "Maharashtra",
    "NCT of Delhi" := "Delhi"
  ]
}
