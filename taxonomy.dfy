/**
 * The correspondence between the district sheet's indicators and the state
 * table's (Indicator Type, Indicator) pairs (pages/__init__.py). The district
 * sheet has two header rows: the indicators are named in the second, and the
 * first, cut at its first "." or ":", gives the domain at the same position
 * (`nfhs_dist_ind_df`). The distinct domains are paired by position with the
 * nineteen state indicator types, and inside each pair every district
 * indicator of the domain is matched by difflib against the state indicators
 * of the paired type; a few rows are then set by hand.
 */
module Taxonomy {
  import opened Frames
  import opened Fuzzy

  /** The separators of `re.split("\.|\:", header)`. */
  predicate IsDomainSep(c: char) {
    c == '.' || c == ':'
  }

  /** `re.split("\.|\:", header)[0]`: the header up to its first "." or ":". */
  function DomainOf(header: string): (d: string)
    ensures d <= header
    ensures forall k :: 0 <= k < |d| ==> !IsDomainSep(d[k])
    ensures |d| < |header| ==> IsDomainSep(header[|d|])
  {
    if header == [] || IsDomainSep(header[0]) then []
    else [header[0]] + DomainOf(header[1..])
  }

  /** A header made of a domain, a separator and anything else has that domain. */
  lemma {:induction false} DomainOfPrefixed(d: string, sep: char, rest: string)
    requires forall k :: 0 <= k < |d| ==> !IsDomainSep(d[k])
    requires IsDomainSep(sep)
    ensures DomainOf(d + [sep] + rest) == d
  {
    if d != [] {
      assert (d + [sep] + rest)[1..] == d[1..] + [sep] + rest;
      DomainOfPrefixed(d[1..], sep, rest);
    }
  }

  /** Taking the domain of a domain changes nothing. */
  lemma {:induction false} DomainOfIdempotent(header: string)
    ensures DomainOf(DomainOf(header)) == DomainOf(header)
  {
    if header != [] && !IsDomainSep(header[0]) {
      DomainOfIdempotent(header[1..]);
      assert DomainOf(header)[1..] == DomainOf(header[1..]);
    }
  }

  /**
   * `columns[4:]`: the headers after State, District name, Round and year; of
   * the second header row these are the indicators (`district_kpi_map`), of
   * the first the domain headers.
   */
  function IndicatorColumns(columns: seq<string>): (kpis: seq<string>)
    ensures |columns| >= 4 ==> kpis == columns[4..]
    ensures |columns| < 4 ==> kpis == []
  {
    if |columns| >= 4 then columns[4..] else []
  }

  /** `ind_domains`: the domain of each header of the first header row, position by position. */
  function DomainColumn(headers: seq<string>): (ds: seq<string>)
    ensures |ds| == |headers|
    ensures forall i :: 0 <= i < |headers| ==> ds[i] == DomainOf(headers[i])
  {
    seq(|headers|, i requires 0 <= i < |headers| => DomainOf(headers[i]))
  }

  /**
   * `nfhs_dist_ind_df`: (ind_domain, district_kpi) rows, the domain of the
   * first header row's i-th header next to the second row's i-th indicator.
   * Building the DataFrame from columns of different lengths raises `ValueError`.
   */
  function DistrictIndicators(headers: seq<string>, kpis: seq<string>): (r: Result<seq<(string, string)>>)
    ensures r.Err? <==> |headers| != |kpis|
    ensures r.Ok? ==> |r.value| == |kpis| && forall i :: 0 <= i < |kpis| ==> r.value[i] == (DomainOf(headers[i]), kpis[i])
  {
    if |headers| != |kpis| then Err(ValueError)
    else
      var ds := DomainColumn(headers);
      Ok(seq(|kpis|, i requires 0 <= i < |kpis| => (ds[i], kpis[i])))
  }

  /** `nfhs_dist_ind_df.ind_domain.unique()`: the district domains in first-appearance order (also the domain dropdown). */
  function DistrictDomains(ind: seq<(string, string)>): (ds: seq<string>)
    ensures forall i, j :: 0 <= i < j < |ds| ==> ds[i] != ds[j]
    ensures forall d :: d in ds <==> d in Firsts(ind)
    ensures forall p :: p in ind ==> p.0 in ds
  {
    var col := Firsts(ind);
    UniqueSpec(col);
    forall p | p in ind ensures p.0 in col {
      var i :| 0 <= i < |ind| && ind[i] == p;
      assert col[i] == p.0;
    }
    Unique(col)
  }

  /** `dom_in_state`: the state indicator types, in the order of the district domains. */
  const DomInState: seq<string> := [
    "Population and Household Profile",
    "Characteristics of Adults (age 15-49 years)",
    "Marriage and Fertility",
    "Current Use of Family Planning Methods (currently married women age 15–49 years)",
    "Unmet Need for Family Planning (currently married women age 15–49 years)",
    "Quality of Family Planning Services",
    "Maternity Care (for last birth in the 5 years before the survey)",
    "Delivery Care (for births in the 5 years before the survey)",
    "Child Vaccinations and Vitamin A Supplementation",
    "Treatment of Childhood Diseases (children under age 5 years)",
    "Child Feeding Practices and Nutritional Status of Children",
    "Nutritional Status of Adults (age 15-49 years)",
    "Anaemia among Children and Adults",
    "Blood Sugar Level among Adults (age 15-49 years) - Female",
    "Blood Sugar Level among Adults (age 15-49 years) - Male",
    "Hypertension among Adults (age 15 years and above) - Female",
    "Hypertension among Adults (age 15 years and above) - Male",
    "Screening for Cancer among Adults (age 30-49 years) - Female",
    "Tobacco Use and Alcohol Consumption among Adults (age 15 years and above)"
  ]

  /**
   * `ind_dom_dist_state_df`: district domain i paired with state type i. A
   * DataFrame built from two columns of different lengths raises `ValueError`.
   */
  function PairDomains(domains: seq<string>, types: seq<string>): (r: Result<seq<(string, string)>>)
    ensures r.Err? <==> |domains| != |types|
    ensures r.Ok? ==> |r.value| == |domains| && forall i :: 0 <= i < |domains| ==> r.value[i] == (domains[i], types[i])
  {
    if |domains| != |types| then Err(ValueError)
    else Ok(seq(|domains|, i requires 0 <= i < |domains| => (domains[i], types[i])))
  }

  /** `query("Dom_in_Dist == @dmn").Dom_in_State.values[0]`: the type of the first row with that domain. */
  function PairedType(pairs: seq<(string, string)>, dmn: string): (t: string)
    requires dmn in Firsts(pairs)
    ensures (dmn, t) in pairs
  {
    if pairs[0].0 == dmn then pairs[0].1
    else
      assert Firsts(pairs) == [pairs[0].0] + Firsts(pairs[1..]);
      PairedType(pairs[1..], dmn)
  }

  /** With distinct domains the lookup returns the domain's own partner. */
  lemma {:induction false} PairedTypeAt(pairs: seq<(string, string)>, i: nat)
    requires i < |pairs|
    requires forall j, k :: 0 <= j < k < |pairs| ==> pairs[j].0 != pairs[k].0
    ensures pairs[i].0 in Firsts(pairs)
    ensures PairedType(pairs, pairs[i].0) == pairs[i].1
  {
    assert Firsts(pairs)[i] == pairs[i].0;
    if i > 0 {
      var tail := pairs[1..];
      assert tail[i - 1] == pairs[i];
      PairedTypeAt(tail, i - 1);
    }
  }

  /** One row of `dist_state_kpi_df`. */
  datatype KpiMatch = KpiMatch(domDist: string, domState: string, kpiDistrict: string, kpiState: Option<string>)

  /** The cutoff of the indicator matching. */
  const KpiCutoff: real := 0.5

  /** `kpi_matched_df` of one domain: each of its indicators with difflib's pick among the paired type's indicators. */
  function MatchDomain(dmn: string, pairs: seq<(string, string)>, ind: seq<(string, string)>,
                       index: seq<(string, string)>, sim: Similarity): seq<KpiMatch>
    requires dmn in Firsts(pairs)
  {
    var t := PairedType(pairs, dmn);
    var inds := Partners(index, t);
    var ks := Partners(ind, dmn);
    seq(|ks|, i requires 0 <= i < |ks| => KpiMatch(dmn, t, ks[i], CloseMatch(ks[i], inds, KpiCutoff, sim)))
  }

  /** The concatenation of the per-domain tables over `domains`. */
  function KpiTable(domains: seq<string>, pairs: seq<(string, string)>, ind: seq<(string, string)>,
                    index: seq<(string, string)>, sim: Similarity): seq<KpiMatch>
    requires forall d :: d in domains ==> d in Firsts(pairs)
    decreases |domains|
  {
    if domains == [] then []
    else
      var n := |domains| - 1;
      assert domains[n] in domains && forall d :: d in domains[..n] ==> d in domains;
      KpiTable(domains[..n], pairs, ind, index, sim) + MatchDomain(domains[n], pairs, ind, index, sim)
  }

  /** The loop over the district domains that fills `kpi_matched_df_list`, concatenated. */
  method MatchKpis(pairs: seq<(string, string)>, ind: seq<(string, string)>, index: seq<(string, string)>, sim: Similarity)
    returns (table: seq<KpiMatch>)
    requires Firsts(pairs) == DistrictDomains(ind)
    ensures table == KpiTable(DistrictDomains(ind), pairs, ind, index, sim)
  {
    var domains := DistrictDomains(ind);
    table := [];
    var i := 0;
    while i < |domains|
      invariant 0 <= i <= |domains|
      invariant table == KpiTable(domains[..i], pairs, ind, index, sim)
    {
      var dmn := domains[i];
      var t := PairedType(pairs, dmn);
      var inds := Partners(index, t);
      var ks := Partners(ind, dmn);
      var matched := seq(|ks|, j requires 0 <= j < |ks| => KpiMatch(dmn, t, ks[j], CloseMatch(ks[j], inds, KpiCutoff, sim)));
      assert domains[..i + 1][..i] == domains[..i];
      table := table + matched;
      i := i + 1;
    }
    assert domains[..i] == domains;
  }

  /**
   * Every matched row stays inside its pair: its (domain, indicator) is a row
   * of `nfhs_dist_ind_df`, its state type is the domain's partner, and its
   * state indicator is difflib's pick (cutoff 0.5, no lower-casing) among the
   * indicators of that type, or missing when none reaches the cutoff.
   */
  lemma {:induction false} KpiTableWithinPair(domains: seq<string>, pairs: seq<(string, string)>, ind: seq<(string, string)>,
                                              index: seq<(string, string)>, sim: Similarity)
    requires forall d :: d in domains ==> d in Firsts(pairs)
    ensures forall r :: r in KpiTable(domains, pairs, ind, index, sim) ==>
              && r.domDist in domains
              && (r.domDist, r.kpiDistrict) in ind
              && r.domState == PairedType(pairs, r.domDist) && (r.domDist, r.domState) in pairs
              && IsCloseMatch(r.kpiDistrict, Partners(index, r.domState), KpiCutoff, sim, r.kpiState)
    decreases |domains|
  {
    if domains != [] {
      var n := |domains| - 1;
      assert domains[n] in domains && forall d :: d in domains[..n] ==> d in domains;
      KpiTableWithinPair(domains[..n], pairs, ind, index, sim);
    }
  }

  /** Every (domain, indicator) row of `nfhs_dist_ind_df` whose domain is listed gets a matched row. */
  lemma {:induction false} KpiTableCovers(domains: seq<string>, pairs: seq<(string, string)>, ind: seq<(string, string)>,
                                          index: seq<(string, string)>, sim: Similarity, p: (string, string))
    requires forall d :: d in domains ==> d in Firsts(pairs)
    requires p in ind && p.0 in domains
    ensures exists r :: r in KpiTable(domains, pairs, ind, index, sim) && r.domDist == p.0 && r.kpiDistrict == p.1
    decreases |domains|
  {
    var n := |domains| - 1;
    assert domains[n] in domains && forall d :: d in domains[..n] ==> d in domains;
    var table := KpiTable(domains, pairs, ind, index, sim);
    if p.0 == domains[n] {
      var block := MatchDomain(domains[n], pairs, ind, index, sim);
      var ks := Partners(ind, domains[n]);
      assert p.1 in ks;
      var i :| 0 <= i < |ks| && ks[i] == p.1;
      assert block[i].domDist == p.0 && block[i].kpiDistrict == p.1;
      assert block[i] in table;
    } else {
      assert p.0 in domains[..n];
      KpiTableCovers(domains[..n], pairs, ind, index, sim, p);
      var r :| r in KpiTable(domains[..n], pairs, ind, index, sim) && r.domDist == p.0 && r.kpiDistrict == p.1;
      assert r in table;
    }
  }

  const Households: string := "Households surveyed"
  const Item49: string := "49. Children age 12-23 months fully vaccinated based on information from either vaccination card or mother's recall11 (%)"
  const Item58: string := "58. Children age 9-35 months who received a vitamin A dose in the last 6 months (%)"
  const Item88: string := "88. Blood sugar level - high or very high (>140 mg/dl) or taking medicine to control blood sugar level23 (%)"
  const Item91: string := "91. Blood sugar level - high or very high (>140 mg/dl) or taking medicine to control blood sugar level23 (%)"
  const Item101: string := "101. Women age 15 years and above who use any kind of tobacco (%)"

  /** The hand-set state indicators, by district indicator: missing means "no state counterpart". */
  const KpiOverrides: map<string, Option<string>> := map[
    Households := None,
    Item49 := None,
    Item58 := None,
    Item88 := Some("Blood sugar level - high (>140 mg/dl) (%)"),
    Item91 := Some("Blood sugar level - high (>140 mg/dl) (%)"),
    Item101 := Some("Women who use any kind of tobacco (%)")
  ]

  /** The `.loc[kpi_district == ..., "kpi_state"] = ...` assignments. */
  function ApplyKpiOverrides(rows: seq<KpiMatch>, overrides: map<string, Option<string>>): (r: seq<KpiMatch>)
    ensures |r| == |rows|
    ensures forall i :: 0 <= i < |r| ==> r[i].(kpiState := rows[i].kpiState) == rows[i]
    ensures forall i :: 0 <= i < |r| && rows[i].kpiDistrict in overrides ==> r[i].kpiState == overrides[rows[i].kpiDistrict]
    ensures forall i :: 0 <= i < |r| && rows[i].kpiDistrict !in overrides ==> r[i] == rows[i]
  {
    seq(|rows|, i requires 0 <= i < |rows| =>
      if rows[i].kpiDistrict in overrides then rows[i].(kpiState := overrides[rows[i].kpiDistrict]) else rows[i])
  }

  /** The fixed rows: households and items 49 and 58 have no counterpart, items 88, 91 and 101 a fixed one. */
  lemma KpiOverridesForced(rows: seq<KpiMatch>, i: nat)
    requires i < |rows|
    ensures var k, v := rows[i].kpiDistrict, ApplyKpiOverrides(rows, KpiOverrides)[i].kpiState;
            && (k == Households || k == Item49 || k == Item58 ==> v == None)
            && (k == Item88 || k == Item91 ==> v == Some("Blood sugar level - high (>140 mg/dl) (%)"))
            && (k == Item101 ==> v == Some("Women who use any kind of tobacco (%)"))
  {}

  /** Applying the hand-set rows twice is applying them once. */
  lemma ApplyKpiOverridesIdempotent(rows: seq<KpiMatch>, overrides: map<string, Option<string>>)
    ensures ApplyKpiOverrides(ApplyKpiOverrides(rows, overrides), overrides) == ApplyKpiOverrides(rows, overrides)
  {
    var once := ApplyKpiOverrides(rows, overrides);
    var twice := ApplyKpiOverrides(once, overrides);
    assert |twice| == |once|;
    forall i | 0 <= i < |once| ensures twice[i] == once[i] {
      assert once[i].kpiDistrict == rows[i].kpiDistrict;
    }
  }

  /**
   * `dist_state_kpi_df`: pair the district domains of `nfhs_dist_ind_df` with
   * the state types (`dom_in_state`, that is DomInState), match the indicators
   * domain by domain, then apply the hand-set rows (KpiOverrides). With no
   * domain at all there is nothing to concatenate, and `pd.concat` raises
   * ValueError.
   */
  function DistStateKpi(ind: seq<(string, string)>, types: seq<string>, overrides: map<string, Option<string>>,
                        index: seq<(string, string)>, sim: Similarity): (r: Result<seq<KpiMatch>>)
    ensures r.Err? <==> |DistrictDomains(ind)| != |types| || ind == []
    ensures r.Err? ==> r.error == ValueError
  {
    var domains := DistrictDomains(ind);
    DomainsOfNonEmpty(ind);
    if domains == [] then Err(ValueError)
    else
      match PairDomains(domains, types)
      case Err(e) => Err(e)
      case Ok(pairs) =>
        assert Firsts(pairs) == domains;
        Ok(ApplyKpiOverrides(KpiTable(domains, pairs, ind, index, sim), overrides))
  }

  /** Some indicator gives some domain. */
  lemma DomainsOfNonEmpty(ind: seq<(string, string)>)
    ensures ind != [] ==> DistrictDomains(ind) != []
  {
    if ind != [] {
      assert ind[0].0 in DistrictDomains(ind);
    }
  }

  /** The pairing table of the district domains, when there are as many as state types. */
  function DomainPairs(ind: seq<(string, string)>, types: seq<string>): (pairs: seq<(string, string)>)
    requires |DistrictDomains(ind)| == |types|
    ensures Firsts(pairs) == DistrictDomains(ind)
    ensures forall i :: 0 <= i < |pairs| ==> pairs[i] == (DistrictDomains(ind)[i], types[i])
  {
    PairDomains(DistrictDomains(ind), types).value
  }

  /** A finished table is the matched table with the hand-set rows applied. */
  lemma DistStateKpiOk(ind: seq<(string, string)>, types: seq<string>, overrides: map<string, Option<string>>,
                       index: seq<(string, string)>, sim: Similarity)
    requires DistStateKpi(ind, types, overrides, index, sim).Ok?
    ensures |DistrictDomains(ind)| == |types| && ind != []
    ensures DistStateKpi(ind, types, overrides, index, sim).value
            == ApplyKpiOverrides(KpiTable(DistrictDomains(ind), DomainPairs(ind, types), ind, index, sim), overrides)
  {
  }

  /** The hand-set rows change no row's domain or district indicator. */
  lemma OverridesKeepIndicators(rows: seq<KpiMatch>, overrides: map<string, Option<string>>, d: string, k: string)
    ensures (exists r :: r in rows && r.domDist == d && r.kpiDistrict == k)
            <==> (exists r :: r in ApplyKpiOverrides(rows, overrides) && r.domDist == d && r.kpiDistrict == k)
  {
    var out := ApplyKpiOverrides(rows, overrides);
    if r :| r in rows && r.domDist == d && r.kpiDistrict == k {
      var i :| 0 <= i < |rows| && rows[i] == r;
      assert out[i] in out && out[i].domDist == d && out[i].kpiDistrict == k;
    }
    if r :| r in out && r.domDist == d && r.kpiDistrict == k {
      var i :| 0 <= i < |out| && out[i] == r;
      assert rows[i] in rows && rows[i].domDist == d && rows[i].kpiDistrict == k;
    }
  }

  /**
   * The finished table has a row for exactly the (domain, indicator) rows of
   * `nfhs_dist_ind_df`: every district indicator is matched under the domain
   * the first header row gives it, and under no other.
   */
  lemma DistStateKpiCovers(ind: seq<(string, string)>, types: seq<string>, overrides: map<string, Option<string>>,
                           index: seq<(string, string)>, sim: Similarity)
    requires DistStateKpi(ind, types, overrides, index, sim).Ok?
    ensures forall d, k :: (d, k) in ind <==>
              exists r :: r in DistStateKpi(ind, types, overrides, index, sim).value && r.domDist == d && r.kpiDistrict == k
  {
    var domains := DistrictDomains(ind);
    var pairs := DomainPairs(ind, types);
    var pre := KpiTable(domains, pairs, ind, index, sim);
    DistStateKpiOk(ind, types, overrides, index, sim);
    forall d, k ensures (d, k) in ind <==> exists r :: r in ApplyKpiOverrides(pre, overrides) && r.domDist == d && r.kpiDistrict == k {
      OverridesKeepIndicators(pre, overrides, d, k);
      if (d, k) in ind {
        KpiTableCovers(domains, pairs, ind, index, sim, (d, k));
      }
      if r :| r in pre && r.domDist == d && r.kpiDistrict == k {
        KpiTableWithinPair(domains, pairs, ind, index, sim);
      }
    }
  }

  /**
   * Each row of the finished table stays inside its positional pair: its
   * domain is district domain i, paired with its indicator in
   * `nfhs_dist_ind_df`, and its state type is `dom_in_state[i]`; a hand-set
   * row carries its fixed value, and any other row difflib's pick among the
   * indicators of that state type.
   */
  lemma DistStateKpiWithinPair(ind: seq<(string, string)>, types: seq<string>, overrides: map<string, Option<string>>,
                               index: seq<(string, string)>, sim: Similarity)
    requires DistStateKpi(ind, types, overrides, index, sim).Ok?
    ensures forall r :: r in DistStateKpi(ind, types, overrides, index, sim).value ==>
              && (r.domDist, r.kpiDistrict) in ind
              && (exists i :: 0 <= i < |types| && DistrictDomains(ind)[i] == r.domDist && types[i] == r.domState)
              && (r.kpiDistrict in overrides ==> r.kpiState == overrides[r.kpiDistrict])
              && (r.kpiDistrict !in overrides ==>
                    IsCloseMatch(r.kpiDistrict, Partners(index, r.domState), KpiCutoff, sim, r.kpiState))
  {
    var domains := DistrictDomains(ind);
    var pairs := DomainPairs(ind, types);
    var pre := KpiTable(domains, pairs, ind, index, sim);
    var table := ApplyKpiOverrides(pre, overrides);
    DistStateKpiOk(ind, types, overrides, index, sim);
    KpiTableWithinPair(domains, pairs, ind, index, sim);
    forall r | r in table
      ensures (r.domDist, r.kpiDistrict) in ind
      ensures exists i :: 0 <= i < |types| && domains[i] == r.domDist && types[i] == r.domState
      ensures r.kpiDistrict !in overrides ==>
                IsCloseMatch(r.kpiDistrict, Partners(index, r.domState), KpiCutoff, sim, r.kpiState)
    {
      var j :| 0 <= j < |table| && table[j] == r;
      assert pre[j] in pre;
      PairedRow(domains, types, pairs, pre[j]);
    }
  }

  /** A row whose (domain, type) is in the positional pairing has its domain at some position i and its type at the same one. */
  lemma PairedRow(domains: seq<string>, types: seq<string>, pairs: seq<(string, string)>, p: KpiMatch)
    requires |pairs| == |domains| == |types|
    requires forall i :: 0 <= i < |pairs| ==> pairs[i] == (domains[i], types[i])
    requires (p.domDist, p.domState) in pairs
    ensures exists i :: 0 <= i < |types| && domains[i] == p.domDist && types[i] == p.domState
  {
    var i :| 0 <= i < |pairs| && pairs[i] == (p.domDist, p.domState);
  }
}
