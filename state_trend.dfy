/**
 * The state trend page (pages/state_trend.py): the states tree numbered over
 * `nfhs_345_states`, the indicator tree grouped by indicator type, the
 * decoding of the checked keys and the two button labels, the guard against
 * empty or oversized selections, and the rows the trend chart plots. The
 * figure itself (line shapes, legend, wrapped indicator names) is not
 * modelled.
 *
 * `states_kpi_index` and `nfhs_345_ind_types` are inputs: the index is given as
 * its items in insertion order, keys "i-j" to indicator names.
 */
module StateTrend {
  import opened Frames
  import opened Text
  import opened Sorting
  import opened Trees
  import opened Cleaning
  import opened StateTables

  // ---------------------------------------------------------------- states tree

  /** Checking the child at position `i` of the states tree selects the i-th state of `nfhs_345_states`. */
  lemma StateChildDecodes(states: seq<string>, i: nat)
    requires i < |states|
    ensures IsStateKey(ChildKey(i))
    ensures RemovePrefix(ChildKey(i), "0-") in IndexByPosition(states)
    ensures IndexByPosition(states)[RemovePrefix(ChildKey(i), "0-")] == states[i]
  {
    ChildKeyRemovePrefix(i);
  }

  // ---------------------------------------------------------------- indicator tree

  /** `states_kpi_index.items()`: keys "i-j" to indicator names, in insertion order. */
  type KpiItems = seq<(string, string)>

  /** A dict has each key once. */
  predicate DistinctKeys(items: KpiItems) {
    forall i, j :: 0 <= i < j < |items| ==> items[i].0 != items[j].0
  }

  /** `states_kpi_index[k]`: the indicator under key `k`, if any. */
  function KpiLookup(items: KpiItems, k: string): (r: Option<string>)
    ensures r.None? <==> forall j :: 0 <= j < |items| ==> items[j].0 != k
    ensures r.Some? ==> exists j :: 0 <= j < |items| && items[j] == (k, r.value)
  {
    if items == [] then None
    else if items[0].0 == k then Some(items[0].1)
    else
      assert forall j :: 1 <= j < |items| ==> items[j] == items[1..][j - 1];
      KpiLookup(items[1..], k)
  }

  /** In a dict the lookup of an entry's key gives that entry's value. */
  lemma KpiLookupAt(items: KpiItems, j: nat)
    requires DistinctKeys(items) && j < |items|
    ensures KpiLookup(items, items[j].0) == Some(items[j].1)
  {
    var r := KpiLookup(items, items[j].0);
    var m :| 0 <= m < |items| && items[m] == (items[j].0, r.value);
    assert m == j;
  }

  /** `k.split("-")[0] == str(i)`: the entry belongs to indicator type `i`. */
  function OfType(i: nat): ((string, string)) -> bool {
    (e: (string, string)) => Split(e.0, '-')[0] == NatToString(i)
  }

  /** A leaf of the indicator tree: titled with the indicator, keyed "0-" + k. */
  function Leaf(e: (string, string)): TreeNode {
    TreeNode(e.1, "0-" + e.0)
  }

  /** The children of type `i`: one leaf per index entry of that type, in index order. */
  function KpiChildren(items: KpiItems, i: nat): (cs: seq<TreeNode>)
    ensures forall c :: c in cs <==> exists e :: e in items && OfType(i)(e) && c == Leaf(e)
  {
    var es := Filter(items, OfType(i));
    var cs := seq(|es|, k requires 0 <= k < |es| => Leaf(es[k]));
    assert forall c :: c in cs ==> exists e :: e in es && c == Leaf(e);
    assert forall e :: e in es ==> Leaf(e) in cs by {
      forall e | e in es ensures Leaf(e) in cs {
        var k :| 0 <= k < |es| && es[k] == e;
        assert cs[k] == Leaf(e);
      }
    }
    cs
  }

  /** A branch of the indicator tree: an indicator type and its leaves. */
  datatype KpiBranch = KpiBranch(title: string, key: string, children: seq<TreeNode>)

  /** `kpi_selection_tree["children"]`: one branch per indicator type, keyed "0-" + str(i). */
  function KpiTree(types: seq<string>, items: KpiItems): (bs: seq<KpiBranch>)
    ensures |bs| == |types|
    ensures forall i :: 0 <= i < |bs| ==> bs[i].title == types[i] && bs[i].key == ChildKey(i)
    ensures forall i :: 0 <= i < |bs| ==> forall c :: c in bs[i].children <==> exists e :: e in items && OfType(i)(e) && c == Leaf(e)
  {
    seq(|types|, i requires 0 <= i < |types| => KpiBranch(types[i], ChildKey(i), KpiChildren(items, i)))
  }

  /** A leaf key "0-" + k of an index key "i-j" splits in three and gives `k` back. */
  lemma LeafKeySplit(k: string)
    requires |Split(k, '-')| == 2
    ensures Split("0-" + k, '-') == ["0"] + Split(k, '-')
    ensures RemovePrefix("0-" + k, "0-") == k
  {
    var s := "0-" + k;
    assert s[0] == '0' && s[1] == '-';
    assert '-' !in s[..1];
    assert IndexOf(s, '-') == 1;
    assert s[..1] == "0" && s[2..] == k;
    RemovePrefixPrepended("0-", k);
  }

  // ---------------------------------------------------------------- selectors

  /** The root of the states tree ("All India"'s parent, key "0") is skipped. */
  predicate IsStateKey(k: string) {
    k != RootKey
  }

  /** Only keys with three dash-separated parts, "0-i-j", are indicator leaves. */
  predicate IsKpiKey(k: string) {
    |Split(k, '-')| == 3
  }

  /** `states_index[k.removeprefix("0-")]` for each key in turn; the first missing key raises. */
  function LookupStates(keys: seq<string>, idx: map<string, string>): (r: Result<seq<string>>)
    ensures r.Err? <==> exists i :: 0 <= i < |keys| && RemovePrefix(keys[i], "0-") !in idx
    ensures r.Ok? ==> |r.value| == |keys|
    ensures r.Ok? ==> forall i :: 0 <= i < |keys| ==> r.value[i] == idx[RemovePrefix(keys[i], "0-")]
  {
    if exists i :: 0 <= i < |keys| && RemovePrefix(keys[i], "0-") !in idx then Err(KeyError)
    else Ok(seq(|keys|, i requires 0 <= i < |keys| => idx[RemovePrefix(keys[i], "0-")]))
  }

  /** `states_kpi_index[k.removeprefix("0-")]` for each key in turn; the first missing key raises. */
  function LookupKpis(keys: seq<string>, items: KpiItems): (r: Result<seq<string>>)
    ensures r.Err? <==> exists i :: 0 <= i < |keys| && KpiLookup(items, RemovePrefix(keys[i], "0-")).None?
    ensures r.Ok? ==> |r.value| == |keys|
    ensures r.Ok? ==> forall i :: 0 <= i < |keys| ==> Some(r.value[i]) == KpiLookup(items, RemovePrefix(keys[i], "0-"))
  {
    if exists i :: 0 <= i < |keys| && KpiLookup(items, RemovePrefix(keys[i], "0-")).None? then Err(KeyError)
    else Ok(seq(|keys|, i requires 0 <= i < |keys| => KpiLookup(items, RemovePrefix(keys[i], "0-")).value))
  }

  /** The selected states of the checked keys of the states tree. */
  function SelectedStates(checked: seq<string>, states: seq<string>): Result<seq<string>> {
    LookupStates(Filter(checked, IsStateKey), IndexByPosition(states))
  }

  /** The selected indicators of the checked keys of the indicator tree. */
  function SelectedKpis(checked: seq<string>, items: KpiItems): Result<seq<string>> {
    LookupKpis(Filter(checked, IsKpiKey), items)
  }

  /**
   * Keys checked in the states tree (the root and children) decode without
   * error, and the selection is exactly the states whose child is checked.
   */
  lemma StatesTreeDecodes(states: seq<string>, checked: seq<string>)
    requires forall k :: k in checked ==> k == RootKey || exists i :: 0 <= i < |states| && k == ChildKey(i)
    ensures SelectedStates(checked, states).Ok?
    ensures forall s :: s in SelectedStates(checked, states).value <==>
              exists i :: 0 <= i < |states| && ChildKey(i) in checked && s == states[i]
  {
    var keys := Filter(checked, IsStateKey);
    assert forall k :: k in keys ==> exists i :: 0 <= i < |states| && k == ChildKey(i);
    StateKeysDecode(states, keys);
    var r := LookupStates(keys, IndexByPosition(states));
    forall s ensures s in r.value <==> exists i :: 0 <= i < |states| && ChildKey(i) in checked && s == states[i] {
      if s in r.value {
        var n :| 0 <= n < |keys| && r.value[n] == s;
        assert keys[n] in keys;
        var i :| 0 <= i < |states| && keys[n] == ChildKey(i);
      }
      if exists i :: 0 <= i < |states| && ChildKey(i) in checked && s == states[i] {
        var i :| 0 <= i < |states| && ChildKey(i) in checked && s == states[i];
        StateChildSelected(states, checked, i);
      }
    }
  }

  /** Child keys of the states tree look up without error, each to its own state. */
  lemma StateKeysDecode(states: seq<string>, keys: seq<string>)
    requires forall k :: k in keys ==> exists i :: 0 <= i < |states| && k == ChildKey(i)
    ensures LookupStates(keys, IndexByPosition(states)).Ok?
    ensures forall n, i :: 0 <= n < |keys| && 0 <= i < |states| && keys[n] == ChildKey(i) ==>
              LookupStates(keys, IndexByPosition(states)).value[n] == states[i]
  {
    var idx := IndexByPosition(states);
    forall n | 0 <= n < |keys| ensures RemovePrefix(keys[n], "0-") in idx {
      StateKeyFound(states, keys, n);
    }
    var r := LookupStates(keys, idx);
    forall n, i | 0 <= n < |keys| && 0 <= i < |states| && keys[n] == ChildKey(i) ensures r.value[n] == states[i] {
      StateChildDecodes(states, i);
    }
  }

  /** One child key of the states tree is in the position index, under its own state. */
  lemma StateKeyFound(states: seq<string>, keys: seq<string>, n: nat)
    requires n < |keys|
    requires forall k :: k in keys ==> exists i :: 0 <= i < |states| && k == ChildKey(i)
    ensures RemovePrefix(keys[n], "0-") in IndexByPosition(states)
    ensures exists i :: 0 <= i < |states| && keys[n] == ChildKey(i) && IndexByPosition(states)[RemovePrefix(keys[n], "0-")] == states[i]
  {
    assert keys[n] in keys;
    var i :| 0 <= i < |states| && keys[n] == ChildKey(i);
    StateChildDecodes(states, i);
  }

  /** A checked state's child key survives the key filter, and its lookup gives the state. */
  lemma StateChildSelected(states: seq<string>, checked: seq<string>, i: nat)
    requires i < |states| && ChildKey(i) in checked
    requires LookupStates(Filter(checked, IsStateKey), IndexByPosition(states)).Ok?
    ensures states[i] in LookupStates(Filter(checked, IsStateKey), IndexByPosition(states)).value
  {
    var keys := Filter(checked, IsStateKey);
    var r := LookupStates(keys, IndexByPosition(states));
    StateChildDecodes(states, i);
    assert ChildKey(i) in keys;
    var n :| 0 <= n < |keys| && keys[n] == ChildKey(i);
    assert r.value[n] == states[i];
  }

  /** The root key and the indicator-type keys are not indicator leaves. */
  lemma TypeKeysIgnored(i: nat)
    ensures !IsKpiKey(RootKey)
    ensures !IsKpiKey(ChildKey(i))
  {
    ChildKeySplit(i);
    assert '-' !in RootKey;
  }

  /** An index key of the form "i-j". */
  predicate TwoPartKey(k: string) {
    |Split(k, '-')| == 2
  }

  /**
   * Keys checked in the indicator tree (root, type keys and leaves of a dict
   * whose keys are "i-j") decode without error, and the selection is exactly
   * the indicators whose leaf is checked.
   */
  lemma KpiTreeDecodes(items: KpiItems, checked: seq<string>)
    requires DistinctKeys(items)
    requires forall e :: e in items ==> TwoPartKey(e.0)
    requires forall k :: k in checked ==>
               k == RootKey || (exists i: nat :: k == ChildKey(i)) || exists e :: e in items && k == "0-" + e.0
    ensures SelectedKpis(checked, items).Ok?
    ensures forall x :: x in SelectedKpis(checked, items).value <==>
              exists e :: e in items && "0-" + e.0 in checked && x == e.1
  {
    var keys := Filter(checked, IsKpiKey);
    forall k | k in keys ensures exists e :: e in items && k == "0-" + e.0 && KpiLookup(items, RemovePrefix(k, "0-")) == Some(e.1) {
      KpiKeyDecodes(items, k);
    }
    var r := LookupKpis(keys, items);
    forall x ensures x in r.value <==> exists e :: e in items && "0-" + e.0 in checked && x == e.1 {
      if x in r.value {
        var n :| 0 <= n < |keys| && r.value[n] == x;
        assert keys[n] in keys;
      }
      if exists e :: e in items && "0-" + e.0 in checked && x == e.1 {
        var e :| e in items && "0-" + e.0 in checked && x == e.1;
        var j :| 0 <= j < |items| && items[j] == e;
        LeafKeySplit(e.0);
        KpiLookupAt(items, j);
        assert "0-" + e.0 in keys;
        var n :| 0 <= n < |keys| && keys[n] == "0-" + e.0;
        assert r.value[n] == x;
      }
    }
  }

  /** A checked indicator key that is a leaf is the leaf of one index entry, and decodes to its indicator. */
  lemma KpiKeyDecodes(items: KpiItems, k: string)
    requires DistinctKeys(items)
    requires forall e :: e in items ==> TwoPartKey(e.0)
    requires k == RootKey || (exists i: nat :: k == ChildKey(i)) || exists e :: e in items && k == "0-" + e.0
    requires IsKpiKey(k)
    ensures exists e :: e in items && k == "0-" + e.0 && KpiLookup(items, RemovePrefix(k, "0-")) == Some(e.1)
  {
    if k == RootKey {
      TypeKeysIgnored(0);
    } else if exists i: nat :: k == ChildKey(i) {
      var i: nat :| k == ChildKey(i);
      TypeKeysIgnored(i);
    } else {
      var e :| e in items && k == "0-" + e.0;
      var j :| 0 <= j < |items| && items[j] == e;
      LeafKeySplit(e.0);
      KpiLookupAt(items, j);
    }
  }

  /** The states button label ("Active Selection: " and the count, with "All India" named apart). */
  function StatesLabel(selected: seq<string>): string {
    if "All India" in selected && |selected| == 1 then "Active Selection: All India"
    else if "All India" in selected then "Active Selection: All India and " + (NatToString(|selected| - 1) + " States")
    else "Active Selection: " + (NatToString(|selected|) + " States")
  }

  /** The indicators button label. */
  function KpisLabel(selected: seq<string>): string {
    "Active Selection: " + (NatToString(|selected|) + " KPIs")
  }

  /** The number a label announces, read back. */
  function LabelCount(shown: string, prefix: string, suffix: string): nat {
    ParseDecimal(RemoveSuffix(RemovePrefix(shown, prefix), suffix))
  }

  /** The labels announce the number of selected states (besides "All India") and of indicators. */
  lemma LabelsCount(states: seq<string>, kpis: seq<string>)
    ensures "All India" in states && |states| == 1 ==> StatesLabel(states) == "Active Selection: All India"
    ensures "All India" !in states ==> LabelCount(StatesLabel(states), "Active Selection: ", " States") == |states|
    ensures "All India" in states && |states| > 1 ==>
              LabelCount(StatesLabel(states), "Active Selection: All India and ", " States") == |states| - 1
    ensures LabelCount(KpisLabel(kpis), "Active Selection: ", " KPIs") == |kpis|
  {
    if "All India" !in states {
      LabelReadBack("Active Selection: ", |states|, " States");
    } else if |states| > 1 {
      LabelReadBack("Active Selection: All India and ", |states| - 1, " States");
    }
    LabelReadBack("Active Selection: ", |kpis|, " KPIs");
  }

  /** A number written between a prefix and a suffix reads back as itself. */
  lemma LabelReadBack(prefix: string, n: nat, suffix: string)
    ensures LabelCount(prefix + (NatToString(n) + suffix), prefix, suffix) == n
  {
    RemovePrefixPrepended(prefix, NatToString(n) + suffix);
    RemoveSuffixAppended(NatToString(n), suffix);
    ParseNatToString(n);
  }

  /** What the session store carries. */
  datatype Selections = Selections(states: seq<string>, kpis: seq<string>)

  /** `update_selectors`: both labels and the store; a missing state key raises before the indicator keys are read. */
  function UpdateSelectors(checkedStates: seq<string>, checkedKpis: seq<string>, states: seq<string>, items: KpiItems)
    : (r: Result<(string, string, Selections)>)
    ensures r.Err? <==> SelectedStates(checkedStates, states).Err? || SelectedKpis(checkedKpis, items).Err?
    ensures r.Ok? ==> r.value.2 == Selections(SelectedStates(checkedStates, states).value, SelectedKpis(checkedKpis, items).value)
    ensures r.Ok? ==> r.value.0 == StatesLabel(r.value.2.states) && r.value.1 == KpisLabel(r.value.2.kpis)
  {
    match SelectedStates(checkedStates, states)
    case Err(e) => Err(e)
    case Ok(ss) =>
      match SelectedKpis(checkedKpis, items)
      case Err(e) => Err(e)
      case Ok(ks) => Ok((StatesLabel(ss), KpisLabel(ks), Selections(ss, ks)))
  }

  // ---------------------------------------------------------------- trend rows

  /** The limit on the number of plotted series. */
  const MaxSeries := 500

  /** The chart is drawn only for a non-empty selection of at most `MaxSeries` state-indicator pairs. */
  predicate TrendGuard(sel: Selections) {
    !(sel.states == [] || sel.kpis == []) && !(|sel.states| * |sel.kpis| > MaxSeries)
  }

  /** The guard passes exactly when each selection has between 1 and 500 entries and so does their product. */
  lemma TrendGuardBounds(sel: Selections)
    ensures TrendGuard(sel) <==> 1 <= |sel.states| && 1 <= |sel.kpis| && |sel.states| * |sel.kpis| <= MaxSeries
    ensures TrendGuard(sel) ==> |sel.states| <= MaxSeries && |sel.kpis| <= MaxSeries
  {
    if 1 <= |sel.states| && 1 <= |sel.kpis| {
      assert |sel.states| <= |sel.states| * |sel.kpis|;
      assert |sel.kpis| <= |sel.states| * |sel.kpis|;
    }
  }

  /** A melted row: indicator, state, round and year, the residence column name and its value. */
  datatype TrendRow = TrendRow(indicator: string, state: string, nfhs: Option<string>, year: Option<string>,
                               variable: Residence, value: Cell)

  /** `State in @state_values & Indicator in @kpi_values` (a missing name is in no list). */
  predicate Queried(sel: Selections, r: StateRow) {
    r.state.Some? && r.state.value in sel.states && r.indicator.Some? && r.indicator.value in sel.kpis
  }

  function QueryMask(sel: Selections): StateRow -> bool {
    r => Queried(sel, r)
  }

  /** `melt(..., value_vars=residence)`: one row per input row, in order. */
  function MeltResidence(rows: seq<StateRow>, res: Residence): (m: seq<TrendRow>)
    requires forall x :: x in rows ==> x.state.Some? && x.indicator.Some?
    ensures |m| == |rows|
    ensures forall i :: 0 <= i < |rows| ==>
              m[i] == TrendRow(rows[i].indicator.value, rows[i].state.value, rows[i].nfhs, rows[i].year, res, Get(res)(rows[i]))
  {
    seq(|rows|, i requires 0 <= i < |rows| =>
      TrendRow(rows[i].indicator.value, rows[i].state.value, rows[i].nfhs, rows[i].year, res, Get(res)(rows[i])))
  }

  /** `dropna(subset="value")`. */
  predicate HasValue(t: TrendRow) {
    !t.value.NA?
  }

  /** The `drop_duplicates` subset: State, Indicator, Year, variable. */
  function TrendKey(t: TrendRow): (string, string, Option<string>, Residence) {
    (t.state, t.indicator, t.year, t.variable)
  }

  predicate LexLt(a: string, b: string) {
    LexLe(a, b) && a != b
  }

  /** A year before another; a missing year goes last (`na_position="last"`). */
  predicate YearBefore(a: Option<string>, b: Option<string>) {
    a.Some? && (b.None? || LexLt(a.value, b.value))
  }

  /** `sort_values(["Year (give as a period)", "State", "Indicator"])`. */
  predicate TrendLe(a: TrendRow, b: TrendRow) {
    || YearBefore(a.year, b.year)
    || (a.year == b.year && (LexLt(a.state, b.state) || (a.state == b.state && LexLe(a.indicator, b.indicator))))
  }

  lemma LexLtTotal(a: string, b: string)
    ensures a == b || LexLt(a, b) || LexLt(b, a)
  {
    LexLeTotal(a, b);
  }

  lemma LexLtLeTrans(a: string, b: string, c: string)
    requires LexLe(a, b) && LexLe(b, c)
    ensures LexLe(a, c)
    ensures LexLt(a, b) || LexLt(b, c) ==> LexLt(a, c)
  {
    LexLeTrans(a, b, c);
    if a == c {
      LexLeAntisym(a, b);
    }
  }

  lemma YearBeforeTrans(x: Option<string>, y: Option<string>, z: Option<string>)
    requires YearBefore(x, y) || x == y
    requires YearBefore(y, z) || y == z
    requires YearBefore(x, y) || YearBefore(y, z)
    ensures YearBefore(x, z)
  {
    if x.Some? && y.Some? && z.Some? {
      LexLeTotal(x.value, x.value);
      LexLeTotal(y.value, y.value);
      LexLtLeTrans(x.value, y.value, z.value);
    }
  }

  lemma TrendLeTrans(a: TrendRow, b: TrendRow, c: TrendRow)
    requires TrendLe(a, b) && TrendLe(b, c)
    ensures TrendLe(a, c)
  {
    if YearBefore(a.year, b.year) || YearBefore(b.year, c.year) {
      YearBeforeTrans(a.year, b.year, c.year);
    } else if LexLt(a.state, b.state) || LexLt(b.state, c.state) {
      LexLeTotal(a.state, a.state);
      LexLeTotal(b.state, b.state);
      LexLtLeTrans(a.state, b.state, c.state);
    } else {
      LexLeTrans(a.indicator, b.indicator, c.indicator);
    }
  }

  /** The trend order is a total preorder, so the stable sort orders by it. */
  lemma TrendLeTotal()
    ensures TotalPreorder(TrendLe)
  {
    forall a, b ensures TrendLe(a, b) || TrendLe(b, a) {
      if a.year.Some? && b.year.Some? {
        LexLtTotal(a.year.value, b.year.value);
      }
      LexLtTotal(a.state, b.state);
      LexLeTotal(a.indicator, b.indicator);
    }
    forall a, b, c | TrendLe(a, b) && TrendLe(b, c) ensures TrendLe(a, c) {
      TrendLeTrans(a, b, c);
    }
  }

  /** `astype({"value": "float64"})`: a present value that is not numeric raises. */
  function CastTrend(rows: seq<TrendRow>, parse: Parser): (r: Result<seq<TrendRow>>)
    ensures r.Err? <==> exists i :: 0 <= i < |rows| && NonNumeric(rows[i].value, parse)
    ensures r.Ok? ==> |r.value| == |rows|
    ensures r.Ok? ==> forall i :: 0 <= i < |rows| ==> r.value[i] == rows[i].(value := ToFloat(rows[i].value, parse))
  {
    if exists i :: 0 <= i < |rows| && NonNumeric(rows[i].value, parse) then Err(ValueError)
    else Ok(seq(|rows|, i requires 0 <= i < |rows| => rows[i].(value := ToFloat(rows[i].value, parse))))
  }

  /** The rows before the cast: queried, melted, without missing values, first per key, sorted. */
  function TrendSorted(rows: seq<StateRow>, sel: Selections, res: Residence): seq<TrendRow> {
    var q := Filter(rows, QueryMask(sel));
    var m := MeltResidence(q, res);
    Sort(KeepFirst(Filter(m, HasValue), TrendKey), TrendLe)
  }

  /** `display_df` of `update_trend`. */
  function TrendRows(rows: seq<StateRow>, sel: Selections, res: Residence, parse: Parser): Result<seq<TrendRow>> {
    CastTrend(TrendSorted(rows, sel, res), parse)
  }

  /** Every sorted row comes from a queried input row with a present value in the chosen column. */
  lemma TrendSortedFrom(rows: seq<StateRow>, sel: Selections, res: Residence, t: TrendRow)
    requires t in TrendSorted(rows, sel, res)
    ensures exists r :: r in rows && Queried(sel, r) && Get(res)(r) == t.value && !t.value.NA? &&
              t == TrendRow(r.indicator.value, r.state.value, r.nfhs, r.year, res, t.value)
  {
    var q := Filter(rows, QueryMask(sel));
    var m := MeltResidence(q, res);
    var d := Filter(m, HasValue);
    var u := KeepFirst(d, TrendKey);
    assert t in multiset(u);
    assert t in u;
    KeepFirstSubset(d, TrendKey);
    assert t in d;
    var i :| 0 <= i < |m| && m[i] == t;
    assert q[i] in q;
  }

  /** The sorted rows are ordered by year, state and indicator, and unique on the key. */
  lemma TrendSortedShape(rows: seq<StateRow>, sel: Selections, res: Residence)
    ensures SortedBy(TrendSorted(rows, sel, res), TrendLe)
    ensures UniqueKeys(TrendSorted(rows, sel, res), TrendKey)
  {
    var q := Filter(rows, QueryMask(sel));
    var m := MeltResidence(q, res);
    var u := KeepFirst(Filter(m, HasValue), TrendKey);
    TrendLeTotal();
    SortSpec(u, TrendLe);
    KeepFirstUnique(Filter(m, HasValue), TrendKey);
    PermutationKeepsUniqueKeys(u, Sort(u, TrendLe), TrendKey);
  }

  /** Every queried input row with a present value has its key among the sorted rows. */
  lemma TrendSortedCovers(rows: seq<StateRow>, sel: Selections, res: Residence, r: StateRow)
    requires r in rows && Queried(sel, r) && !Get(res)(r).NA?
    ensures (r.state.value, r.indicator.value, r.year, res) in Keys(TrendSorted(rows, sel, res), TrendKey)
  {
    var q := Filter(rows, QueryMask(sel));
    var m := MeltResidence(q, res);
    var d := Filter(m, HasValue);
    var u := KeepFirst(d, TrendKey);
    var s := Sort(u, TrendLe);
    var i :| 0 <= i < |q| && q[i] == r;
    assert m[i] in d;
    var j :| 0 <= j < |d| && d[j] == m[i];
    KeepFirstKeysAt(d, TrendKey, j);
    PermutationKeepsKeys(u, s, TrendKey, TrendKey(m[i]));
  }

  /** The cast changes values only: keys, order and uniqueness carry over, and every value becomes a float. */
  lemma CastTrendKeeps(s: seq<TrendRow>, parse: Parser)
    requires CastTrend(s, parse).Ok?
    requires forall i :: 0 <= i < |s| ==> !s[i].value.NA?
    ensures forall i :: 0 <= i < |s| ==> TrendKey(CastTrend(s, parse).value[i]) == TrendKey(s[i])
    ensures forall i :: 0 <= i < |s| ==> CastTrend(s, parse).value[i].value.Num?
    ensures SortedBy(s, TrendLe) ==> SortedBy(CastTrend(s, parse).value, TrendLe)
    ensures UniqueKeys(s, TrendKey) ==> UniqueKeys(CastTrend(s, parse).value, TrendKey)
  {
    var v := CastTrend(s, parse).value;
    assert forall i :: 0 <= i < |s| ==> v[i].year == s[i].year && v[i].state == s[i].state && v[i].indicator == s[i].indicator;
  }

  /**
   * The plotted rows are ordered by year, state and indicator, no key occurs
   * twice, and each is a queried state and indicator of the chosen column with
   * a float value.
   */
  lemma TrendRowsSpec(rows: seq<StateRow>, sel: Selections, res: Residence, parse: Parser)
    requires TrendRows(rows, sel, res, parse).Ok?
    ensures SortedBy(TrendRows(rows, sel, res, parse).value, TrendLe)
    ensures UniqueKeys(TrendRows(rows, sel, res, parse).value, TrendKey)
    ensures forall t :: t in TrendRows(rows, sel, res, parse).value ==>
              (t.value.Num? && t.variable == res && t.state in sel.states && t.indicator in sel.kpis)
  {
    var s := TrendSorted(rows, sel, res);
    var v := TrendRows(rows, sel, res, parse).value;
    TrendSortedShape(rows, sel, res);
    forall i | 0 <= i < |s| ensures !s[i].value.NA? && s[i].variable == res && s[i].state in sel.states && s[i].indicator in sel.kpis {
      TrendSortedFrom(rows, sel, res, s[i]);
    }
    CastTrendKeeps(s, parse);
    forall t | t in v ensures t.value.Num? && t.variable == res && t.state in sel.states && t.indicator in sel.kpis {
      var i :| 0 <= i < |v| && v[i] == t;
      assert TrendKey(t) == TrendKey(s[i]);
    }
  }

  /** On a cleaned table (every value missing or a float) the cast cannot fail. */
  lemma TrendRowsOfClean(rows: seq<StateRow>, sel: Selections, res: Residence, parse: Parser)
    requires forall x :: x in rows ==> CleanCell(Get(res)(x))
    ensures TrendRows(rows, sel, res, parse).Ok?
  {
    var s := TrendSorted(rows, sel, res);
    forall i | 0 <= i < |s| ensures !NonNumeric(s[i].value, parse) {
      TrendSortedFrom(rows, sel, res, s[i]);
    }
  }

  /** What the chart shows. */
  datatype TrendView = NoFigure | Lines(rows: seq<TrendRow>)

  /** `update_trend`: the guard, then the rows; no rows means no figure. */
  function UpdateTrend(sel: Selections, rows: seq<StateRow>, res: Residence, parse: Parser): (r: Result<TrendView>)
    ensures !TrendGuard(sel) ==> r == Ok(NoFigure)
    ensures TrendGuard(sel) ==> (r.Err? <==> TrendRows(rows, sel, res, parse).Err?)
    ensures r.Ok? && r.value.Lines? ==> TrendGuard(sel) && r.value.rows != [] && Ok(r.value.rows) == TrendRows(rows, sel, res, parse)
    ensures r == Ok(NoFigure) ==> !TrendGuard(sel) || TrendRows(rows, sel, res, parse) == Ok([])
  {
    if !TrendGuard(sel) then Ok(NoFigure)
    else
      match TrendRows(rows, sel, res, parse)
      case Err(e) => Err(e)
      case Ok(v) => if v == [] then Ok(NoFigure) else Ok(Lines(v))
  }
}
