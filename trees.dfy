/**
 * The checkbox trees of the state selectors (pages/district_scatter.py and
 * pages/state_trend.py): the states are numbered by position, the root's key
 * is "0" and the child for state i has key "0-" + str(i).
 */
module Trees {
  import opened Text

  /** `{str(i): x for i, x in enumerate(xs)}`. */
  function IndexByPosition(xs: seq<string>): (m: map<string, string>)
    ensures forall i :: 0 <= i < |xs| ==> NatToString(i) in m && m[NatToString(i)] == xs[i]
    ensures forall k :: k in m ==> exists i :: 0 <= i < |xs| && k == NatToString(i)
    decreases |xs|
  {
    if xs == [] then map[]
    else
      var n := |xs| - 1;
      var m := IndexByPosition(xs[..n]);
      var r := m[NatToString(n) := xs[n]];
      forall i | 0 <= i < |xs| ensures NatToString(i) in r && r[NatToString(i)] == xs[i] {
        if i < n {
          if NatToString(i) == NatToString(n) {
            NatToStringInjective(i, n);
          }
          assert xs[..n][i] == xs[i];
        }
      }
      r
  }

  /** The key of one node of a tree. */
  datatype TreeNode = TreeNode(title: string, key: string)

  /** The key of the root. */
  const RootKey: string := "0"

  /** The key of the child for position `i`. */
  function ChildKey(i: nat): (k: string)
    ensures k == "0-" + NatToString(i)
    ensures k != RootKey
  {
    "0-" + NatToString(i)
  }

  /** The children of the root: one per position, titled with the entry and keyed "0-" + str(i). */
  function Children(xs: seq<string>): (cs: seq<TreeNode>)
    ensures |cs| == |xs| && forall i :: 0 <= i < |xs| ==> cs[i] == TreeNode(xs[i], ChildKey(i))
  {
    seq(|xs|, i requires 0 <= i < |xs| => TreeNode(xs[i], ChildKey(i)))
  }

  /** Distinct positions have distinct keys. */
  lemma ChildKeyInjective(i: nat, j: nat)
    ensures ChildKey(i) == ChildKey(j) ==> i == j
  {
    if ChildKey(i) == ChildKey(j) {
      RemovePrefixPrepended("0-", NatToString(i));
      RemovePrefixPrepended("0-", NatToString(j));
      NatToStringInjective(i, j);
    }
  }

  /** `key.split("-")` of a child key gives back "0" and the position. */
  lemma ChildKeySplit(i: nat)
    ensures Split(ChildKey(i), '-') == ["0", NatToString(i)]
  {
    var k := ChildKey(i);
    var d := NatToString(i);
    NatToStringNoDash(i);
    assert k[1] == '-' && '-' !in k[..1];
    assert '-' in k;
    assert IndexOf(k, '-') == 1;
    assert k[..1] == "0";
    assert k[2..] == d;
    assert Split(d, '-') == [d];
  }

  /** `key.removeprefix("0-")` of a child key gives back the position. */
  lemma ChildKeyRemovePrefix(i: nat)
    ensures RemovePrefix(ChildKey(i), "0-") == NatToString(i)
  {
    RemovePrefixPrepended("0-", NatToString(i));
  }
}
