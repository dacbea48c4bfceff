/**
 * `difflib.get_close_matches(word, possibilities, n=1, cutoff)`.
 *
 * The similarity ratio is a parameter `sim(word, x)`: difflib's
 * longest-matching-block algorithm is not modelled. What is modelled is how the
 * one answer is chosen: difflib keeps the candidates scoring at least `cutoff`
 * and returns the largest `(score, candidate)` pair, so among equal scores the
 * candidate that is greater as a Python string wins.
 */
module Fuzzy {
  import opened Frames
  import opened Text

  type Similarity = (string, string) -> real

  /** What `get_close_matches(..., n=1)` promises of its answer `r`. */
  ghost predicate IsCloseMatch(word: string, cands: seq<string>, cutoff: real, sim: Similarity, r: Option<string>) {
    match r
    case None => forall c :: c in cands ==> sim(word, c) < cutoff
    case Some(m) =>
      && m in cands
      && sim(word, m) >= cutoff
      && (forall c :: c in cands ==> sim(word, c) <= sim(word, m))
      && (forall c :: c in cands && sim(word, c) == sim(word, m) ==> LexLe(c, m))
  }

  /** `get_close_matches(word, cands, n=1, cutoff)`, as `None` or its single element. */
  function CloseMatch(word: string, cands: seq<string>, cutoff: real, sim: Similarity): (r: Option<string>)
    ensures IsCloseMatch(word, cands, cutoff, sim, r)
  {
    if cands == [] then None
    else
      var c := cands[0];
      var rest := CloseMatch(word, cands[1..], cutoff, sim);
      assert forall d :: d in cands ==> d == c || d in cands[1..];
      if sim(word, c) < cutoff then rest
      else if rest.None? then
        LexLeTotal(c, c);
        Some(c)
      else if sim(word, c) > sim(word, rest.value) then
        LexLeTotal(c, c);
        Some(c)
      else if sim(word, c) == sim(word, rest.value) && LexLe(rest.value, c) then
        LexLeTotal(c, c);
        assert forall d :: d in cands[1..] && sim(word, d) == sim(word, c) ==> LexLe(d, rest.value);
        forall d | d in cands[1..] && sim(word, d) == sim(word, c) ensures LexLe(d, c) {
          LexLeTrans(d, rest.value, c);
        }
        Some(c)
      else
        LexLeTotal(c, rest.value);
        rest
  }

  /** The promise determines the answer: any answer meeting it is difflib's. */
  lemma CloseMatchUnique(word: string, cands: seq<string>, cutoff: real, sim: Similarity, r: Option<string>)
    requires IsCloseMatch(word, cands, cutoff, sim, r)
    ensures r == CloseMatch(word, cands, cutoff, sim)
  {
    var m := CloseMatch(word, cands, cutoff, sim);
    if r.Some? && m.Some? {
      LexLeAntisym(r.value, m.value);
    }
  }

  /** Raising nothing and lowering nothing: with no candidate there is no match. */
  lemma CloseMatchEmpty(word: string, cutoff: real, sim: Similarity)
    ensures CloseMatch(word, [], cutoff, sim) == None
  {}
}
