/**
 * The string operations the dashboard relies on: `str.lower`, Python's
 * ordering of `str`, `str.split`, `startswith`/`removeprefix`/`removesuffix`,
 * `str(i)` on a non-negative int, `in` on strings and the case-insensitive
 * regular-expression substitutions used to normalise labels. Characters are
 * treated as ASCII where Python would consult Unicode tables (case mapping,
 * word characters).
 */
module Text {

  function LowerChar(c: char): char {
    if 'A' <= c <= 'Z' then (c as int + 32) as char else c
  }

  /** `s.lower()`. */
  function Lower(s: string): (r: string)
    ensures |r| == |s|
    ensures forall i :: 0 <= i < |s| ==> r[i] == LowerChar(s[i])
  {
    seq(|s|, i requires 0 <= i < |s| => LowerChar(s[i]))
  }

  lemma LowerAppend(a: string, b: string)
    ensures Lower(a + b) == Lower(a) + Lower(b)
  {}

  /** Python's `a <= b` on `str`: lexicographic by code point, a prefix first. */
  predicate LexLe(a: string, b: string)
    decreases |a|
  {
    |a| == 0 || (|b| > 0 && (a[0] < b[0] || (a[0] == b[0] && LexLe(a[1..], b[1..]))))
  }

  lemma {:induction false} LexLeTotal(a: string, b: string)
    ensures LexLe(a, b) || LexLe(b, a)
    decreases |a|
  {
    if |a| > 0 && |b| > 0 && a[0] == b[0] {
      LexLeTotal(a[1..], b[1..]);
    }
  }

  lemma {:induction false} LexLeTrans(a: string, b: string, c: string)
    requires LexLe(a, b) && LexLe(b, c)
    ensures LexLe(a, c)
    decreases |a|
  {
    if |a| > 0 && a[0] == b[0] && b[0] == c[0] {
      LexLeTrans(a[1..], b[1..], c[1..]);
    }
  }

  lemma {:induction false} LexLeAntisym(a: string, b: string)
    requires LexLe(a, b) && LexLe(b, a)
    ensures a == b
    decreases |a|
  {
    if |a| > 0 {
      LexLeAntisym(a[1..], b[1..]);
      assert a == [a[0]] + a[1..] && b == [b[0]] + b[1..];
    }
  }

  /** The order `sorted(..., key=str.lower)` compares by. */
  predicate CaseInsensitiveLe(a: string, b: string) {
    LexLe(Lower(a), Lower(b))
  }

  /** Position of the first `c` in `s`. */
  function IndexOf(s: string, c: char): (i: nat)
    requires c in s
    ensures i < |s| && s[i] == c && c !in s[..i]
  {
    if s[0] == c then 0
    else
      var i := IndexOf(s[1..], c);
      assert s[1..][..i] == s[1..i + 1];
      assert s[..i + 1] == [s[0]] + s[1..i + 1];
      i + 1
  }

  /** `s.split(sep)` for a one-character separator. */
  function Split(s: string, sep: char): (fields: seq<string>)
    ensures |fields| >= 1
    ensures forall k :: 0 <= k < |fields| ==> sep !in fields[k]
    decreases |s|
  {
    if sep !in s then [s]
    else
      var i := IndexOf(s, sep);
      [s[..i]] + Split(s[i + 1..], sep)
  }

  /** The first field of a split is a prefix of the string; when the separator
      occurs it follows that field, and the other fields split the rest. */
  lemma SplitFirst(s: string, sep: char)
    ensures StartsWith(s, Split(s, sep)[0])
    ensures sep in s <==> |Split(s, sep)| > 1
    ensures sep in s ==> |Split(s, sep)[0]| < |s| && s[|Split(s, sep)[0]|] == sep
    ensures sep in s ==> Split(s, sep)[1..] == Split(s[|Split(s, sep)[0]| + 1..], sep)
  {
  }

  /** `sep.join(fields)`. */
  function Join(fields: seq<string>, sep: char): string
    requires |fields| >= 1
  {
    if |fields| == 1 then fields[0] else fields[0] + [sep] + Join(fields[1..], sep)
  }

  /** Joining the fields of a split gives the string back. */
  lemma {:induction false} JoinSplit(s: string, sep: char)
    ensures Join(Split(s, sep), sep) == s
    decreases |s|
  {
    if sep in s {
      var i := IndexOf(s, sep);
      JoinSplit(s[i + 1..], sep);
      assert s == s[..i] + [sep] + s[i + 1..];
    }
  }

  /** Splitting a separator-free field, the separator and a rest gives the field, then the rest's fields. */
  lemma SplitAfterField(f: string, sep: char, rest: string)
    requires sep !in f
    ensures Split(f + [sep] + rest, sep) == [f] + Split(rest, sep)
  {
    var s := f + [sep] + rest;
    assert s[|f|] == sep && s[..|f|] == f;
    assert IndexOf(s, sep) == |f|;
    assert s[|f| + 1..] == rest;
  }

  /** Splitting a join of separator-free fields gives the fields back. */
  lemma {:induction false} SplitJoin(fields: seq<string>, sep: char)
    requires |fields| >= 1
    requires forall k :: 0 <= k < |fields| ==> sep !in fields[k]
    ensures Split(Join(fields, sep), sep) == fields
    decreases |fields|
  {
    if |fields| > 1 {
      SplitJoin(fields[1..], sep);
      SplitAfterField(fields[0], sep, Join(fields[1..], sep));
      assert fields == [fields[0]] + fields[1..];
    }
  }

  predicate StartsWith(s: string, p: string) {
    |p| <= |s| && s[..|p|] == p
  }

  predicate EndsWith(s: string, p: string) {
    |p| <= |s| && s[|s| - |p|..] == p
  }

  /** `p in s` for strings. */
  predicate Contains(s: string, p: string)
    decreases |s|
  {
    StartsWith(s, p) || (|s| > 0 && Contains(s[1..], p))
  }

  lemma {:induction false} ContainsInfix(a: string, b: string, c: string)
    ensures Contains(a + b + c, b)
    decreases |a|
  {
    if a == [] {
      assert (a + b + c)[..|b|] == b;
    } else {
      ContainsInfix(a[1..], b, c);
      assert (a + b + c)[1..] == a[1..] + b + c;
    }
  }

  /** `s.removeprefix(p)`. */
  function RemovePrefix(s: string, p: string): (r: string)
    ensures StartsWith(s, p) ==> p + r == s
    ensures !StartsWith(s, p) ==> r == s
  {
    if StartsWith(s, p) then s[|p|..] else s
  }

  /** `s.removesuffix(p)`. */
  function RemoveSuffix(s: string, p: string): (r: string)
    ensures EndsWith(s, p) ==> r + p == s
    ensures !EndsWith(s, p) ==> r == s
  {
    if EndsWith(s, p) then s[..|s| - |p|] else s
  }

  /** Appending a suffix and removing it again is the identity. */
  lemma RemoveSuffixAppended(s: string, p: string)
    ensures RemoveSuffix(s + p, p) == s
  {
    assert EndsWith(s + p, p) by { assert (s + p)[|s|..] == p; }
    assert (s + p)[..|s|] == s;
  }

  lemma RemovePrefixPrepended(p: string, s: string)
    ensures RemovePrefix(p + s, p) == s
  {
    assert StartsWith(p + s, p) by { assert (p + s)[..|p|] == p; }
    assert (p + s)[|p|..] == s;
  }

  function DigitChar(d: nat): char
    requires d < 10
  {
    ('0' as int + d) as char
  }

  /** `str(n)` for a non-negative int. */
  function NatToString(n: nat): (s: string)
    ensures |s| >= 1
    ensures forall k :: 0 <= k < |s| ==> '0' <= s[k] <= '9'
    decreases n
  {
    if n < 10 then [DigitChar(n)] else NatToString(n / 10) + [DigitChar(n % 10)]
  }

  /** `int(s)` on a string of decimal digits. */
  function ParseDecimal(s: string): nat
    decreases |s|
  {
    if s == [] then 0
    else
      var c := s[|s| - 1];
      10 * ParseDecimal(s[..|s| - 1]) + (if '0' <= c <= '9' then c as int - '0' as int else 0)
  }

  /** `int(str(n)) == n`. */
  lemma {:induction false} ParseNatToString(n: nat)
    ensures ParseDecimal(NatToString(n)) == n
    decreases n
  {
    var s := NatToString(n);
    if n >= 10 {
      ParseNatToString(n / 10);
      assert s[..|s| - 1] == NatToString(n / 10);
    }
  }

  /** Distinct numbers print differently, so `str(i)` can key a dict. */
  lemma NatToStringInjective(m: nat, n: nat)
    requires NatToString(m) == NatToString(n)
    ensures m == n
  {
    ParseNatToString(m);
    ParseNatToString(n);
  }

  /** `str(n)` never contains a dash, so `"0-" + str(n)` splits back at the dash. */
  lemma NatToStringNoDash(n: nat)
    ensures '-' !in NatToString(n)
  {}

  /** Python's `\w` on ASCII. */
  predicate IsWordChar(c: char) {
    'a' <= c <= 'z' || 'A' <= c <= 'Z' || '0' <= c <= '9' || c == '_'
  }

  lemma LowerKeepsWordChar(c: char)
    ensures IsWordChar(LowerChar(c)) == IsWordChar(c)
  {}

  /**
   * `re.sub("(?i)" + pat, rep, s)` for a literal lower-case pattern: every
   * non-overlapping occurrence, matched without regard to case, scanning from
   * the left, is replaced by `rep`.
   */
  function SubIgnoreCase(s: string, pat: string, rep: string): string
    requires |pat| > 0
    decreases |s|
  {
    if |s| == 0 then []
    else if |pat| <= |s| && Lower(s[..|pat|]) == pat then rep + SubIgnoreCase(s[|pat|..], pat, rep)
    else [s[0]] + SubIgnoreCase(s[1..], pat, rep)
  }

  /**
   * `re.sub(r"(?i)\b" + pat + r"\b", rep, s)` for a literal lower-case pattern
   * that starts and ends with a word character; `afterWord` says whether the
   * character just before `s` in the whole string is a word character.
   */
  function SubWordIgnoreCase(s: string, pat: string, rep: string, afterWord: bool): string
    requires |pat| > 0
    decreases |s|
  {
    if |s| == 0 then []
    else if !afterWord && |pat| <= |s| && Lower(s[..|pat|]) == pat && (|s| == |pat| || !IsWordChar(s[|pat|]))
    then rep + SubWordIgnoreCase(s[|pat|..], pat, rep, IsWordChar(s[|pat| - 1]))
    else [s[0]] + SubWordIgnoreCase(s[1..], pat, rep, IsWordChar(s[0]))
  }

  /** Where the pattern does not match as a whole word, the first character is kept. */
  lemma SubWordSkip(s: string, pat: string, rep: string, afterWord: bool)
    requires |pat| > 0 && |s| > 0
    requires afterWord || |s| < |pat| || Lower(s[..|pat|]) != pat || (|s| > |pat| && IsWordChar(s[|pat|]))
    ensures SubWordIgnoreCase(s, pat, rep, afterWord) == [s[0]] + SubWordIgnoreCase(s[1..], pat, rep, IsWordChar(s[0]))
  {}

  /** Lower-casing a string lower-cases each side of a cut. */
  lemma LowerCut(s: string, k: nat)
    requires k <= |s|
    ensures Lower(s) == Lower(s[..k]) + Lower(s[k..])
  {
    LowerAppend(s[..k], s[k..]);
    assert s == s[..k] + s[k..];
  }

  /** A head with the same lower case as the cut-off prefix, then a tail with the rest's lower case. */
  lemma LowerStep(s: string, k: nat, head: string, tail: string)
    requires k <= |s| && Lower(head) == Lower(s[..k]) && Lower(tail) == Lower(s[k..])
    ensures Lower(head + tail) == Lower(s)
  {
    LowerAppend(head, tail);
    LowerCut(s, k);
  }

  /** A substitution whose replacement spells the pattern changes letter case only. */
  lemma {:induction false} SubIgnoreCaseKeepsLower(s: string, pat: string, rep: string)
    requires |pat| > 0 && Lower(rep) == pat
    ensures Lower(SubIgnoreCase(s, pat, rep)) == Lower(s)
    decreases |s|
  {
    if |s| > 0 {
      if |pat| <= |s| && Lower(s[..|pat|]) == pat {
        SubIgnoreCaseKeepsLower(s[|pat|..], pat, rep);
        LowerStep(s, |pat|, rep, SubIgnoreCase(s[|pat|..], pat, rep));
      } else {
        SubIgnoreCaseKeepsLower(s[1..], pat, rep);
        assert [s[0]] == s[..1];
        LowerStep(s, 1, [s[0]], SubIgnoreCase(s[1..], pat, rep));
      }
    }
  }

  lemma {:induction false} SubWordIgnoreCaseKeepsLower(s: string, pat: string, rep: string, afterWord: bool)
    requires |pat| > 0 && Lower(rep) == pat
    ensures Lower(SubWordIgnoreCase(s, pat, rep, afterWord)) == Lower(s)
    decreases |s|
  {
    if |s| > 0 {
      if !afterWord && |pat| <= |s| && Lower(s[..|pat|]) == pat && (|s| == |pat| || !IsWordChar(s[|pat|])) {
        var after := IsWordChar(s[|pat| - 1]);
        SubWordIgnoreCaseKeepsLower(s[|pat|..], pat, rep, after);
        LowerStep(s, |pat|, rep, SubWordIgnoreCase(s[|pat|..], pat, rep, after));
      } else {
        SubWordSkip(s, pat, rep, afterWord);
        SubWordIgnoreCaseKeepsLower(s[1..], pat, rep, IsWordChar(s[0]));
        assert [s[0]] == s[..1];
        LowerStep(s, 1, [s[0]], SubWordIgnoreCase(s[1..], pat, rep, IsWordChar(s[0])));
      }
    }
  }

  /** A string shorter than the pattern has nothing to substitute. */
  lemma {:induction false} SubIgnoreCaseShort(s: string, pat: string, rep: string)
    requires 0 < |pat| && |s| < |pat|
    ensures SubIgnoreCase(s, pat, rep) == s
    decreases |s|
  {
    if |s| > 0 {
      SubIgnoreCaseShort(s[1..], pat, rep);
    }
  }

  /** After a word character nothing shorter than the pattern plus one is substituted. */
  lemma {:induction false} SubWordIgnoreCaseShort(s: string, pat: string, rep: string)
    requires 0 < |pat| && |s| <= |pat| && forall k :: 0 <= k < |s| ==> IsWordChar(s[k])
    ensures SubWordIgnoreCase(s, pat, rep, true) == s
    decreases |s|
  {
    if |s| > 0 {
      SubWordIgnoreCaseShort(s[1..], pat, rep);
    }
  }
}
