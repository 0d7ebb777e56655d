/** The few JavaScript string operations the bibliography checker's pure logic
    is built from: `String.prototype.trim`, `slice(0, n)`, `indexOf`, and
    `replace` with a string pattern (including the `$` patterns of the replacement text, section 22.1.3.19.1
    GetSubstitution of ECMA-262). Strings are sequences of `char`, one `char` per
    Unicode code point; for text in the Basic Multilingual Plane that is one
    UTF-16 code unit of the source. */
module JsString {
  import opened Wrappers

  /** The WhiteSpace and LineTerminator code points of ECMA-262 (sections 12.2
      and 12.3), which is exactly what `trim` removes. */
  predicate IsWhiteSpace(c: char) {
    || c == '\t' || c == '\U{000B}' || c == '\U{000C}' || c == ' '
    || c == '\U{00A0}' || c == '\U{FEFF}'
    || c == '\n' || c == '\r' || c == '\U{2028}' || c == '\U{2029}'
    || c == '\U{1680}' || ('\U{2000}' <= c <= '\U{200A}')
    || c == '\U{202F}' || c == '\U{205F}' || c == '\U{3000}'
  }

  predicate AllWhiteSpace(s: string) {
    forall k :: 0 <= k < |s| ==> IsWhiteSpace(s[k])
  }

  /** The first index at or after `i` that does not hold white space (`|s|` if
      there is none). */
  function SkipWhiteSpace(s: string, i: nat): (j: nat)
    requires i <= |s|
    ensures i <= j <= |s|
    ensures forall k :: i <= k < j ==> IsWhiteSpace(s[k])
    ensures j == |s| || !IsWhiteSpace(s[j])
    decreases |s| - i
  {
    if i < |s| && IsWhiteSpace(s[i]) then SkipWhiteSpace(s, i + 1) else i
  }

  /** The end of the text once the white space before index `j` is dropped. */
  function SkipWhiteSpaceBack(s: string, j: nat): (e: nat)
    requires j <= |s|
    ensures e <= j
    ensures forall k :: e <= k < j ==> IsWhiteSpace(s[k])
    ensures e == 0 || !IsWhiteSpace(s[e - 1])
  {
    if j > 0 && IsWhiteSpace(s[j - 1]) then SkipWhiteSpaceBack(s, j - 1) else j
  }

  /** Only one index satisfies the contract of `SkipWhiteSpace`. */
  lemma SkipWhiteSpaceUnique(s: string, i: nat, j: nat)
    requires i <= j <= |s|
    requires forall k :: i <= k < j ==> IsWhiteSpace(s[k])
    requires j == |s| || !IsWhiteSpace(s[j])
    ensures SkipWhiteSpace(s, i) == j
  {
  }

  /** Only one index satisfies the contract of `SkipWhiteSpaceBack`. */
  lemma SkipWhiteSpaceBackUnique(s: string, j: nat, e: nat)
    requires e <= j <= |s|
    requires forall k :: e <= k < j ==> IsWhiteSpace(s[k])
    requires e == 0 || !IsWhiteSpace(s[e - 1])
    ensures SkipWhiteSpaceBack(s, j) == e
  {
  }

  function TrimStart(s: string): string {
    s[SkipWhiteSpace(s, 0)..]
  }

  function TrimEnd(s: string): string {
    s[..SkipWhiteSpaceBack(s, |s|)]
  }

  /** `String.prototype.trim`: white space removed from the start, then from the
      end. */
  function Trim(s: string): string {
    TrimEnd(TrimStart(s))
  }

  /** `trim` returns the infix of `s` left once white space is removed from both
      ends: what it drops is white space, and what it keeps neither starts nor
      ends with white space. */
  lemma TrimSpec(s: string)
    ensures var r := Trim(s);
      && (exists a, b :: 0 <= a <= b <= |s| && r == s[a..b]
                         && AllWhiteSpace(s[..a]) && AllWhiteSpace(s[b..]))
      && (r == [] || (!IsWhiteSpace(r[0]) && !IsWhiteSpace(r[|r| - 1])))
  {
    var a := SkipWhiteSpace(s, 0);
    var t := s[a..];
    var e := SkipWhiteSpaceBack(t, |t|);
    var r := t[..e];
    var b := a + e;
    assert r == s[a..b];
    assert forall k :: 0 <= k < |s[b..]| ==> s[b..][k] == t[e + k];
    assert r == [] || r[0] == s[a];
  }

  /** Trimming twice is trimming once. */
  lemma TrimIdempotent(s: string)
    ensures Trim(Trim(s)) == Trim(s)
  {
    var r := Trim(s);
    TrimSpec(s);
    SkipWhiteSpaceUnique(r, 0, 0);
    SkipWhiteSpaceBackUnique(r, |r|, |r|);
  }

  /** `s.slice(0, n)` for `n >= 0`: the first `min(|s|, n)` characters. */
  function Slice(s: string, n: nat): (r: string)
    ensures |r| == (if |s| < n then |s| else n)
    ensures r == s[..|r|]
  {
    if |s| < n then s else s[..n]
  }

  predicate OccursAt(s: string, pat: string, i: nat) {
    i + |pat| <= |s| && s[i..i + |pat|] == pat
  }

  /** `s.indexOf(pat, from)`: the first position at or after `from` where `pat`
      occurs, or `None` (the source's -1). */
  function IndexOfFrom(s: string, pat: string, from: nat): (r: Option<nat>)
    ensures r.Some? ==> from <= r.value && OccursAt(s, pat, r.value)
    ensures r.Some? ==> forall k: nat :: from <= k < r.value ==> !OccursAt(s, pat, k)
    ensures r.None? ==> forall k: nat :: from <= k ==> !OccursAt(s, pat, k)
    decreases |s| - from
  {
    if from + |pat| > |s| then None
    else if OccursAt(s, pat, from) then Some(from)
    else IndexOfFrom(s, pat, from + 1)
  }

  function IndexOf(s: string, pat: string): Option<nat> {
    IndexOfFrom(s, pat, 0)
  }

  /** GetSubstitution for a match without capture groups: in the replacement text
      `$$` stands for `$`, `$&` for the matched text, `` $` `` for the text before
      the match and `$'` for the text after it; every other `$` (including `$1`
      and `$<`, which have no group to refer to) is kept literally. */
  function Expand(repl: string, before: string, matched: string, after: string): (r: string)
    ensures '$' !in repl ==> r == repl
  {
    if |repl| == 0 then ""
    else if repl[0] == '$' && |repl| >= 2 && repl[1] == '$' then
      "$" + Expand(repl[2..], before, matched, after)
    else if repl[0] == '$' && |repl| >= 2 && repl[1] == '&' then
      matched + Expand(repl[2..], before, matched, after)
    else if repl[0] == '$' && |repl| >= 2 && repl[1] == '`' then
      before + Expand(repl[2..], before, matched, after)
    else if repl[0] == '$' && |repl| >= 2 && repl[1] == '\'' then
      after + Expand(repl[2..], before, matched, after)
    else
      [repl[0]] + Expand(repl[1..], before, matched, after)
  }

  /** `s.replace(pat, repl)` with a string pattern: only the first occurrence is
      replaced, and the replacement text goes through GetSubstitution. */
  function ReplaceFirst(s: string, pat: string, repl: string): string {
    match IndexOf(s, pat)
    case None => s
    case Some(i) =>
      s[..i] + Expand(repl, s[..i], pat, s[i + |pat|..]) + s[i + |pat|..]
  }
}
