/** Cleaning of the language model's answer before it is parsed as JSON:
    `.replace(/```json\n?/i, '')`, then `.replace(/```$/, '')`, then `.trim()`. */
module FenceStrip {
  import opened Wrappers
  import opened JsString

  const Fence: string := "```"

  /** The case-insensitive opening tag "```json" starts at `i`. Only ASCII letters
      fold under a non-Unicode `/i` regular expression. */
  predicate TagAt(s: string, i: nat) {
    && i + 7 <= |s|
    && s[i] == '`' && s[i + 1] == '`' && s[i + 2] == '`'
    && (s[i + 3] == 'j' || s[i + 3] == 'J')
    && (s[i + 4] == 's' || s[i + 4] == 'S')
    && (s[i + 5] == 'o' || s[i + 5] == 'O')
    && (s[i + 6] == 'n' || s[i + 6] == 'N')
  }

  predicate HasTag(s: string) {
    exists i: nat :: i < |s| && TagAt(s, i)
  }

  /** The leftmost tag at or after `from`, as the regular-expression search
      scans. */
  function FindTag(s: string, from: nat): (r: Option<nat>)
    ensures r.Some? ==> from <= r.value && TagAt(s, r.value)
    ensures r.Some? ==> forall k: nat :: from <= k < r.value ==> !TagAt(s, k)
    ensures r.None? ==> forall k: nat :: from <= k ==> !TagAt(s, k)
    decreases |s| - from
  {
    if from + 7 > |s| then None
    else if TagAt(s, from) then Some(from)
    else FindTag(s, from + 1)
  }

  /** Where the match of `/```json\n?/` that starts at `i` ends: the optional
      newline is taken when present. */
  function TagEnd(s: string, i: nat): (e: nat)
    requires TagAt(s, i)
    ensures e <= |s|
  {
    if i + 7 < |s| && s[i + 7] == '\n' then i + 8 else i + 7
  }

  /** First step: the first tag, with one newline after it, is cut out wherever it
      stands. */
  function RemoveJsonTag(s: string): string {
    match FindTag(s, 0)
    case None => s
    case Some(i) => s[..i] + s[TagEnd(s, i)..]
  }

  predicate EndsWithFence(s: string) {
    |s| >= 3 && s[|s| - 3] == '`' && s[|s| - 2] == '`' && s[|s| - 1] == '`'
  }

  /** Second step: `$` without the `m` flag matches only at the very end, so a
      fence is removed only when nothing, not even a newline, follows it. */
  function RemoveClosingFence(s: string): string {
    if EndsWithFence(s) then s[..|s| - 3] else s
  }

  /** The cleaning `extractJsonFromResponse` applies before `JSON.parse`. */
  function Clean(content: string): string {
    Trim(RemoveClosingFence(RemoveJsonTag(content)))
  }

  /** The first step is the leftmost-match removal: given the first tag, the
      result is the text around it. Without a tag, the text is unchanged. */
  lemma RemoveJsonTagSpec(s: string)
    ensures !HasTag(s) ==> RemoveJsonTag(s) == s
    ensures forall i: nat {:trigger TagAt(s, i)} :: TagAt(s, i) && (forall k: nat :: k < i ==> !TagAt(s, k)) ==>
      RemoveJsonTag(s) == s[..i] + s[TagEnd(s, i)..]
  {
    match FindTag(s, 0)
    case None =>
    case Some(j) =>
      assert HasTag(s);
      forall i: nat | TagAt(s, i) && (forall k: nat :: k < i ==> !TagAt(s, k))
        ensures RemoveJsonTag(s) == s[..i] + s[TagEnd(s, i)..]
      {
        assert j == i;
      }
  }

  /** Only the first tag goes: a later tag that the removal does not touch is
      still there, shifted left by the length removed. */
  lemma LaterTagSurvives(s: string, i: nat, j: nat)
    requires FindTag(s, 0) == Some(i)
    requires TagAt(s, j) && TagEnd(s, i) <= j
    ensures TagAt(RemoveJsonTag(s), j - (TagEnd(s, i) - i))
  {
    var e := TagEnd(s, i);
    var r := RemoveJsonTag(s);
    var j' := j - (e - i);
    assert r == s[..i] + s[e..];
    assert r[j'..j' + 7] == s[j..j + 7];
  }

  /** An answer with no opening tag that does not end in a fence is only
      trimmed. */
  lemma CleanOnlyTrims(s: string)
    requires !HasTag(s) && !EndsWithFence(s)
    ensures Clean(s) == Trim(s)
  {
    RemoveJsonTagSpec(s);
  }

  /** The opening tag ends in a letter or a newline, so a closing fence at the
      end of the text lies wholly after it and survives its removal. */
  lemma TagRemovalKeepsClosingFence(s: string)
    requires EndsWithFence(s)
    ensures EndsWithFence(RemoveJsonTag(s))
  {
    match FindTag(s, 0)
    case None =>
    case Some(i) =>
      var e := TagEnd(s, i);
      assert s[e - 1] != '`';
      assert e + 3 <= |s|;
      var t := s[..i] + s[e..];
      assert |t| == |s| - (e - i);
      assert t[|t| - 1] == s[|s| - 1];
      assert t[|t| - 2] == s[|s| - 2];
      assert t[|t| - 3] == s[|s| - 3];
  }

  /** An answer ending in a fence loses exactly those three characters before
      trimming. */
  lemma CleanDropsClosingFence(s: string)
    requires EndsWithFence(s)
    ensures EndsWithFence(RemoveJsonTag(s))
    ensures Clean(s) == Trim(RemoveJsonTag(s)[..|RemoveJsonTag(s)| - 3])
    ensures !HasTag(s) ==> Clean(s) == Trim(s[..|s| - 3])
  {
    RemoveJsonTagSpec(s);
    TagRemovalKeepsClosingFence(s);
  }

  /** A plain opening fence without the `json` tag is not removed, unless it is
      also the closing fence (a text of fewer than six characters that ends in
      one). */
  lemma PlainFenceKept(s: string)
    requires !HasTag(s) && |s| >= 3 && s[..3] == Fence && (!EndsWithFence(s) || |s| >= 6)
    ensures |Clean(s)| >= 3 && Clean(s)[..3] == Fence
  {
    RemoveJsonTagSpec(s);
    var u := RemoveClosingFence(s);
    assert |u| >= 3 && u[..3] == Fence;
    assert u[0] == '`' && u[2] == '`';
    SkipWhiteSpaceUnique(u, 0, 0);
    assert TrimStart(u) == u;
    var e := SkipWhiteSpaceBack(u, |u|);
    assert !IsWhiteSpace(u[2]);
    assert e >= 3;
    assert Trim(u) == u[..e];
  }

  /** On an answer whose closing fence is followed by a newline, the fence
      survives and the cleaned text is not the JSON array inside. */
  lemma ClosingFenceBeforeNewlineKept()
    ensures Clean("```json\n[]\n```\n") == "[]\n```"
  {
    var s := "```json\n[]\n```\n";
    var t := "[]\n```\n";
    OpeningTagRemoved(s, t);
    assert !EndsWithFence(t);
    SkipWhiteSpaceUnique(t, 0, 0);
    SkipWhiteSpaceBackUnique(t, |t|, |t| - 1);
    assert t[..|t| - 1] == "[]\n```";
  }

  /** A tag at the very start, followed by a newline, takes the newline with it. */
  lemma OpeningTagRemoved(s: string, t: string)
    requires TagAt(s, 0) && |s| > 7 && s[7] == '\n' && t == s[8..]
    ensures RemoveJsonTag(s) == t
  {
  }

  /** The cleaning as the comment on it describes it: the closing fence is
      removed even when white space follows it. */
  function CleanCorrected(content: string): string {
    Trim(RemoveClosingFence(Trim(RemoveJsonTag(content))))
  }

  /** Leading white space of `x + y` is that of `x` when `y` starts with a
      character that is not white space. */
  lemma TrimStartConcat(x: string, y: string)
    requires |y| > 0 && !IsWhiteSpace(y[0])
    ensures TrimStart(x + y) == TrimStart(x) + y
  {
    var j := SkipWhiteSpace(x, 0);
    assert (x + y)[j] == (if j < |x| then x[j] else y[0]);
    SkipWhiteSpaceUnique(x + y, 0, j);
    assert (x + y)[j..] == x[j..] + y;
  }

  /** Trailing white space after a text that ends in something else is exactly
      what `trimEnd` removes. */
  lemma TrimEndWhiteSpaceTail(z: string, w: string)
    requires |z| > 0 && !IsWhiteSpace(z[|z| - 1]) && AllWhiteSpace(w)
    ensures TrimEnd(z + w) == z
  {
    SkipWhiteSpaceBackUnique(z + w, |z + w|, |z|);
    assert (z + w)[..|z|] == z;
  }

  lemma TrimFencedTail(p: string, w: string)
    requires AllWhiteSpace(w)
    ensures Trim(p + Fence + w) == TrimStart(p) + Fence
  {
    var y := Fence + w;
    TrimStartConcat(p, y);
    assert p + Fence + w == p + y;
    var q := TrimStart(p) + Fence;
    assert TrimStart(p) + y == q + w;
    TrimEndWhiteSpaceTail(q, w);
  }

  /** With the correction, a closing fence followed only by white space is
      removed, and what remains is the trimmed text before it. */
  lemma CleanCorrectedDropsFence(s: string, p: string, w: string)
    requires RemoveJsonTag(s) == p + Fence + w && AllWhiteSpace(w)
    ensures CleanCorrected(s) == Trim(p)
  {
    TrimFencedTail(p, w);
    var q := TrimStart(p) + Fence;
    assert RemoveClosingFence(q) == TrimStart(p);
    SkipWhiteSpaceUnique(TrimStart(p), 0, 0);
    assert TrimStart(TrimStart(p)) == TrimStart(p);
  }

  /** Where the source already works, the correction changes nothing: when the
      text left after the opening tag is removed is empty or ends in a character
      that is not white space, both cleanings agree. */
  lemma CleanCorrectedAgrees(s: string)
    requires var t := RemoveJsonTag(s); t == [] || !IsWhiteSpace(t[|t| - 1])
    ensures CleanCorrected(s) == Clean(s)
  {
    var t := RemoveJsonTag(s);
    if EndsWithFence(t) {
      var x := t[..|t| - 3];
      assert t == x + Fence + [];
      TrimFencedTail(x, []);
      var q := TrimStart(x);
      assert RemoveClosingFence(q + Fence) == q;
      SkipWhiteSpaceUnique(q, 0, 0);
      assert TrimStart(q) == q;
      assert RemoveClosingFence(t) == x;
    } else {
      var u := TrimStart(t);
      var a := SkipWhiteSpace(t, 0);
      assert u == t[a..];
      SkipWhiteSpaceBackUnique(u, |u|, |u|);
      assert Trim(t) == u;
      assert !EndsWithFence(u);
      TrimIdempotent(t);
    }
  }
}
