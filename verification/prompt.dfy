/** Building the extraction prompt: the PDF text, cut to its first 12000
    characters, replaces the placeholder in the prompt template. */
module Prompt {
  import opened Wrappers
  import opened JsString

  const Placeholder: string := "<<BIBLIOGRAPHYTEXT>>"
  const MaxPdfChars: nat := 12000

  /** `template.replace('<<BIBLIOGRAPHYTEXT>>', pdfText.slice(0, 12000))`. */
  function BuildPrompt(template: string, pdfText: string): string {
    ReplaceFirst(template, Placeholder, Slice(pdfText, MaxPdfChars))
  }

  /** Only the first placeholder is replaced, the text after it is kept as it
      is (later placeholders included), and a template without a placeholder
      comes back unchanged. */
  lemma OnlyFirstPlaceholderReplaced(template: string, pdfText: string)
    ensures IndexOf(template, Placeholder).None? ==> BuildPrompt(template, pdfText) == template
    ensures IndexOf(template, Placeholder).Some? ==>
      var i := IndexOf(template, Placeholder).value;
      var rest := template[i + |Placeholder|..];
      && (forall k: nat :: k < i ==> !OccursAt(template, Placeholder, k))
      && |BuildPrompt(template, pdfText)| >= i + |rest|
      && BuildPrompt(template, pdfText)[..i] == template[..i]
      && BuildPrompt(template, pdfText)[|BuildPrompt(template, pdfText)| - |rest|..] == rest
  {
  }

  /** When the kept part of the PDF text holds no `$`, the prompt is the template
      with its first placeholder replaced by exactly the first
      `min(|pdfText|, 12000)` characters of the text. */
  lemma PromptInsertsPrefix(template: string, pdfText: string, i: nat)
    requires IndexOf(template, Placeholder) == Some(i)
    requires '$' !in Slice(pdfText, MaxPdfChars)
    ensures var n := if |pdfText| < MaxPdfChars then |pdfText| else MaxPdfChars;
      BuildPrompt(template, pdfText) == template[..i] + pdfText[..n] + template[i + |Placeholder|..]
  {
  }

  /** In the source, `$` patterns in the PDF text are not inserted literally:
      a text `$&` puts the placeholder itself back, so the prompt is the
      template unchanged, and a text `$'` inserts the template's own tail a
      second time. */
  lemma DollarPatternsExpanded(template: string, i: nat)
    requires IndexOf(template, Placeholder) == Some(i)
    ensures BuildPrompt(template, "$&") == template
    ensures BuildPrompt(template, "$'") ==
      template[..i] + template[i + |Placeholder|..] + template[i + |Placeholder|..]
  {
    var before := template[..i];
    var after := template[i + |Placeholder|..];
    assert Slice("$&", MaxPdfChars) == "$&";
    assert Slice("$'", MaxPdfChars) == "$'";
    assert Expand("$&", before, Placeholder, after) == Placeholder + Expand("", before, Placeholder, after);
    assert Expand("$'", before, Placeholder, after) == after + Expand("", before, Placeholder, after);
    assert template[i..i + |Placeholder|] == Placeholder;
    assert template == before + template[i..i + |Placeholder|] + after;
  }

  /** The prompt as intended: the kept PDF text is inserted verbatim, `$`
      included, between the template's text before and after the first
      placeholder. */
  function BuildPromptLiteral(template: string, pdfText: string): (r: string)
    ensures IndexOf(template, Placeholder).None? ==> r == template
    ensures IndexOf(template, Placeholder).Some? ==>
      var i := IndexOf(template, Placeholder).value;
      var rest := template[i + |Placeholder|..];
      var n := if |pdfText| < MaxPdfChars then |pdfText| else MaxPdfChars;
      && |r| == |template| - |Placeholder| + n
      && r[..i] == template[..i]
      && r[i..i + n] == pdfText[..n]
      && r[i + n..] == rest
  {
    match IndexOf(template, Placeholder)
    case None => template
    case Some(i) =>
      var inserted := Slice(pdfText, MaxPdfChars);
      var r := template[..i] + inserted + template[i + |Placeholder|..];
      assert r[i..i + |inserted|] == inserted;
      assert r[i + |inserted|..] == template[i + |Placeholder|..];
      r
  }

  /** The corrected prompt agrees with the source's whenever the kept text has
      no `$`. */
  lemma LiteralPromptAgrees(template: string, pdfText: string)
    requires '$' !in Slice(pdfText, MaxPdfChars)
    ensures BuildPromptLiteral(template, pdfText) == BuildPrompt(template, pdfText)
  {
    var inserted := Slice(pdfText, MaxPdfChars);
    match IndexOf(template, Placeholder)
    case None =>
    case Some(i) =>
      assert Expand(inserted, template[..i], Placeholder, template[i + |Placeholder|..]) == inserted;
  }
}
