# Bibliography checker: verified model of the reference-verification logic

The bibliography checker is a browser page. It reads a PDF and asks a language
model to list the PDF's references as a JSON array. It shows them in a table
and then checks, one asynchronous task per reference, whether each reference
exists. This project models the pure decision logic inside `script.js` as
Dafny functions and methods, and proves properties of them:

- **Strategy selection and the verification chain** (`Reference`, `Queries`,
  `Verification`). A non-empty DOI is checked against the Crossref work
  registry. Failing that, a non-empty URL gets a reachability check. Otherwise
  three metadata searches run in order (Google Books, then Crossref, then
  OpenAlex) and stop at the first hit. Every network lookup is an *oracle*: a
  yes/no function of the request URL the source would fetch. "No" also covers a
  failed request, an error status, an empty result list and the link check's
  five-second abort. `encodeURIComponent` is the uninterpreted parameter `enc`.
- **The orchestrator** (`Verification.CheckStatusOfReferences`). It runs one
  task per list index. Task `i` sees its own network answers `net(i)`. The
  tasks report in a completion order chosen by the scheduler, which can be any
  permutation of the indices. `Verification.FinalTableIndependentOfOrder`
  proves that the finished table does not depend on that order.
- **The results table** (`Render`). The status cell is updated by index and
  gets a CSS class. The link column follows the same precedence as the
  selector.
- **Cleaning the language model's answer** (`FenceStrip`). The answer passes
  through the two regular-expression replacements and `trim` that run before
  `JSON.parse`.
- **Building the prompt** (`Prompt`, on `JsString`). The first placeholder is
  replaced by the first 12000 characters of the PDF text. The replacement runs
  through the real `String.prototype.replace` rules, `$` patterns included.

The metadata searches read the record key `author` (singular). The records
carry `authors`. The model keeps this behaviour: `Record` has both keys, and
`Verification.StatusIgnoresAuthors` proves that the `authors` list never
affects a status.

Truthiness follows JavaScript. A string field counts only when it is present
and non-empty. A year counts only when it is present and not zero.

## Model

| member | source | states |
|---|---|---|
| Reference.Select | script.js:290-295 | The DOI strategy is chosen exactly when the DOI is non-empty. The link strategy is chosen exactly when the DOI is empty and the URL is non-empty. The metadata chain runs otherwise. Each strategy carries the field it works from. |
| Verification.Decide | script.js:287-309 | Every record gets a terminal status, never `NOT_CHECKED`. With a non-empty DOI the status is `OK`/`NOK` and is `OK` exactly when the DOI oracle says yes, whatever the URL holds. With no DOI but a URL, it is `OK`/`NOK` by the link oracle alone. With neither, it is never `OK` or `NOK`. |
| Verification.MetadataChain | script.js:296-308 | Without DOI or URL: `LIKELY_FOUND_GOOGLE_BOOKS` iff Books finds the work. `LIKELY_FOUND_CROSSREF` iff Books does not and Crossref does. `LIKELY_FOUND_OPENALEX` iff only OpenAlex does. `NOT_FOUND` iff none of the three does. |
| Verification.DoiTakesPrecedence | script.js:290-292 | Two records with the same non-empty DOI get the same status whenever the DOI oracle gives the same answer. Their URLs, metadata and all other oracles are irrelevant. |
| Verification.UrlTakesPrecedenceOverMetadata | script.js:293-294 | Without a DOI, two records with the same non-empty URL get the same status whenever the link oracle gives the same answer. |
| Verification.StatusIgnoresAuthors | script.js:235-285 | Two records that differ only in `authors` get the same status, because every search reads `author`. |
| Verification.VerifyReference | script.js:287-311 | The step-by-step task gives the same status as `Decide`. It logs its requests: one DOI lookup on the DOI path and one link check on the URL path. On the metadata path Books always runs first. Crossref is asked iff Books failed. OpenAlex is asked iff both failed. Each request uses the URL the source builds. |
| Verification.CheckStatusOfReferences | script.js:287-312 | For any completion order there is one report per task, and report `k` pairs index `order[k]` with that record's own status. Every index `0 <= i < n` is reported exactly once, and every reported status is terminal. |
| Verification.FinalTableIndependentOfOrder | script.js:287-312 | Take any completion order, with every report carrying its own record's status. Once all reports are applied to the table of `?` cells, the table is exactly the cells of `Statuses`: row `i` shows record `i`'s status, whatever the order. |
| Render.UpdateStatusCell | script.js:201-208 | Only the addressed row changes. It gets the status text and the status class. A report for a row that does not exist changes nothing. |
| Render.ApplyAllCells | script.js:201-208 | Suppose all reports for a row carry that row's status. Then after any sequence of reports, a named row shows its status, and every other row keeps its old cell. |
| Render.AllRowsReported | script.js:201-208 | If every row has been reported, and each report carries its row's status, the table equals the table built from those statuses. Earlier cells leave no trace. |
| Render.CssClass | script.js:207 | The class is `ok` iff the text is `OK`, `nok` iff it is `NOK`, and `not-checked` for every other text. |
| Render.ClassOfStatus | script.js:207 | Over the status values, `ok` goes to `OK` only and `nok` to `NOK` only. Every `LIKELY_FOUND_*` status, `NOT_FOUND` and `NOT_CHECKED` get `not-checked`. |
| Render.LinkCellMatchesSelector | script.js:181-193 | The link column shows `https://doi.org/` + DOI exactly when the selector picks the DOI strategy. It shows the bare URL when the selector picks the link strategy. It is empty exactly when the metadata chain runs. |
| Status.Name | script.js:288-306 | Each status is written as the source's string. `ParseStatus` reads that string back as the same status. |
| Status.NameInjective | script.js:288-306 | Distinct statuses have distinct strings. |
| Queries.YearFilterShape | script.js:255-256 | The Crossref year filter is empty exactly when the year is absent or zero. Otherwise both `from-pub-date` and `until-pub-date` carry the year's decimal text `${year}`, which reads back as the year. |
| Queries.MetadataQueriesIgnoreAuthors | script.js:235-274 | The Books, Crossref and OpenAlex request URLs do not depend on `authors`. |
| Decimal.NatToDecimal | script.js:256 | The decimal text of a year's magnitude is a non-empty run of digits that starts with `0` exactly when the number is zero, and a number below ten is a single digit. So zero is written `0` and no other number has a leading zero. Together with the round trip below, this fixes the text `${year}` produces. |
| Decimal.ParseIntToDecimal | script.js:256 | The decimal text interpolated for a year parses back to the same integer, negative years included. |
| FenceStrip.FindTag | script.js:139 | The search returns the leftmost position of a case-insensitive "```json" tag at or after the start, or reports that there is none. |
| FenceStrip.RemoveJsonTagSpec | script.js:139 | With no tag, the text is unchanged. Otherwise the first tag is cut out wherever it stands, together with one immediately following newline if present. |
| FenceStrip.LaterTagSurvives | script.js:139 | Only the first tag is removed. A later tag is still present, shifted left. |
| FenceStrip.CleanOnlyTrims | script.js:138-141 | A text with no "```json" tag and no fence at its end is only trimmed. |
| FenceStrip.CleanDropsClosingFence | script.js:140-141 | A text ending in "```" loses exactly those three characters before trimming. Removing the opening tag never disturbs them. |
| FenceStrip.PlainFenceKept | script.js:139-141 | A plain opening "```" without the `json` tag survives the cleaning. The one exception is a text shorter than six characters that also ends in "```", such as a bare "```", where the opening fence is also the closing one. |
| FenceStrip.ClosingFenceBeforeNewlineKept | script.js:140 | `$` without the `m` flag does not match before a final newline. So "```json\n[]\n```\n" is cleaned to "[]\n```", which is not the array. |
| FenceStrip.CleanCorrectedDropsFence | script.js:137-141 | The corrected cleaning removes a closing fence even when only white space follows it. The result is the trimmed text before the fence. |
| FenceStrip.CleanCorrectedAgrees | script.js:138-141 | When the text left after the opening tag is removed is empty or ends in a character that is not white space, the corrected cleaning equals the source's. |
| JsString.TrimSpec | script.js:141 | `trim` returns an infix of the text that neither starts nor ends with ECMAScript white space or a line terminator. Everything it drops is such white space. |
| JsString.TrimIdempotent | script.js:141 | Trimming twice equals trimming once. |
| JsString.Slice | script.js:110 | `slice(0, 12000)` keeps the first `min(length, 12000)` characters. |
| JsString.IndexOfFrom | script.js:110 | The search returns the first occurrence of the pattern at or after the start position, or reports that there is none. |
| JsString.Expand | script.js:110 | A replacement text without `$` is inserted unchanged. |
| Prompt.OnlyFirstPlaceholderReplaced | script.js:110 | Only the first `<<BIBLIOGRAPHYTEXT>>` is replaced. The template before it and after it, later placeholders included, is kept. A template without the placeholder comes back unchanged. |
| Prompt.PromptInsertsPrefix | script.js:110 | When the kept PDF text holds no `$`, the prompt is the template with the first placeholder replaced by the first `min(length, 12000)` characters of the PDF text. |
| Prompt.DollarPatternsExpanded | script.js:110 | PDF text `$&` gives back the template unchanged. PDF text `$'` inserts the template's own tail a second time. |
| Prompt.BuildPromptLiteral | script.js:110 | The corrected prompt has the first `min(length, 12000)` characters of the PDF text, `$` included, exactly at the placeholder position. The template's text before and after the placeholder is kept. |
| Prompt.LiteralPromptAgrees | script.js:110 | The corrected prompt equals the source's whenever the kept text has no `$`. |

## Findings

| source | as written | input that shows it | evidently intended | confidence | as-written member | corrected member |
|---|---|---|---|---|---|---|
| script.js:110 | The PDF text is passed as the replacement string of `replace`, so `$&`, `$'`, `` $` `` and `$$` in it are expanded. | PDF text `$&`: the prompt is the bare template, placeholder included. PDF text `$'`: the tail of the template appears twice. | The first 12000 characters of the PDF text are inserted verbatim. | high; not executed | Prompt.DollarPatternsExpanded | Prompt.BuildPromptLiteral |
| script.js:140 | `/```$/` has no `m` flag and runs before `trim`, so a closing fence followed by a newline stays. | "```json\n[]\n```\n" is cleaned to "[]\n```", which `JSON.parse` rejects. | The closing fence of the wrapper is removed, as the comment on line 137 describes. | medium; not executed | FenceStrip.ClosingFenceBeforeNewlineKept | FenceStrip.CleanCorrected |

No later step of the model consumes the prompt or the cleaned text. The corrected
definitions therefore stand beside the as-written ones. The model does not
replace the as-written definitions with them.

## Left out

- PDF text extraction with pdf.js (script.js:94-106): external library, not modelled.
- The OpenRouter request and its response handling (script.js:112-127), and the
  upload handler that sequences the steps (script.js:65-92): network and DOM.
- All `fetch` calls and response parsing (script.js:211-285). Each lookup is an
  oracle over its request URL. "Found" folds in `res.ok` and the non-empty
  result checks.
- The five-second `AbortController` timeout of the link check (script.js:221-233).
  It is part of the link oracle's answer. Timers are not modelled.
- Asynchrony. Each task is a sequential computation. Interleaving appears only
  as the arbitrary completion order of the reports. A second upload while tasks
  are still in flight (stale reports landing on a new table) is not modelled:
  one run covers one list.
- `JSON.parse`, and `extractJsonFromResponse` returning `null` on a parse
  failure (script.js:143-148): library behaviour. Only the string cleaning
  before it is modelled.
- DOM construction of the other table columns, `sessionStorage` and the API key
  (script.js:41-61, 152-180): presentation and session state.
- Reference.Record: JSON values of unexpected types are not modelled. Examples
  are a numeric DOI, a string year, a fractional year and an array under
  `author`. Their truthiness and string conversion differ from the typed fields
  used here.
- Decimal.IntToDecimal: JavaScript writes integers of 10^21 and above in
  exponent form. The model always writes plain decimal digits. Years never
  reach that range.
- JsString.Slice: a Dafny `char` is a Unicode scalar value, not a UTF-16 code
  unit, and a lone surrogate code unit is not a `char` at all. Text is modelled
  as one `char` per code point. For text made only of characters of the Basic
  Multilingual Plane this agrees with the source's code units. A character
  outside it (an emoji, a mathematical letter) is two code units in the source
  but one `char` here. On such text `Slice(pdfText, 12000)` keeps more text
  than `pdfText.slice(0, 12000)`, and counts in `|s|` differ from `.length`.
- Queries.DoiUrl: `encodeURIComponent` is uninterpreted. It can throw on a lone
  surrogate. A lone surrogate cannot occur in a Dafny string, so that error
  path is not modelled.
- Verification.CheckStatusOfReferences: "exactly one report per index" assumes
  that every lookup returns and that no encoding throws. In the source neither
  is guaranteed. The DOI lookup and the three searches (script.js:214, 242, 260,
  277) have no timeout and can wait forever. `encodeURIComponent` runs outside
  the `try` (script.js:212, 236-237, 253-254, 271-272), so a `URIError` rejects
  the task. In both cases `updateStatusCell` is never called for that row, and
  the row keeps showing `?` forever. The model gives every task an answer.