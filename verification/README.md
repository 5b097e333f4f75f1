# Mortgage-document extraction core, modelled in Dafny

The system reads scanned US mortgage documents. The OCR service turns each page image into text
lines with boxes. A repair pass fixes common OCR misreads. Each page is rendered as layout-aware
text (`[NNN|y=..|x=..] text`), and a language model is asked for nine fields: first for the whole
document, then field by field for whatever is still missing. The two answers are merged with a
validity-driven merge, and the final record is normalised.

This project models the deterministic core of that flow as pure Dafny functions over immutable
data, and proves what each step promises:

- `Validate`: the field validators and `normalize`. This includes the `MONEY` currency pattern,
  modelled as an explicit scanner with a grammar beside it. Normalisation is proved idempotent.
- `Merge`: `merge(base, overrides)` over `PREF_ORDER`. The merged record is characterised key by
  key, and the visiting order is shown not to matter.
- `Misreads` and `CommaRule`: the `re.sub` chain of `fix_common_misreads`. Each rule is a
  left-to-right scan, with backtracking and lookarounds as the engine applies them. Each scan is
  paired with a declarative description of what it changes. The comma-number rule is shown not to
  be idempotent.
- `Numerals`: the amount syntax `\d{1,3}(?:,\d{3})*(?:\.\d{2})?` that both rules share, as a
  greedy scanner and as a grammar.
- `Text`: the Python string operations used, over ASCII: `strip`, the digit filter, decimal
  rendering, joining and splitting on a separator.
- `Preprocess` and `PdfUtils`: `preprocess_pages`, `page_as_layout_text` (with a parser that
  reads every chunk back), and `pages_to_layout_json`.
- `Prompts`: the field catalogue and both templates, including Python's `repr` of the
  dictionaries they interpolate, with an unescaper that inverts it.
- `Pipeline`: the missing-field test, the reconcile branch, and the "any exception gives `{}`"
  policy of `run_pipeline`. The OCR outcome and both extractor calls are parameters.
- `GeminiExtractor`: the attempt, sleep and raise control flow of `_retry_invoke`, over an
  abstract outcome per attempt, as a function and as the loop.
- `Ocr` and `StableSort`:
  - the input guard of `_call_paddle` and the four-step ladder of `_safe_ocr`;
  - the flatten-and-sort of `run_page`, with Python's stable `list.sort` on a pair key;
  - the page ordering of `run`.
  The engine is a parameter that depends on the attempt number, so transient failures can be
  expressed.

The model follows the code on these points, where a reader might expect otherwise:

- The extractor decodes the candidate text with `json.loads` directly. No code-fence stripping
  exists in `src/gemini_extractor.py`.
- A rendered chunk carries the least y and the least x of the box, taken separately. These are
  not the coordinates of one corner point.
- `pages_to_layout_json` keeps the input order of the pages and does not sort them.
- A field counts as missing by Python falsiness (`not full.get(k)`), so `0` and `False` are
  missing too.

## Model

| member | source | states |
|---|---|---|
| Numerals.AmountEndSound | src/validate.py:5 | the greedy amount scan ends where the grammar `\d{1,3}(?:,\d{3})*(?:\.\d{2})?` accepts the span |
| Numerals.AmountEndMaximal | src/validate.py:5 | no grammatical amount from the same start ends beyond the greedy scan's end |
| Numerals.AmountInShift | src/validate.py:5 | whether a span is an amount depends only on the span, not on the surrounding text |
| Validate.MoneySearch | src/validate.py:5 | the search reports the leftmost start at which `MONEY` matches, with that match's end; no match starts earlier; when it reports nothing, no start matches |
| Validate.MoneyAtSound | src/validate.py:5 | the match anchored at a start is a `$`, at most one whitespace, then an amount |
| Validate.MoneyAtMaximal | src/validate.py:5 | no currency amount from the same start is longer than the reported match |
| Validate.MoneySearchComplete | src/validate.py:8-9 | the search succeeds exactly when some substring is a currency amount |
| Validate.MoneySearchLeftmostLongest | src/validate.py:37-38 | the reported match is the leftmost currency amount and the longest one starting there |
| Validate.ValidMoney | src/validate.py:8-9 | a value passes the money validator iff it is a string with a currency amount somewhere in it |
| Validate.ValidNmls | src/validate.py:11-12 | a value passes the NMLS validator iff it is a string of one to seven ASCII digits and nothing else |
| Validate.IsValid | src/validate.py:14-25 | `None` is never valid; a loan amount needs a currency amount, an NMLS field one to seven digits, the date a string the date parser accepts; any other field is valid iff it is neither `None` nor an all-whitespace string |
| Validate.LoanAmountValidIff | src/validate.py:20 | a loan amount is valid iff it is a string containing a currency amount anywhere; a non-string is invalid |
| Validate.NmlsValidIff | src/validate.py:11-12 | an NMLS field is valid iff it is a string of 1 to 7 ASCII digits and nothing else |
| Validate.OtherValidIff | src/validate.py:23-25 | every other non-date field is invalid iff it is `None` or an all-whitespace string; lists and numbers are valid |
| Validate.NullNeverValid | src/validate.py:19-25 | a missing value is invalid for every field, the date field included |
| Validate.Normalize | src/validate.py:27-42 | the key set is kept exactly, and every value is mapped on its own, independently of the other keys |
| Validate.NormalizeNmls | src/validate.py:30-34 | an NMLS string becomes its digits in order, or `None` when it has none; a non-string is untouched |
| Validate.NormalizeLoanAmount | src/validate.py:36-38 | a loan-amount string becomes its leftmost, longest currency amount when it has one, and its stripped self otherwise |
| Validate.NormalizeOther | src/validate.py:40-41 | every other string is stripped; every other non-string is untouched |
| Validate.NormalizeTight | src/validate.py:40-41 | no string in the output has whitespace at either end |
| Validate.MoneySliceFoundWhole | src/validate.py:37-38 | a currency amount cut out of its string is tight and is found whole when searched again |
| Validate.CanonicalValueIdempotent | src/validate.py:28-41 | canonicalising one value twice gives the same as canonicalising it once, for every key |
| Validate.NormalizeIdempotent | src/validate.py:27-42 | `normalize(normalize(r)) == normalize(r)` for every record |
| Merge.PrefOrderDistinct | src/merge.py:4-8 | the preferred field list has no repeated name |
| Merge.MergeKeys | src/merge.py:11-16 | the loop drops no key, and a key it does not visit is neither added nor changed |
| Merge.MergeKeysSpec | src/merge.py:11-16 | visiting distinct keys yields the base keys plus the visited ones; each visited key gets the override only when the base is invalid and the override valid |
| Merge.Merge | src/merge.py:10-17 | the result is exactly what visiting `PREF_ORDER` makes of the base, key by key |
| Merge.MergedFromUnique | src/merge.py:10-17 | two records that both fit that key-by-key description for the same keys are equal |
| Merge.MergePreferred | src/merge.py:12-16 | a preferred key holds the override iff the base value is invalid and the override valid, and the base value otherwise |
| Merge.MergeKeepsValid | src/merge.py:15 | a valid base value is kept whatever the overrides hold |
| Merge.MergeOutsidePreferred | src/merge.py:11-16 | keys outside `PREF_ORDER` keep their base value, and override keys outside it never appear |
| Merge.MergeKeySet | src/merge.py:11-16 | the result's keys are the base keys plus the preferred keys absent from the base whose override is valid |
| Merge.MergeSelf | src/merge.py:10-17 | merging a record with itself returns it unchanged |
| Merge.MergeOrderIrrelevant | src/merge.py:12-16 | visiting the preferred keys in any other order gives the same record |
| Misreads.ApplyPoint | src/preprocess.py:12-23 | a one-character rule keeps the length; each character its pattern matches in the original text becomes the replacement, every other one is kept |
| Misreads.PointFromSpec | src/preprocess.py:12-23 | a one-character rule's scan changes exactly the characters its pattern matches in the original text, each into its replacement |
| Misreads.ApplyPointSpec | src/preprocess.py:21-23 | character `q` of the result is the replacement where the rule fires at `q`, and the original character otherwise |
| Misreads.ApplyPointWordChars | src/preprocess.py:21-23 | the lone-letter rewrites keep the word or non-word class of every character, so later `\b` tests see the same boundaries |
| Misreads.ApplyPointExhaustive | src/preprocess.py:12-23 | after a one-character rule, its pattern matches nowhere in the result |
| Misreads.SpaceRunEnd | src/preprocess.py:18 | `\s*` takes the whole run of whitespace and stops at the first non-whitespace |
| Misreads.NmlsNoOverlap | src/preprocess.py:18 | no other NMLS match can start inside a match |
| Misreads.NmlsFromSpec | src/preprocess.py:18 | from any position, the NMLS scan copies every character except the matched `O`s, which become `0` |
| Misreads.NmlsRule | src/preprocess.py:18 | the NMLS rule keeps the length; the `O`s some match replaces become `0` and every other character is kept |
| Misreads.NmlsRuleSpec | src/preprocess.py:18 | the NMLS rule changes exactly the `O`s that some match replaces, into `0` |
| Misreads.NmlsFromNoLabel | src/preprocess.py:18 | text without an `NMLS` label, in any case, is copied unchanged |
| Misreads.NmlsExample | src/preprocess.py:18 | the label is kept: `NMLS# O123456` becomes `NMLS# 0123456` |
| Misreads.Typographic | src/preprocess.py:29-33 | the five replacements keep the length and map each character to its ASCII stand-in |
| Misreads.TypographicGone | src/preprocess.py:29-33 | no curly quote or long dash remains, and every other character is kept |
| Misreads.PointRules | src/preprocess.py:11-23 | the six single-character rules keep the length, and each character is either kept or is a misread `O`, `o`, `I`, `l` or `S` turned into `0`, `1` or `5` |
| Misreads.RegexRules | src/preprocess.py:11-26 | the result is the single-character rewrite with a `$` inserted before each comma-rule match the scan reports in it, and so is never shorter than the input |
| Misreads.FixCommonMisreads | src/preprocess.py:7-35 | the repaired text has no whitespace at either end and none of the five typographic characters |
| CommaRule.InsertDollars | src/preprocess.py:26 | the rewrite is the input with a `$` inserted before each match the scan reports, the starts increasing, and is longer by the number of matches |
| CommaRule.CommaNumberAtSound | src/preprocess.py:26 | the engine's match at a start is a grouped number with at least one group, not after `$`, between word boundaries |
| CommaRule.CommaNumberAtMaximal | src/preprocess.py:26 | no match of the pattern from that start ends beyond the engine's, given its backtracking over cents and groups |
| CommaRule.CommaNumberAtComplete | src/preprocess.py:26 | the engine finds a match at a start iff the pattern matches some span from there |
| CommaRule.Matches | src/preprocess.py:26 | the replaced spans are in order, disjoint, and each is the engine's match at its start |
| CommaRule.DollarFromInsertsBeforeMatches | src/preprocess.py:26 | the rewrite equals the input with a `$` inserted before each reported match start and nothing else changed |
| CommaRule.MatchesComplete | src/preprocess.py:26 | every position where the pattern could match is a reported start or lies inside a reported span |
| CommaRule.DollarMisses | src/preprocess.py:26 | a stretch in which no match starts is copied unchanged |
| CommaRule.MarksBareAmount | src/preprocess.py:26 | `1,234.56` becomes `$1,234.56` |
| CommaRule.RestartsAfterComma | src/preprocess.py:26 | `$1,234,567` becomes `$1,$234,567`, because the scan restarts after a comma |
| CommaRule.InsertDollarsNotIdempotent | src/preprocess.py:26 | a second application of the rule can change the text again |
| Text.Strip | src/validate.py:41 | `strip` cuts whitespace only at the ends, and leaves none at either end |
| Text.StripUnique | src/validate.py:41 | the strip is the only whitespace-free-ended string obtained from the input by cutting whitespace at the ends |
| Text.StripIdempotent | src/validate.py:41 | stripping twice is stripping once |
| Text.StripEmpty | src/validate.py:24 | stripping leaves nothing iff the string is all whitespace |
| Text.Digits | src/validate.py:33 | the digit filter yields only digits and is no longer than its input |
| Text.DigitsAppend | src/validate.py:33 | the digit filter keeps digits in their order: it distributes over concatenation |
| Text.DigitsEmpty | src/validate.py:33-34 | the filter is empty iff the string has no digit |
| Text.DecimalRoundTrip | src/preprocess.py:57 | the decimal rendering of a number reads back as that number |
| Text.ZeroPad3RoundTrip | src/preprocess.py:57 | `{i:03d}` is at least three digits wide, exactly three below 1000, and reads back as `i` |
| Text.IntTextShape | src/preprocess.py:57 | a coordinate's rendering is its digits, with a leading `-` for a negative one |
| Text.SplitJoin | src/preprocess.py:58 | joining separator-free parts and splitting the result gives the parts back |
| Pages.Min | src/preprocess.py:55-56 | `min` over a non-empty sequence is an element that no element is below |
| Preprocess.CleanLines | src/preprocess.py:42-45 | every line keeps its score and box, and its text is replaced by the repaired text |
| Preprocess.PreprocessPages | src/preprocess.py:38-48 | one page per input page, in order; each keeps everything but its lines, whose texts are repaired |
| Preprocess.PreprocessPagesLine | src/preprocess.py:38-48 | every page keeps its index and its line count; every line keeps its score and box and gets the repaired text |
| Preprocess.PreprocessPagesAppend | src/preprocess.py:41-46 | pages are processed independently of each other |
| Preprocess.PageAsLayoutText | src/preprocess.py:51-58 | rendering succeeds iff every line has a non-empty box, since `min` of an empty box raises |
| Preprocess.PageAsLayoutTextEmpty | src/preprocess.py:53-58 | a page without lines renders as the empty string |
| Preprocess.ParseChunkText | src/preprocess.py:57 | every chunk reads back as the number, coordinates and text it was written from |
| Preprocess.ChunkNoBreak | src/preprocess.py:57 | a chunk contains a line break only where its line's text does |
| Preprocess.PageAsLayoutTextRoundTrip | src/preprocess.py:51-58 | the rendering splits into one chunk per line, in order; chunk `j` carries `j+1`, the least y and least x of its box, and its text |
| PdfUtils.PagesToLayoutJson | src/utils/pdf_utils.py:4-11 | one entry per page in input order, carrying the page's index and its rendered text |
| PdfUtils.PagesToLayoutJsonOk | src/utils/pdf_utils.py:6-10 | the document is built iff every line of every page has a box |
| PdfUtils.PagesToLayoutJsonKeepsEmptyPages | src/utils/pdf_utils.py:6-10 | a page without lines is kept, with empty layout text |
| Prompts.FieldsDistinct | src/prompts.py:3-13 | the catalogue names nine distinct fields |
| Prompts.GuidelinesCoverFields | src/prompts.py:15-25 | exactly the catalogued fields have a guideline |
| Prompts.Definition | src/prompts.py:50 | a catalogued field gets its guideline, and any other field gets `No definition provided.` |
| Prompts.Repr | src/prompts.py:33-43 | `repr` of a string, as `str` of a dictionary writes it, is framed by the quote Python picks and reads back as the string |
| Prompts.LayoutReprCarriesPages | src/prompts.py:43 | every page's text appears in the rendered document as a literal that reads back as it |
| Prompts.FullDocPrompt | src/prompts.py:27-44 | `strip` removes only the template's framing line breaks: the prompt is the intro, the rendered catalogue, the rules, then the whole rendered document |
| Prompts.FieldPrompt | src/prompts.py:46-57 | `strip` removes only the framing line breaks: the prompt is a head depending only on the field, then the whole rendered document |
| Prompts.PromptsCarryLayout | src/prompts.py:42-57 | both prompts carry every page's text in full, as a literal that reads back as the text |
| Prompts.FieldPromptNamesField | src/prompts.py:48-53 | the per-field prompt shows the one-key answer format for the requested field and that field's definition line |
| Pipeline.FieldListsAgree | src/pipeline.py:12-16 | `REQUIRED_FIELDS`, `PREF_ORDER` and `FIELDS` are the same nine distinct names in the same order |
| Pipeline.MissingFrom | src/pipeline.py:30 | the missing keys are exactly the listed keys whose value is absent or falsy, kept in order and without repeats |
| Pipeline.Missing | src/pipeline.py:30 | the missing fields are exactly the required fields whose value is absent or falsy, in order, each once |
| Pipeline.AsRecord | src/pipeline.py:28-30 | a record is read from the extractor's answer iff the answer is a JSON object |
| Pipeline.MissingEmpty | src/pipeline.py:30-31 | nothing is missing iff every required field has a truthy value |
| Pipeline.TruthyNeverRequested | src/pipeline.py:30-32 | a field with a truthy value is never requested again |
| Pipeline.ReconcileComplete | src/pipeline.py:31-37 | when nothing is missing, the result is `normalize(full)`, with no merge and no per-field call |
| Pipeline.ReconcileIncomplete | src/pipeline.py:31-37 | when something is missing, the per-field answer for exactly the missing fields is merged in and the merge normalised |
| Pipeline.ReconcileAsksOnlyMissing | src/pipeline.py:30-33 | the per-field pass depends only on what the extractor answers for the missing fields |
| Pipeline.Reconcile | src/pipeline.py:30-37 | it fails iff something is missing and the per-field answer is not an object; what it returns is normalised and keeps every key of the whole-document record |
| Pipeline.Attempt | src/pipeline.py:19-37 | a failing OCR stage fails the attempt, and every record it returns is normalised |
| Pipeline.RunPipeline | src/pipeline.py:18-42 | a failing OCR stage gives `{}`, and the result is always either `{}` or a normalised record, never a partial one |
| Pipeline.FailureGivesEmpty | src/pipeline.py:40-42 | a failing OCR stage, an unrenderable page, or an extractor raising or answering with a non-object yields `{}` and never a partial record |
| Pipeline.SuccessGivesRecord | src/pipeline.py:19-39 | otherwise the result is the reconciled record for the repaired, rendered pages |
| GeminiExtractor.InvokeFrom | src/gemini_extractor.py:18 | no more attempts are made than remain |
| GeminiExtractor.InvokeFromSpec | src/gemini_extractor.py:17-52 | a value is returned iff some remaining attempt succeeds: the first such, after one sleep per failed attempt; otherwise the call raises after every attempt, with a sleep between each two |
| GeminiExtractor.RetryInvoke | src/gemini_extractor.py:17-52 | at most `retries` attempts are made; a value comes back iff some attempt succeeds, and otherwise the call raises the give-up error |
| GeminiExtractor.RetryInvokeFirstSuccess | src/gemini_extractor.py:18-50 | success on attempt `j` returns its value after `j+1` attempts and exactly `j` sleeps |
| GeminiExtractor.RetryInvokeAllFail | src/gemini_extractor.py:47-52 | when no attempt succeeds, or `retries <= 0`, the call raises after `max(0, retries)` attempts and `max(0, retries-1)` sleeps |
| GeminiExtractor.RetryInvokeLoop | src/gemini_extractor.py:17-52 | the loop as written counts the same result, attempts and sleeps as the recursive definition |
| Ocr.SizeZero | src/ocr.py:96 | an array is empty iff one of its dimensions is 0 |
| Ocr.Accepted | src/ocr.py:94-99 | the guard lets an array through iff it is uint8 of shape (H, W, 3) with H and W positive |
| Ocr.Shrunk | src/ocr.py:115-121 | the shrink attempt's array, when there is one, is one the guard accepts |
| Ocr.Plan | src/ocr.py:103-129 | the ladder has four attempts: two with the array as given and the caller's flag, one with a shrunk array the guard accepts when there is one, and a last one with the array as given and no angle classification |
| Ocr.LadderFrom | src/ocr.py:103-132 | from any attempt on, every engine call is at a later attempt with the planned array and flag, and the guard accepts that array |
| Ocr.SafeOcr | src/ocr.py:103-132 | at most four engine calls, in attempt order, each with an array the guard accepts |
| Ocr.LadderStep | src/ocr.py:105-129 | an attempt stopped by the guard or raised by the engine passes on to the next; only a guarded-through attempt counts as a call |
| Ocr.SafeOcrFirstSuccess | src/ocr.py:103-129 | the first attempt that passes the guard and returns gives the answer |
| Ocr.SafeOcrAllFail | src/ocr.py:126-132 | when every attempt fails, the answer is `[]`, after calling the engine on every attempt the guard passes |
| Ocr.SafeOcrCallArrays | src/ocr.py:105-127 | attempts 1, 2 and 4 use the array as given, the last without angle classification; attempt 3 uses the shrunk array of a page larger than 1 by 1 |
| Ocr.SafeOcrPrepared | src/ocr.py:105-106 | a prepared non-empty page reaches the engine on the first attempt, and its answer is used when the call returns |
| Ocr.LineOf | src/ocr.py:144-153 | a detection becomes a line with its own box; a pair unpacks into its text and its score; anything else becomes its `str` with score 0; a pair whose score `float()` rejects is kept away by the caller |
| Ocr.LinesOf | src/ocr.py:143-153 | one line per detection |
| Ocr.Flatten | src/ocr.py:141-153 | every line of the result comes from a detection of some result, and every detection gives a line |
| Ocr.FlattenOne | src/ocr.py:141-153 | one result contributes its detections, one line each, in order |
| Ocr.FlattenAppend | src/ocr.py:142-143 | flattening concatenated results concatenates their lines |
| Ocr.LineKey | src/ocr.py:156-161 | the key is the least y and the least x over the box, taken separately, each attained by some point; (0, 0) without a box |
| Ocr.RunPage | src/ocr.py:135-166 | the page keeps the given index and its lines are in reading order |
| Ocr.RunPageLines | src/ocr.py:136-166 | a readable answer yields its lines sorted by (least y, least x) as a permutation, with ties in detection order; an unreadable one yields no lines |
| Ocr.Run | src/ocr.py:169-183 | one page per image, page `i` carrying index `i` |
| Ocr.RunInPageOrder | src/ocr.py:169-183 | whatever order the pages finish in, page `i` of the result is image `i` read as page `i` |
| Ocr.RunSequential | src/ocr.py:173-175 | with one worker the pages arrive in image order and the result is the same |
| StableSort.SortBy | src/ocr.py:156-161 | the sort returns a permutation of its input in key order |
| StableSort.InsertWithKey | src/ocr.py:156-161 | insertion keeps the relative order of elements with the same key |
| StableSort.SortByStable | src/ocr.py:156-161 | the sort is sorted, a permutation, and stable: elements with equal keys keep their input order |
| StableSort.SortBySortedDistinct | src/ocr.py:182 | input already in strict key order comes back unchanged |
| StableSort.SortByNumbered | src/ocr.py:182 | sorting `n` items whose first keys are distinct and lie in `[0, n)` puts the item numbered `i` at position `i` |

## Left out

- PDF rasterisation (`pdf_to_images`) and `_prepare_np`: these are image-library and float work. The model starts from prepared arrays, given as a dtype flag and a shape.
- The recognition engine, its lock and the thread pool: the engine is a parameter per page. Concurrency appears only as the order in which pages finish, which the final sort removes.
- Ocr.Shrunk: the image-library resize is modelled only for RGB uint8 arrays. Any other array ends the third attempt without an engine call, as a failed conversion or a guard rejection does. `int(h * 0.8)` is modelled as `(4 * h) / 5`, which equals it for every side below 2^50.
- Ocr.RunPage: an exception raised while preparing the array (lines 137 and 164-166) is not modelled. Only an unreadable engine answer, including a score `float()` rejects, leads to a page without lines.
- Ocr.LineOf: a recognised text is taken to be a string. A non-string text would make the repair pass raise, and `run_pipeline` would return `{}`; that path is not modelled.
- GeminiExtractor.RetryInvoke: the HTTP request, the payload, `raise_for_status`, the response digging, `json.loads` and `time.sleep` are abstracted into one outcome per attempt. The delay is counted, not waited.
- `src/gemini_extractor.py` as shown lacks its `Dict`, `HEADERS` and `time` imports and defines no `extract_full` or `extract_fields`. Those two calls are parameters of `Pipeline`.
- Validate.IsValid: `dateparser.parse` is an external library, modelled as a parameter `string -> bool`.
- Text.Strip: character classes (`\d`, `\w`, `\b`, `\s`, `isdigit`, `strip`) are their ASCII parts. Unicode digits, spaces and letters are not modelled.
- Misreads.NmlsOAt: `re.I` is modelled as ASCII case folding. Python also folds `ſ` to `s` and `K` (Kelvin sign) to `k`; that is left out.
- Prompts.Repr: `repr` escapes are modelled for quotes, backslash, `\n`, `\r`, `\t` and the Latin-1 control, no-break-space and soft-hyphen characters. The escapes of other non-printable Unicode characters are left out.
- Preprocess.PageAsLayoutText: coordinates are integers. The float formatting `{y:.0f}` of non-integral coordinates is not modelled.
- Logging throughout, `save_json` (file I/O), `run.py`, `process_mortgage_pdfs.py`, `src/extract.py` and `src/modules/ai_extraction.py`: these are the command line, file handling and HTTP demos around the core.
