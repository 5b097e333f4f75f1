/**
 * The prompt catalogue: the nine extracted fields, their guidelines, and the
 * two prompt templates. Both templates interpolate Python dictionaries, which
 * `str()` renders with `repr` for every string inside; that rendering is
 * modelled here, with an unescaper that reads a rendered string back.
 */
module Prompts {
  import opened Text
  import opened Results
  import opened PdfUtils

  const FIELDS: seq<string> := [
    "borrowers",
    "loan_amount",
    "recording_date",
    "recording_location",
    "lender_name",
    "lender_nmls_id",
    "broker_name",
    "loan_originator_name",
    "loan_originator_nmls_id"
  ]

  const FIELD_GUIDELINES: map<string, string> := map[
    "borrowers" := "List all borrower names as they appear on the document. Preserve full names.",
    "loan_amount" := "Numeric loan amount in dollars, without commas. Example: 475950.00",
    "recording_date" := "Recording date in MM/DD/YYYY format.",
    "recording_location" := "County and state where recorded. Example: 'Albany County, New York'.",
    "lender_name" := "Full legal name of the lender.",
    "lender_nmls_id" := "Numeric NMLS ID of the lender (digits only).",
    "broker_name" := "Mortgage broker company name, if present.",
    "loan_originator_name" := "Full name of the individual loan originator.",
    "loan_originator_nmls_id" := "Numeric NMLS ID of the individual loan originator (digits only)."
  ]

  const NO_DEFINITION: string := "No definition provided."

  /** The catalogue names nine different fields. */
  lemma FieldsDistinct()
    ensures |FIELDS| == 9 && Distinct(FIELDS)
  {
  }

  /** Exactly the catalogued fields have a guideline. */
  lemma GuidelinesCoverFields()
    ensures FIELD_GUIDELINES.Keys == set f | f in FIELDS
  {
  }

  /** `FIELD_GUIDELINES.get(field, "No definition provided.")`. */
  function Definition(field: string): (d: string)
    ensures field in FIELDS ==> d == FIELD_GUIDELINES[field]
    ensures field !in FIELDS ==> d == NO_DEFINITION
  {
    GuidelinesCoverFields();
    if field in FIELD_GUIDELINES then FIELD_GUIDELINES[field] else NO_DEFINITION
  }

  // ---------------------------------------------------------------------
  // repr of a string
  // ---------------------------------------------------------------------

  /** `repr` quotes with `"` only when the text has a `'` and no `"`. */
  function QuoteFor(s: string): (q: char)
    ensures q == '\'' || q == '"'
  {
    if '\'' in s && '"' !in s then '"' else '\''
  }

  /** The characters `repr` writes as `\xhh` (control characters, no-break space and soft hyphen). */
  predicate Hidden(c: char) {
    var n := c as int;
    n < 0x20 || (0x7f <= n <= 0xa0) || n == 0xad
  }

  function HexDigit(n: nat): char
    requires n < 16
  {
    if n < 10 then ('0' as int + n) as char else ('a' as int + n - 10) as char
  }

  function HexValue(c: char): Option<nat> {
    if '0' <= c <= '9' then Some(c as int - '0' as int)
    else if 'a' <= c <= 'f' then Some(c as int - 'a' as int + 10)
    else None
  }

  /** How `repr` writes one character inside quotes `q`. */
  function EscapeChar(c: char, q: char): string {
    if c == q || c == '\\' then ['\\', c]
    else if c == '\t' then "\\t"
    else if c == '\n' then "\\n"
    else if c == '\r' then "\\r"
    else if Hidden(c) then ['\\', 'x', HexDigit(c as int / 16), HexDigit(c as int % 16)]
    else [c]
  }

  function Escape(s: string, q: char): string {
    if s == [] then [] else EscapeChar(s[0], q) + Escape(s[1..], q)
  }

  /** `repr(s)` for a `str`: a quoted literal that reads back as `s`. */
  function Repr(s: string): (r: string)
    ensures |r| >= 2 && r[0] == r[|r| - 1] == QuoteFor(s)
    ensures Unrepr(r) == Some(s)
  {
    var q := QuoteFor(s);
    var r := [q] + Escape(s, q) + [q];
    assert r[1..|r| - 1] == Escape(s, q);
    UnescapeEscape(s, q);
    r
  }

  function Cons(c: char, rest: Option<string>): Option<string> {
    if rest.Some? then Some([c] + rest.value) else None
  }

  /** Read the escapes of a string literal's body back. */
  function Unescape(t: string): Option<string>
    decreases |t|
  {
    if t == [] then Some([])
    else if t[0] != '\\' then Cons(t[0], Unescape(t[1..]))
    else if |t| < 2 then None
    else if t[1] == '\\' || t[1] == '\'' || t[1] == '"' then Cons(t[1], Unescape(t[2..]))
    else if t[1] == 't' then Cons('\t', Unescape(t[2..]))
    else if t[1] == 'n' then Cons('\n', Unescape(t[2..]))
    else if t[1] == 'r' then Cons('\r', Unescape(t[2..]))
    else if t[1] == 'x' && |t| >= 4 && HexValue(t[2]).Some? && HexValue(t[3]).Some? then
      Cons((HexValue(t[2]).value * 16 + HexValue(t[3]).value) as char, Unescape(t[4..]))
    else None
  }

  /** Read a quoted string literal back. */
  function Unrepr(r: string): Option<string> {
    if |r| >= 2 && (r[0] == '\'' || r[0] == '"') && r[|r| - 1] == r[0] then Unescape(r[1..|r| - 1])
    else None
  }

  lemma HexRoundTrip(n: nat)
    requires n < 16
    ensures HexValue(HexDigit(n)) == Some(n)
  {
  }

  lemma UnescapeChar(c: char, q: char, t: string)
    requires q == '\'' || q == '"'
    ensures Unescape(EscapeChar(c, q) + t) == Cons(c, Unescape(t))
  {
    var e := EscapeChar(c, q);
    var s := e + t;
    if |e| == 2 {
      assert s[2..] == t;
    } else if |e| == 4 {
      var n := c as int;
      HexRoundTrip(n / 16);
      HexRoundTrip(n % 16);
      assert s[4..] == t;
    } else {
      assert s[1..] == t;
    }
  }

  lemma {:induction false} UnescapeEscape(s: string, q: char)
    requires q == '\'' || q == '"'
    ensures Unescape(Escape(s, q)) == Some(s)
    decreases |s|
  {
    if s != [] {
      UnescapeEscape(s[1..], q);
      UnescapeChar(s[0], q, Escape(s[1..], q));
      assert [s[0]] + s[1..] == s;
    }
  }

  // ---------------------------------------------------------------------
  // str() of the dictionaries the prompts interpolate
  // ---------------------------------------------------------------------

  function PageRepr(p: LayoutPage): string {
    "{'page_index': " + IntText(p.pageIndex) + ", 'layout_text': " + Repr(p.layoutText) + "}"
  }

  function PageReprs(doc: LayoutDoc): seq<string> {
    seq(|doc.pages|, i requires 0 <= i < |doc.pages| => PageRepr(doc.pages[i]))
  }

  /** `str(layout_json)`. */
  function LayoutRepr(doc: LayoutDoc): (r: string)
    ensures |r| > 0 && r[|r| - 1] == '}'
  {
    "{'pages': [" + Join(PageReprs(doc), ", ") + "]}"
  }

  /** `str({field: FIELD_GUIDELINES[field] for field in FIELDS})`. */
  function CatalogueRepr(): string {
    GuidelinesCoverFields();
    "{" + Join(seq(|FIELDS|, i requires 0 <= i < |FIELDS| => Repr(FIELDS[i]) + ": " + Repr(FIELD_GUIDELINES[FIELDS[i]])), ", ") + "}"
  }

  /** Every page's text appears in the rendered document as a literal that reads back as
      that text. */
  lemma LayoutReprCarriesPages(doc: LayoutDoc, i: nat)
    requires i < |doc.pages|
    ensures Occurs(Repr(doc.pages[i].layoutText), LayoutRepr(doc))
  {
    var p := doc.pages[i];
    OccursMiddle("{'page_index': " + IntText(p.pageIndex) + ", 'layout_text': ", Repr(p.layoutText), "}");
    JoinOccurs(PageReprs(doc), ", ", i);
    assert PageReprs(doc)[i] == PageRepr(p);
    OccursTrans(Repr(p.layoutText), PageRepr(p), Join(PageReprs(doc), ", "));
    OccursWithin(Repr(p.layoutText), Join(PageReprs(doc), ", "), "{'pages': [", "]}");
  }

  // ---------------------------------------------------------------------
  // The templates
  // ---------------------------------------------------------------------

  const FULL_INTRO: string :=
    "You are an expert at reading " + "US mortgage/real-estate scanned documents.\n\n" +
    "Extract the following fields " + "from the OCR text and return STRICT JSON only:\n\n"

  const FULL_RULES: string :=
    "\n\nRules:\n" +
    "- Always return a JSON object with all fields, even if some are null.\n" +
    "- For currency, return numbers only (no '$' or commas).\n" +
    "- For dates, use MM/DD/YYYY.\n" +
    "- For NMLS IDs, return only digits.\n" +
    "- If truly missing, use null.\n\n" +
    "OCR_LAYOUT_JSON:\n"

  /** The field's one-key answer format, `{ "<field>": "value or null" }`. */
  function AnswerFormat(field: string): string {
    "{ \"" + field + "\": \"value or null\" }"
  }

  /** The first line of `field_prompt`, naming the field. */
  function FieldIntro(field: string): string {
    "Extract the field \"" + field + "\" from the OCR text.\n\n"
  }

  function DefinitionLine(field: string): string {
    "Definition: " + Definition(field) + "\n\n"
  }

  function FormatBlock(field: string): string {
    "Return JSON only in this format:\n" + AnswerFormat(field) + "\n\n"
  }

  /** The part of `field_prompt` before the document. */
  function FieldHead(field: string): string {
    FieldIntro(field) + DefinitionLine(field) + FormatBlock(field) + "OCR_LAYOUT_JSON:\n"
  }

  /** `full_doc_prompt(layout_json)`: the template starts and ends with a line break, which
      `strip` removes and nothing more, so the prompt ends with the whole rendered document. */
  function FullDocPrompt(doc: LayoutDoc): (r: string)
    ensures r == FULL_INTRO + CatalogueRepr() + FULL_RULES + LayoutRepr(doc)
  {
    FullDocFrame(CatalogueRepr(), LayoutRepr(doc));
    Strip("\n" + FULL_INTRO + CatalogueRepr() + FULL_RULES + LayoutRepr(doc) + "\n")
  }

  /** `field_prompt(layout_json, field)`: a head depending only on the field, then the whole
      rendered document. */
  function FieldPrompt(doc: LayoutDoc, field: string): (r: string)
    ensures r == FieldHead(field) + LayoutRepr(doc)
  {
    assert FieldIntro(field)[0] == 'E';
    assert FieldHead(field)[0] == 'E';
    StripFrame2(FieldHead(field), LayoutRepr(doc));
    Strip("\n" + FieldHead(field) + LayoutRepr(doc) + "\n")
  }

  /** `strip` takes off the template's framing line breaks and nothing else. */
  lemma StripFrame(body: string)
    requires |body| > 0 && !IsSpace(body[0]) && !IsSpace(body[|body| - 1])
    ensures Strip("\n" + body + "\n") == body
  {
    var s := "\n" + body + "\n";
    assert s[1..1 + |body|] == body;
    assert s[..1] == "\n";
    assert s[1 + |body|..] == "\n";
    StripUnique(s, 1, body);
  }

  lemma StripFrame2(a: string, b: string)
    requires |a| > 0 && !IsSpace(a[0]) && |b| > 0 && !IsSpace(b[|b| - 1])
    ensures Strip("\n" + a + b + "\n") == a + b
  {
    assert "\n" + a + b + "\n" == "\n" + (a + b) + "\n";
    StripFrame(a + b);
  }

  lemma StripFrame4(a: string, b: string, c: string, d: string)
    requires |a| > 0 && !IsSpace(a[0]) && |d| > 0 && !IsSpace(d[|d| - 1])
    ensures Strip("\n" + a + b + c + d + "\n") == a + b + c + d
  {
    assert "\n" + a + b + c + d + "\n" == "\n" + (a + b + c + d) + "\n";
    StripFrame(a + b + c + d);
  }

  lemma FullDocFrame(catalogue: string, layout: string)
    requires |layout| > 0 && layout[|layout| - 1] == '}'
    ensures Strip("\n" + FULL_INTRO + catalogue + FULL_RULES + layout + "\n") == FULL_INTRO + catalogue + FULL_RULES + layout
  {
    assert FULL_INTRO[0] == 'Y';
    StripFrame4(FULL_INTRO, catalogue, FULL_RULES, layout);
  }

  /** Both prompts carry every page's text in full, as a literal that reads back as the text. */
  lemma PromptsCarryLayout(doc: LayoutDoc, field: string, i: nat)
    requires i < |doc.pages|
    ensures Occurs(Repr(doc.pages[i].layoutText), FullDocPrompt(doc))
    ensures Occurs(Repr(doc.pages[i].layoutText), FieldPrompt(doc, field))
    ensures Unrepr(Repr(doc.pages[i].layoutText)) == Some(doc.pages[i].layoutText)
  {
    var t := Repr(doc.pages[i].layoutText);
    var l := LayoutRepr(doc);
    LayoutReprCarriesPages(doc, i);
    OccursSuffix(t, l, FULL_INTRO + CatalogueRepr() + FULL_RULES);
    OccursSuffix(t, l, FieldHead(field));
  }

  /** The per-field prompt asks for the requested field as the one key of its answer, and
      defines it by the field's guideline, or by the fallback text for an unknown field. */
  lemma FieldPromptNamesField(doc: LayoutDoc, field: string)
    ensures Occurs(AnswerFormat(field), FieldPrompt(doc, field))
    ensures Occurs("Definition: " + (if field in FIELDS then FIELD_GUIDELINES[field] else NO_DEFINITION), FieldPrompt(doc, field))
  {
    var i := FieldIntro(field);
    var d := DefinitionLine(field);
    var f := FormatBlock(field);
    var o := "OCR_LAYOUT_JSON:\n";
    var l := LayoutRepr(doc);
    // the definition line and the answer format are both parts of the head
    OccursSelf(d);
    OccursSuffix(d, d, i);
    OccursPrefix(d, i + d, f);
    OccursPrefix(d, i + d + f, o);
    OccursPrefix(d, FieldHead(field), l);
    OccursSelf(f);
    OccursSuffix(f, f, i + d);
    OccursPrefix(f, i + d + f, o);
    OccursPrefix(f, FieldHead(field), l);
    // and each carries the text asked for
    var def := "Definition: " + Definition(field);
    OccursSelf(def);
    OccursPrefix(def, def, "\n\n");
    OccursTrans(def, d, FieldPrompt(doc, field));
    var a := AnswerFormat(field);
    OccursSelf(a);
    OccursSuffix(a, a, "Return JSON only in this format:\n");
    OccursPrefix(a, "Return JSON only in this format:\n" + a, "\n\n");
    OccursTrans(a, f, FieldPrompt(doc, field));
  }
}
