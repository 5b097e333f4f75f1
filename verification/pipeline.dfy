/**
 * `run_pipeline`: OCR, repair, layout, whole-document extraction, a per-field
 * pass for the fields still missing, merge, normalisation. Any exception
 * turns the whole result into `{}`.
 *
 * The OCR stage and the two extractor calls are parameters: the OCR stage
 * is its outcome, and each extractor is a function from its arguments to
 * the decoded JSON value it returns, or to the error it raises.
 */
module Pipeline {
  import opened Text
  import opened Results
  import opened Json
  import opened Validate
  import opened Pages
  import Preprocess
  import PdfUtils
  import Merge
  import Prompts

  const REQUIRED_FIELDS: seq<string> := [
    "borrowers", "loan_amount", "recording_date", "recording_location",
    "lender_name", "lender_nmls_id", "broker_name",
    "loan_originator_name", "loan_originator_nmls_id"
  ]

  /** The merger, the pipeline and the prompt catalogue list the same nine fields in the
      same order. */
  lemma FieldListsAgree()
    ensures REQUIRED_FIELDS == Merge.PREF_ORDER == Prompts.FIELDS
    ensures |REQUIRED_FIELDS| == 9 && Distinct(REQUIRED_FIELDS)
  {
    Prompts.FieldsDistinct();
  }

  type FullExtractor = PdfUtils.LayoutDoc -> Result<Value>

  type FieldExtractor = (PdfUtils.LayoutDoc, seq<string>) -> Result<Value>

  /** `ys` is `xs` with some elements left out, the rest kept in order. */
  predicate Subsequence(ys: seq<string>, xs: seq<string>)
    decreases |xs|
  {
    if ys == [] then true
    else if xs == [] then false
    else (ys[0] == xs[0] && Subsequence(ys[1..], xs[1..])) || Subsequence(ys, xs[1..])
  }

  /** `[k for k in keys if not full.get(k)]`. */
  function MissingFrom(keys: seq<string>, full: Record): (m: seq<string>)
    ensures forall k :: k in m <==> k in keys && !Truthy(Get(full, k))
    ensures Subsequence(m, keys)
    ensures Distinct(keys) ==> Distinct(m)
    decreases |keys|
  {
    if keys == [] then []
    else
      var rest := MissingFrom(keys[1..], full);
      assert forall k :: k in keys <==> k == keys[0] || k in keys[1..];
      assert Distinct(keys) ==> Distinct(keys[1..]) by {
        if Distinct(keys) {
          forall i, j | 0 <= i < j < |keys[1..]| ensures keys[1..][i] != keys[1..][j] {
            assert keys[1..][i] == keys[i + 1] && keys[1..][j] == keys[j + 1];
          }
        }
      }
      if !Truthy(Get(full, keys[0])) then
        assert ([keys[0]] + rest)[1..] == rest;
        [keys[0]] + rest
      else
        SubsequenceSkip(rest, keys);
        rest
  }

  lemma SubsequenceSkip(ys: seq<string>, xs: seq<string>)
    requires xs != [] && Subsequence(ys, xs[1..])
    ensures Subsequence(ys, xs)
  {
  }

  /** The required fields whose value in `full` is absent or falsy. */
  function Missing(full: Record): (m: seq<string>)
    ensures forall k :: k in m <==> k in REQUIRED_FIELDS && !Truthy(Get(full, k))
    ensures Subsequence(m, REQUIRED_FIELDS) && Distinct(m)
  {
    FieldListsAgree();
    MissingFrom(REQUIRED_FIELDS, full)
  }

  /** `full.get(...)` needs a dictionary: any other JSON value raises. */
  function AsRecord(v: Value): (r: Result<Record>)
    ensures r.Ok? <==> v.Obj?
    ensures v.Obj? ==> r.value == v.fields
  {
    if v.Obj? then Ok(v.fields) else Err("object has no attribute 'get'")
  }

  /** The per-field answer merged into the whole-document record and normalised. */
  function Complete(full: Record, answer: Result<Value>, parsesDate: DateParser): Result<Record> {
    var v :- answer;
    var perField :- AsRecord(v);
    Ok(Normalize(Merge.Merge(full, perField, parsesDate)))
  }

  /** Lines 30-37: ask for the missing fields, merge them in, normalise. It fails only when
      something is missing and the per-field answer is not an object; what it returns is
      normalised and keeps every key of the whole-document record. */
  function Reconcile(full: Record, layout: PdfUtils.LayoutDoc, extractFields: FieldExtractor, parsesDate: DateParser): (r: Result<Record>)
    ensures r.Err? <==> Missing(full) != [] && !(extractFields(layout, Missing(full)).Ok? && extractFields(layout, Missing(full)).value.Obj?)
    ensures r.Ok? ==> Normalize(r.value) == r.value && full.Keys <= r.value.Keys
  {
    var missing := Missing(full);
    if missing != [] then
      var answer := extractFields(layout, missing);
      if answer.Ok? && answer.value.Obj? then
        NormalizeIdempotent(Merge.Merge(full, answer.value.fields, parsesDate));
        Complete(full, answer, parsesDate)
      else Complete(full, answer, parsesDate)
    else
      NormalizeIdempotent(full);
      Ok(Normalize(full))
  }

  /** The body of the `try`: fails when the OCR stage fails; anything it returns is normalised. */
  function Attempt(ocr: Result<seq<Page>>, extractFull: FullExtractor, extractFields: FieldExtractor, parsesDate: DateParser): (r: Result<Record>)
    ensures ocr.Err? ==> r.Err?
    ensures r.Ok? ==> Normalize(r.value) == r.value
  {
    var pages :- ocr;
    var cleaned := Preprocess.PreprocessPages(pages);
    var layout :- PdfUtils.PagesToLayoutJson(cleaned);
    var answer :- extractFull(layout);
    var full :- AsRecord(answer);
    Reconcile(full, layout, extractFields, parsesDate)
  }

  /** `run_pipeline(...)`: the record, or `{}` when anything raised. Whatever happens, the
      result is never a partial, un-normalised record: it is `{}` or a normalised record. */
  function RunPipeline(ocr: Result<seq<Page>>, extractFull: FullExtractor, extractFields: FieldExtractor, parsesDate: DateParser): (r: Record)
    ensures ocr.Err? ==> r == map[]
    ensures r == map[] || Normalize(r) == r
  {
    var outcome := Attempt(ocr, extractFull, extractFields, parsesDate);
    if outcome.Ok? then outcome.value else map[]
  }

  // ---------------------------------------------------------------------
  // Properties
  // ---------------------------------------------------------------------

  /** Nothing is missing exactly when every required field has a truthy value. */
  lemma MissingEmpty(full: Record)
    ensures Missing(full) == [] <==> forall k :: k in REQUIRED_FIELDS ==> Truthy(Get(full, k))
  {
    var m := Missing(full);
    if m != [] {
      assert m[0] in m;
    }
  }

  /** A field whose whole-document value is truthy is never asked for again. */
  lemma TruthyNeverRequested(full: Record, k: string)
    requires Truthy(Get(full, k))
    ensures k !in Missing(full)
  {
  }

  /** When nothing is missing the per-field extractor is not consulted and no merge happens:
      the result is the normalised whole-document record. */
  lemma ReconcileComplete(full: Record, layout: PdfUtils.LayoutDoc, extractFields: FieldExtractor, parsesDate: DateParser)
    requires forall k :: k in REQUIRED_FIELDS ==> Truthy(Get(full, k))
    ensures Missing(full) == []
    ensures Reconcile(full, layout, extractFields, parsesDate) == Ok(Normalize(full))
  {
    MissingEmpty(full);
  }

  /** When something is missing, the per-field answer for exactly the missing fields is merged
      into the whole-document record before normalising. */
  lemma ReconcileIncomplete(full: Record, layout: PdfUtils.LayoutDoc, extractFields: FieldExtractor, parsesDate: DateParser, perField: Record)
    requires exists k :: k in REQUIRED_FIELDS && !Truthy(Get(full, k))
    requires extractFields(layout, Missing(full)) == Ok(Obj(perField))
    ensures Reconcile(full, layout, extractFields, parsesDate) == Ok(Normalize(Merge.Merge(full, perField, parsesDate)))
  {
    MissingEmpty(full);
    CompleteObject(full, perField, parsesDate);
  }

  lemma CompleteObject(full: Record, perField: Record, parsesDate: DateParser)
    ensures Complete(full, Ok(Obj(perField)), parsesDate) == Ok(Normalize(Merge.Merge(full, perField, parsesDate)))
  {
    assert AsRecord(Obj(perField)) == Ok(perField);
  }

  /** The per-field pass only sees the missing fields: extractors that agree on them give the
      same outcome. */
  lemma ReconcileAsksOnlyMissing(full: Record, layout: PdfUtils.LayoutDoc, f1: FieldExtractor, f2: FieldExtractor, parsesDate: DateParser)
    requires f1(layout, Missing(full)) == f2(layout, Missing(full))
    ensures Reconcile(full, layout, f1, parsesDate) == Reconcile(full, layout, f2, parsesDate)
  {
  }

  /** A failing stage yields `{}`, never a partial record: OCR failing, a page that cannot be
      rendered, either extractor raising or answering with something other than an object. */
  lemma FailureGivesEmpty(ocr: Result<seq<Page>>, extractFull: FullExtractor, extractFields: FieldExtractor, parsesDate: DateParser)
    requires
      || ocr.Err?
      || PdfUtils.PagesToLayoutJson(Preprocess.PreprocessPages(ocr.value)).Err?
      || (var layout := PdfUtils.PagesToLayoutJson(Preprocess.PreprocessPages(ocr.value)).value;
          || !extractFull(layout).Ok?
          || !extractFull(layout).value.Obj?
          || (var full := extractFull(layout).value.fields;
              Missing(full) != [] && (!extractFields(layout, Missing(full)).Ok? || !extractFields(layout, Missing(full)).value.Obj?)))
    ensures RunPipeline(ocr, extractFull, extractFields, parsesDate) == map[]
  {
  }

  /** Otherwise the result is the normalised record, merged with the per-field answer exactly
      when something was missing. */
  lemma SuccessGivesRecord(pages: seq<Page>, extractFull: FullExtractor, extractFields: FieldExtractor, parsesDate: DateParser, full: Record)
    requires PdfUtils.PagesToLayoutJson(Preprocess.PreprocessPages(pages)).Ok?
    requires extractFull(PdfUtils.PagesToLayoutJson(Preprocess.PreprocessPages(pages)).value) == Ok(Obj(full))
    ensures var layout := PdfUtils.PagesToLayoutJson(Preprocess.PreprocessPages(pages)).value;
      RunPipeline(Ok(pages), extractFull, extractFields, parsesDate) ==
        match Reconcile(full, layout, extractFields, parsesDate)
        case Ok(r) => r
        case Err(_) => map[]
  {
  }
}
