/**
 * `pages_to_layout_json`: the document object sent to the language model,
 * `{"pages": [{"page_index", "layout_text"}, ...]}`. The datatype has the
 * single field `pages`, so the object has no other key.
 */
module PdfUtils {
  import opened Results
  import opened Pages
  import Preprocess

  datatype LayoutPage = LayoutPage(pageIndex: int, layoutText: string)

  datatype LayoutDoc = LayoutDoc(pages: seq<LayoutPage>)

  /** One entry per page, in order; a page that cannot be rendered aborts the document. */
  function PagesToLayoutJson(pages: seq<Page>): (r: Result<LayoutDoc>)
    ensures r.Ok? ==> |r.value.pages| == |pages|
    ensures r.Ok? ==> forall i :: 0 <= i < |pages| ==>
      r.value.pages[i].pageIndex == pages[i].pageIndex &&
      Preprocess.PageAsLayoutText(pages[i]) == Ok(r.value.pages[i].layoutText)
    decreases |pages|
  {
    if pages == [] then Ok(LayoutDoc([]))
    else
      match Preprocess.PageAsLayoutText(pages[0])
      case Err(e) => Err(e)
      case Ok(t) =>
        match PagesToLayoutJson(pages[1..])
        case Err(e) => Err(e)
        case Ok(rest) =>
          assert forall i :: 1 <= i < |pages| ==> pages[1..][i - 1] == pages[i];
          Ok(LayoutDoc([LayoutPage(pages[0].pageIndex, t)] + rest.pages))
  }

  /** The document is built exactly when every page renders, that is, when no line of any
      page has an empty box. */
  lemma {:induction false} PagesToLayoutJsonOk(pages: seq<Page>)
    ensures PagesToLayoutJson(pages).Ok? <==> forall i :: 0 <= i < |pages| ==> Preprocess.Boxed(pages[i].lines)
    decreases |pages|
  {
    if pages != [] {
      PagesToLayoutJsonOk(pages[1..]);
      assert forall i :: 1 <= i < |pages| ==> pages[1..][i - 1] == pages[i];
    }
  }

  /** A page without lines is kept, with empty layout text. */
  lemma PagesToLayoutJsonKeepsEmptyPages(pages: seq<Page>, i: nat)
    requires PagesToLayoutJson(pages).Ok? && i < |pages| && pages[i].lines == []
    ensures PagesToLayoutJson(pages).value.pages[i] == LayoutPage(pages[i].pageIndex, "")
  {
    Preprocess.PageAsLayoutTextEmpty(pages[i]);
  }
}
