/**
 * The per-page stages after OCR: repairing every line's text, and rendering a
 * page as one `[NNN|y=..|x=..] text` chunk per line, chunks joined by `\n`.
 */
module Preprocess {
  import opened Text
  import opened Results
  import opened Pages
  import Misreads

  // ---------------------------------------------------------------------
  // preprocess_pages
  // ---------------------------------------------------------------------

  /** Each line with its text passed through `f`, score and box kept. */
  function MapTexts(ls: seq<Line>, f: string -> string): (r: seq<Line>)
    ensures |r| == |ls|
    ensures forall j :: 0 <= j < |ls| ==> r[j] == ls[j].(text := f(ls[j].text))
  {
    if ls == [] then [] else [ls[0].(text := f(ls[0].text))] + MapTexts(ls[1..], f)
  }

  /** `{**l, "text": fix_common_misreads(l["text"])}` over a page's lines. */
  function CleanLines(ls: seq<Line>): (r: seq<Line>)
    ensures |r| == |ls|
    ensures forall j :: 0 <= j < |ls| ==>
      r[j] == ls[j].(text := Misreads.FixCommonMisreads(ls[j].text))
  {
    MapTexts(ls, Misreads.FixCommonMisreads)
  }

  /** Each page with its lines passed through `f`, index kept. */
  function MapPageLines(pages: seq<Page>, f: seq<Line> -> seq<Line>): (r: seq<Page>)
    ensures |r| == |pages|
    ensures forall i :: 0 <= i < |pages| ==> r[i] == pages[i].(lines := f(pages[i].lines))
  {
    if pages == [] then [] else [pages[0].(lines := f(pages[0].lines))] + MapPageLines(pages[1..], f)
  }

  /** Page by page, the page with its lines repaired. */
  function PreprocessPages(pages: seq<Page>): (r: seq<Page>)
    ensures |r| == |pages|
    ensures forall i :: 0 <= i < |pages| ==> r[i] == pages[i].(lines := CleanLines(pages[i].lines))
  {
    MapPageLines(pages, CleanLines)
  }

  /** Every page keeps its index and its number of lines; each line keeps its score and box,
      and its text is repaired: no whitespace at either end, no typographic quote or dash. */
  lemma PreprocessPagesLine(pages: seq<Page>, i: nat, j: nat)
    requires i < |pages| && j < |pages[i].lines|
    ensures var r := PreprocessPages(pages);
      r[i].pageIndex == pages[i].pageIndex && |r[i].lines| == |pages[i].lines|
      && r[i].lines[j].score == pages[i].lines[j].score && r[i].lines[j].box == pages[i].lines[j].box
      && r[i].lines[j].text == Misreads.FixCommonMisreads(pages[i].lines[j].text)
    ensures var t := PreprocessPages(pages)[i].lines[j].text;
      Tight(t) && forall q :: 0 <= q < |t| ==> !Misreads.IsTypographic(t[q])
  {
  }

  /** Pages are processed independently of each other. */
  lemma PreprocessPagesAppend(a: seq<Page>, b: seq<Page>)
    ensures PreprocessPages(a + b) == PreprocessPages(a) + PreprocessPages(b)
  {
    MapPageLinesAppend(a, b, CleanLines);
  }

  lemma MapPageLinesAppend(a: seq<Page>, b: seq<Page>, f: seq<Line> -> seq<Line>)
    ensures MapPageLines(a + b, f) == MapPageLines(a, f) + MapPageLines(b, f)
  {
    var l := MapPageLines(a + b, f);
    var r := MapPageLines(a, f) + MapPageLines(b, f);
    forall i | 0 <= i < |l| ensures l[i] == r[i] {
      if i < |a| {
        assert (a + b)[i] == a[i];
      } else {
        assert (a + b)[i] == b[i - |a|];
      }
    }
  }

  // ---------------------------------------------------------------------
  // page_as_layout_text
  // ---------------------------------------------------------------------

  /** The fields one chunk carries. */
  datatype ChunkFields = ChunkFields(index: nat, y: int, x: int, text: string)

  /** `f"[{i:03d}|y={y:.0f}|x={x:.0f}] {text}"`, built from the right. */
  function ChunkText(c: ChunkFields): string {
    "[" + (ZeroPad3(c.index) + ("|" + YPart(c.y, XPart(c.x, c.text))))
  }

  function YPart(y: int, rest: string): string {
    "y=" + (IntText(y) + ("|" + rest))
  }

  function XPart(x: int, text: string): string {
    "x=" + (IntText(x) + ("]" + (" " + text)))
  }

  /** The chunk of line `l` at 1-based position `i`. */
  function LineChunk(i: nat, l: Line): string
    requires l.box != []
  {
    ChunkText(ChunkFields(i, Min(Ys(l.box)), Min(Xs(l.box)), l.text))
  }

  /** Every line has a box to take the minimum over. */
  predicate Boxed(ls: seq<Line>) {
    forall j :: 0 <= j < |ls| ==> ls[j].box != []
  }

  /** `page_as_layout_text(page)`: `min` over an empty box raises, which aborts the page. */
  function PageAsLayoutText(page: Page): (r: Result<string>)
    ensures r.Ok? <==> Boxed(page.lines)
  {
    var ls := page.lines;
    if Boxed(ls) then Ok(Join(seq(|ls|, j requires 0 <= j < |ls| => LineChunk(j + 1, ls[j])), "\n"))
    else Err("min() arg is an empty sequence")
  }

  /** A page without lines renders as the empty string. */
  lemma PageAsLayoutTextEmpty(page: Page)
    requires page.lines == []
    ensures PageAsLayoutText(page) == Ok("")
  {
  }

  // ---------------------------------------------------------------------
  // Reading a chunk back
  // ---------------------------------------------------------------------

  /** An optionally signed decimal integer, as `IntText` writes it. */
  function ParseInt(t: string): (r: Option<int>) {
    if |t| > 1 && t[0] == '-' && AllDigits(t[1..]) then Some(0 - ValueOf(t[1..]) as int)
    else if |t| > 0 && AllDigits(t) then Some(ValueOf(t) as int)
    else None
  }

  lemma ParseIntText(v: int)
    ensures ParseInt(IntText(v)) == Some(v)
    ensures '|' !in IntText(v) && ']' !in IntText(v) && '\n' !in IntText(v)
  {
    IntTextShape(v);
    if v < 0 {
      assert IntText(v) == "-" + Decimal(-v);
    }
  }

  /** The text before the first `sep`, and the rest after it. */
  function Before(s: string, sep: char): (r: Option<(string, string)>)
    ensures r.Some? ==> s == r.value.0 + ([sep] + r.value.1) && sep !in r.value.0
  {
    if sep !in s then None
    else
      var i := IndexOf(s, sep);
      assert s == s[..i] + ([sep] + s[i + 1..]);
      Some((s[..i], s[i + 1..]))
  }

  lemma BeforeSep(a: string, sep: char, b: string)
    requires sep !in a
    ensures Before(a + ([sep] + b), sep) == Some((a, b))
  {
    var s := a + ([sep] + b);
    assert s[|a|] == sep;
    var i := IndexOf(s, sep);
    assert i == |a|;
    assert s[..i] == a;
    assert s[i + 1..] == b;
  }

  lemma DropPrefix(a: string, b: string)
    ensures |a + b| >= |a| && (a + b)[..|a|] == a && (a + b)[|a|..] == b
  {
  }

  function ParseX(r: string): Option<(int, string)> {
    if |r| < 2 || r[..2] != "x=" then None
    else match Before(r[2..], ']')
      case None => None
      case Some((xs, rest)) =>
        match ParseInt(xs)
        case None => None
        case Some(x) => if |rest| >= 1 && rest[0] == ' ' then Some((x, rest[1..])) else None
  }

  function ParseY(r: string): Option<(int, int, string)> {
    if |r| < 2 || r[..2] != "y=" then None
    else match Before(r[2..], '|')
      case None => None
      case Some((ys, rest)) =>
        match (ParseInt(ys), ParseX(rest))
        case (Some(y), Some((x, t))) => Some((y, x, t))
        case _ => None
  }

  /** Read the index, the coordinates and the text back out of a chunk. */
  function ParseChunk(c: string): (r: Option<ChunkFields>) {
    if |c| == 0 || c[0] != '[' then None
    else match Before(c[1..], '|')
      case None => None
      case Some((idx, rest)) =>
        if |idx| < 3 || !AllDigits(idx) then None
        else match ParseY(rest)
          case None => None
          case Some((y, x, t)) => Some(ChunkFields(ValueOf(idx), y, x, t))
  }

  lemma ParseXPart(x: int, t: string)
    ensures ParseX(XPart(x, t)) == Some((x, t))
  {
    ParseIntText(x);
    DropPrefix("x=", IntText(x) + ("]" + (" " + t)));
    BeforeSep(IntText(x), ']', " " + t);
    DropPrefix(" ", t);
  }

  lemma ParseYPart(y: int, x: int, t: string)
    ensures ParseY(YPart(y, XPart(x, t))) == Some((y, x, t))
  {
    ParseIntText(y);
    DropPrefix("y=", IntText(y) + ("|" + XPart(x, t)));
    BeforeSep(IntText(y), '|', XPart(x, t));
    ParseXPart(x, t);
  }

  /** Every chunk reads back as the fields it was written from. */
  lemma ParseChunkText(c: ChunkFields)
    ensures ParseChunk(ChunkText(c)) == Some(c)
  {
    var p := ZeroPad3(c.index);
    ZeroPad3RoundTrip(c.index);
    assert '|' !in p by {
      forall k | 0 <= k < |p| ensures p[k] != '|' { assert IsDigit(p[k]); }
    }
    var r := YPart(c.y, XPart(c.x, c.text));
    DropPrefix("[", p + ("|" + r));
    BeforeSep(p, '|', r);
    ParseYPart(c.y, c.x, c.text);
  }

  /** A chunk contains a line break only where its line's text does. */
  lemma ChunkNoBreak(c: ChunkFields)
    requires '\n' !in c.text
    ensures '\n' !in ChunkText(c)
  {
    var p := ZeroPad3(c.index);
    ZeroPad3RoundTrip(c.index);
    ParseIntText(c.y);
    ParseIntText(c.x);
    assert '\n' !in p by {
      forall k | 0 <= k < |p| ensures p[k] != '\n' { assert IsDigit(p[k]); }
    }
    var xp := XPart(c.x, c.text);
    NotInCat('\n', " ", c.text);
    NotInCat('\n', "]", " " + c.text);
    NotInCat('\n', IntText(c.x), "]" + (" " + c.text));
    NotInCat('\n', "x=", IntText(c.x) + ("]" + (" " + c.text)));
    NotInCat('\n', "|", xp);
    NotInCat('\n', IntText(c.y), "|" + xp);
    NotInCat('\n', "y=", IntText(c.y) + ("|" + xp));
    var yp := YPart(c.y, xp);
    NotInCat('\n', "|", yp);
    NotInCat('\n', p, "|" + yp);
    NotInCat('\n', "[", p + ("|" + yp));
  }

  lemma NotInCat(c: char, a: string, b: string)
    requires c !in a && c !in b
    ensures c !in a + b
  {
  }

  /** The rendered page splits back into one chunk per line, in order, and chunk `j` carries
      the number `j + 1` and the least y and least x of line `j`'s box, followed by its text. */
  lemma PageAsLayoutTextRoundTrip(page: Page)
    requires |page.lines| > 0
    requires forall j :: 0 <= j < |page.lines| ==> page.lines[j].box != [] && '\n' !in page.lines[j].text
    ensures PageAsLayoutText(page).Ok?
    ensures var parts := Split(PageAsLayoutText(page).value, '\n');
      |parts| == |page.lines| &&
      forall j :: 0 <= j < |parts| ==>
        ParseChunk(parts[j]) == Some(ChunkFields(j + 1, Min(Ys(page.lines[j].box)), Min(Xs(page.lines[j].box)), page.lines[j].text))
  {
    var ls := page.lines;
    var cs := seq(|ls|, j requires 0 <= j < |ls| => LineChunk(j + 1, ls[j]));
    forall j | 0 <= j < |cs|
      ensures '\n' !in cs[j]
      ensures ParseChunk(cs[j]) == Some(ChunkFields(j + 1, Min(Ys(page.lines[j].box)), Min(Xs(page.lines[j].box)), page.lines[j].text))
    {
      var l := page.lines[j];
      var f := ChunkFields(j + 1, Min(Ys(l.box)), Min(Xs(l.box)), l.text);
      assert cs[j] == ChunkText(f);
      ChunkNoBreak(f);
      ParseChunkText(f);
    }
    SplitJoin(cs, '\n');
  }
}
