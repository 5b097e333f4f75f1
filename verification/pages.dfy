/**
 * The OCR page record passed between the stages: a page index and its text
 * lines, each with a recognition score and the polygon of its box.
 * Coordinates are integers (the engine's pixel coordinates after rounding).
 */
module Pages {
  datatype Point = Point(x: int, y: int)

  /** One recognised line: `{"text", "score", "box"}`. */
  datatype Line = Line(text: string, score: real, box: seq<Point>)

  /** One page: `{"page_index", "lines"}`. */
  datatype Page = Page(pageIndex: int, lines: seq<Line>)

  /** `min(v)`, for a non-empty sequence. */
  function Min(v: seq<int>): (m: int)
    requires |v| > 0
    ensures forall k :: 0 <= k < |v| ==> m <= v[k]
    ensures exists k :: 0 <= k < |v| && v[k] == m
  {
    if |v| == 1 then v[0]
    else
      var rest := Min(v[1..]);
      assert forall k :: 1 <= k < |v| ==> v[1..][k - 1] == v[k];
      if v[0] <= rest then v[0] else rest
  }

  function Ys(box: seq<Point>): (v: seq<int>)
    ensures |v| == |box| && forall k :: 0 <= k < |box| ==> v[k] == box[k].y
  {
    seq(|box|, k requires 0 <= k < |box| => box[k].y)
  }

  function Xs(box: seq<Point>): (v: seq<int>)
    ensures |v| == |box| && forall k :: 0 <= k < |box| ==> v[k] == box[k].x
  {
    seq(|box|, k requires 0 <= k < |box| => box[k].x)
  }
}
