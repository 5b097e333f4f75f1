/**
 * The OCR service around the recognition engine: the guard in front of every
 * engine call, the four-attempt recovery ladder of one page image, the
 * flattening and reading-order sort of the engine's detections, and the
 * batch run that returns one page per image in page order.
 *
 * The engine itself is a parameter: `engine(n, arr, cls)` is what it does on
 * attempt `n` of a page for that array and angle flag, so transient failures
 * are expressible. Images are the already prepared arrays.
 */
module Ocr {
  import opened Results
  import opened Pages
  import opened StableSort

  // ---------------------------------------------------------------------
  // Arrays and the engine's raw answer
  // ---------------------------------------------------------------------

  /** An image array as the guard inspects it: whether its dtype is uint8, and its shape. */
  datatype Tensor = Tensor(uint8: bool, shape: seq<nat>)

  /** `arr.size`: the product of the dimensions (1 for a 0-d array). */
  function Size(shape: seq<nat>): nat
    decreases |shape|
  {
    if shape == [] then 1 else shape[0] * Size(shape[1..])
  }

  /** The second element of a detection: a (text, score) pair, a pair whose score `float()`
      rejects, or anything else, kept as its `str`. */
  datatype TxtPack = Pair(text: string, score: real) | BadScore(text: string) | Other(shown: string)

  /** One detection `[box, txtpack]`, or an entry too short to unpack. */
  datatype RawLine = RawLine(box: seq<Point>, txt: TxtPack) | Short

  /** The engine's answer for one image: `None`, or a list of detections. */
  datatype RawResult = NoResult | Detections(lines: seq<RawLine>)

  /** What the engine call returns: a list of per-image results, or something that is not a list. */
  datatype Raw = Raw(results: seq<RawResult>) | NotAList

  datatype Outcome = Returned(raw: Raw) | Raised

  /** The engine on attempt `n` of a page, given the array and the angle flag. */
  type Engine = (nat, Tensor, bool) -> Outcome

  // ---------------------------------------------------------------------
  // The guard in front of the engine (src/ocr.py:94-101)
  // ---------------------------------------------------------------------

  /** The array reaches the engine: it is not empty, and it is uint8 of shape (H, W, 3); that is,
      a uint8 array of shape (H, W, 3) with H and W positive. */
  predicate Accepted(t: Tensor): (b: bool)
    ensures b <==> t.uint8 && |t.shape| == 3 && t.shape[0] > 0 && t.shape[1] > 0 && t.shape[2] == 3
  {
    SizeZero(t.shape);
    assert |t.shape| == 3 && t.shape[0] > 0 && t.shape[1] > 0 && t.shape[2] == 3 ==>
      forall k :: 0 <= k < 3 ==> t.shape[k] != 0;
    Size(t.shape) != 0 && t.uint8 && |t.shape| == 3 && t.shape[2] == 3
  }

  lemma SizeZero(shape: seq<nat>)
    ensures Size(shape) == 0 <==> exists k :: 0 <= k < |shape| && shape[k] == 0
    decreases |shape|
  {
    if shape != [] {
      SizeZero(shape[1..]);
      assert forall k :: 1 <= k < |shape| ==> shape[1..][k - 1] == shape[k];
      if Size(shape[1..]) == 0 {
        var k :| 0 <= k < |shape[1..]| && shape[1..][k] == 0;
        assert shape[k + 1] == 0;
      }
    }
  }

  // ---------------------------------------------------------------------
  // The recovery ladder (src/ocr.py:103-132)
  // ---------------------------------------------------------------------

  function Max1(n: int): int {
    if n < 1 then 1 else n
  }

  /**
   * The array of the shrink attempt: only arrays with at least two
   * dimensions, both larger than 1, are shrunk, each side to
   * `max(1, int(side * 0.8))`. Only an RGB uint8 array comes back from the
   * image library as an array the guard accepts; every other array either
   * fails the conversion or comes back in a shape the guard rejects, which
   * ends the attempt the same way, so `None` stands for all of them.
   */
  function Shrunk(t: Tensor): (r: Option<Tensor>)
    ensures r.Some? ==> Accepted(r.value)
  {
    if |t.shape| >= 2 && t.shape[0] > 1 && t.shape[1] > 1 && t.uint8 && |t.shape| == 3 && t.shape[2] == 3 then
      var s := Tensor(true, [Max1(t.shape[0] * 4 / 5), Max1(t.shape[1] * 4 / 5), 3]);
      Some(s)
    else None
  }

  /** The array and angle flag of each attempt: as given, a copy (the same array), shrunk,
      and as given without angle classification. */
  function Plan(t: Tensor, cls: bool): (p: seq<Option<(Tensor, bool)>>)
    ensures |p| == 4
    ensures forall n :: 0 <= n < 4 && n != 2 ==> p[n].Some? && p[n].value.0 == t
    ensures p[0].value.1 == p[1].value.1 == cls && !p[3].value.1
    ensures p[2].Some? ==> Accepted(p[2].value.0) && p[2].value.1 == cls
  {
    [Some((t, cls)), Some((t, cls)), if Shrunk(t).Some? then Some((Shrunk(t).value, cls)) else None, Some((t, false))]
  }

  /** One call that reached the engine. */
  datatype Call = Call(attempt: nat, tensor: Tensor, cls: bool)

  /** The answer of the ladder, and the engine calls made on the way. */
  datatype Ladder = Ladder(raw: Raw, calls: seq<Call>)

  /** Attempt `n` passes the guard. */
  predicate Reaches(plan: seq<Option<(Tensor, bool)>>, n: nat) {
    n < |plan| && plan[n].Some? && Accepted(plan[n].value.0)
  }

  /** Attempt `n` passes the guard and the engine returns. */
  predicate Succeeds(plan: seq<Option<(Tensor, bool)>>, engine: Engine, n: nat) {
    Reaches(plan, n) && engine(n, plan[n].value.0, plan[n].value.1).Returned?
  }

  /** The attempts from `n` on: the first one that returns gives the answer; when none does, `[]`. */
  function LadderFrom(plan: seq<Option<(Tensor, bool)>>, engine: Engine, n: nat): (r: Ladder)
    requires n <= |plan|
    ensures |r.calls| <= |plan| - n
    ensures forall k :: 0 <= k < |r.calls| ==>
      n <= r.calls[k].attempt && Reaches(plan, r.calls[k].attempt)
      && plan[r.calls[k].attempt] == Some((r.calls[k].tensor, r.calls[k].cls))
    ensures forall k, l :: 0 <= k < l < |r.calls| ==> r.calls[k].attempt < r.calls[l].attempt
    decreases |plan| - n
  {
    if n == |plan| then Ladder(Raw([]), [])
    else if !Reaches(plan, n) then LadderFrom(plan, engine, n + 1)
    else
      var (a, c) := plan[n].value;
      match engine(n, a, c)
      case Returned(raw) => Ladder(raw, [Call(n, a, c)])
      case Raised =>
        var rest := LadderFrom(plan, engine, n + 1);
        Ladder(rest.raw, [Call(n, a, c)] + rest.calls)
  }

  /** `_safe_ocr(np_img)`: at most four engine calls, each with an array the guard accepts,
      in attempt order. */
  function SafeOcr(t: Tensor, cls: bool, engine: Engine): (r: Ladder)
    ensures |r.calls| <= 4
    ensures forall k :: 0 <= k < |r.calls| ==> r.calls[k].attempt < 4 && Accepted(r.calls[k].tensor)
    ensures forall k, l :: 0 <= k < l < |r.calls| ==> r.calls[k].attempt < r.calls[l].attempt
  {
    LadderFrom(Plan(t, cls), engine, 0)
  }

  /** An attempt the guard stops, or whose engine call raises, passes on to the next one. */
  lemma LadderStep(plan: seq<Option<(Tensor, bool)>>, engine: Engine, n: nat)
    requires n < |plan| && !Succeeds(plan, engine, n)
    ensures var rest := LadderFrom(plan, engine, n + 1);
      LadderFrom(plan, engine, n) ==
        if Reaches(plan, n) then Ladder(rest.raw, [Call(n, plan[n].value.0, plan[n].value.1)] + rest.calls)
        else rest
  {
  }

  lemma LastOfCons<T>(x: T, xs: seq<T>)
    requires xs != []
    ensures var cs := [x] + xs; cs[|cs| - 1] == xs[|xs| - 1]
  {
  }

  lemma {:induction false} LadderFirstSuccess(plan: seq<Option<(Tensor, bool)>>, engine: Engine, n: nat, j: nat)
    requires n <= j < |plan| && Succeeds(plan, engine, j)
    requires forall k :: n <= k < j ==> !Succeeds(plan, engine, k)
    ensures LadderFrom(plan, engine, n).raw == engine(j, plan[j].value.0, plan[j].value.1).raw
    ensures var cs := LadderFrom(plan, engine, n).calls; |cs| > 0 && cs[|cs| - 1] == Call(j, plan[j].value.0, plan[j].value.1)
    decreases j - n
  {
    if n < j {
      LadderFirstSuccess(plan, engine, n + 1, j);
      assert !Succeeds(plan, engine, n);
      LadderStep(plan, engine, n);
      if Reaches(plan, n) {
        LastOfCons(Call(n, plan[n].value.0, plan[n].value.1), LadderFrom(plan, engine, n + 1).calls);
      }
    }
  }

  lemma {:induction false} LadderAllFail(plan: seq<Option<(Tensor, bool)>>, engine: Engine, n: nat)
    requires n <= |plan|
    requires forall k :: n <= k < |plan| ==> !Succeeds(plan, engine, k)
    ensures LadderFrom(plan, engine, n).raw == Raw([])
    ensures forall k :: n <= k < |plan| && Reaches(plan, k) ==>
      Call(k, plan[k].value.0, plan[k].value.1) in LadderFrom(plan, engine, n).calls
    decreases |plan| - n
  {
    if n < |plan| {
      LadderAllFail(plan, engine, n + 1);
      LadderStep(plan, engine, n);
    }
  }

  /** The first attempt whose array passes the guard and whose engine call returns gives the answer. */
  lemma SafeOcrFirstSuccess(t: Tensor, cls: bool, engine: Engine, j: nat)
    requires j < 4 && Succeeds(Plan(t, cls), engine, j)
    requires forall k :: 0 <= k < j ==> !Succeeds(Plan(t, cls), engine, k)
    ensures var p := Plan(t, cls); SafeOcr(t, cls, engine).raw == engine(j, p[j].value.0, p[j].value.1).raw
  {
    LadderFirstSuccess(Plan(t, cls), engine, 0, j);
  }

  /** When every attempt fails, the answer is the empty list, after calling the engine on every
      attempt whose array passes the guard. */
  lemma SafeOcrAllFail(t: Tensor, cls: bool, engine: Engine)
    requires forall k :: 0 <= k < 4 ==> !Succeeds(Plan(t, cls), engine, k)
    ensures SafeOcr(t, cls, engine).raw == Raw([])
    ensures forall k :: 0 <= k < 4 && Reaches(Plan(t, cls), k) ==>
      var p := Plan(t, cls); Call(k, p[k].value.0, p[k].value.1) in SafeOcr(t, cls, engine).calls
  {
    LadderAllFail(Plan(t, cls), engine, 0);
  }

  /** The first two attempts and the last use the array as given, the last without angle
      classification; the third uses an array shrunk to four fifths of a larger-than-1 page. */
  lemma SafeOcrCallArrays(t: Tensor, cls: bool, engine: Engine, k: nat)
    requires k < |SafeOcr(t, cls, engine).calls|
    ensures var c := SafeOcr(t, cls, engine).calls[k];
      (c.attempt != 2 ==> c.tensor == t && Accepted(t))
      && (c.attempt < 2 ==> c.cls == cls)
      && (c.attempt == 3 ==> !c.cls)
      && (c.attempt == 2 ==>
            c.cls == cls && |t.shape| == 3 && t.shape[0] > 1 && t.shape[1] > 1
            && c.tensor == Tensor(true, [Max1(t.shape[0] * 4 / 5), Max1(t.shape[1] * 4 / 5), 3]))
  {
  }

  /** A prepared non-empty page reaches the engine on the first attempt. */
  lemma SafeOcrPrepared(t: Tensor, cls: bool, engine: Engine)
    requires t.uint8 && |t.shape| == 3 && t.shape[0] > 0 && t.shape[1] > 0 && t.shape[2] == 3
    ensures var l := SafeOcr(t, cls, engine); |l.calls| > 0 && l.calls[0] == Call(0, t, cls)
    ensures engine(0, t, cls).Returned? ==> SafeOcr(t, cls, engine).raw == engine(0, t, cls).raw
  {
  }

  // ---------------------------------------------------------------------
  // One page (src/ocr.py:135-166)
  // ---------------------------------------------------------------------

  /** A detection as a line: a pair is unpacked, anything else becomes its `str` with score 0.
      A pair with an unconvertible score raises instead, which `Unpackable` rules out here. */
  function LineOf(box: seq<Point>, txt: TxtPack): (l: Line)
    requires !txt.BadScore?
    ensures l.box == box
    ensures txt.Pair? ==> l.text == txt.text && l.score == txt.score
    ensures txt.Other? ==> l.text == txt.shown && l.score == 0.0
  {
    match txt
    case Pair(text, score) => Line(text, score, box)
    case Other(shown) => Line(shown, 0.0, box)
  }

  /** Every result is a list and every detection unpacks. */
  predicate Readable(rs: seq<RawResult>) {
    forall i :: 0 <= i < |rs| ==> rs[i].Detections? && Unpackable(rs[i].lines)
  }

  /** Every detection has two elements, and a pair's score converts to a float. */
  predicate Unpackable(ls: seq<RawLine>) {
    forall j :: 0 <= j < |ls| ==> ls[j].RawLine? && !ls[j].txt.BadScore?
  }

  function LinesOf(ls: seq<RawLine>): (r: seq<Line>)
    requires Unpackable(ls)
    ensures |r| == |ls|
  {
    seq(|ls|, j requires 0 <= j < |ls| => LineOf(ls[j].box, ls[j].txt))
  }

  /** The detections of all results, in order: every line comes from a detection of some
      result, and every detection gives a line. */
  function Flatten(rs: seq<RawResult>): (r: seq<Line>)
    requires Readable(rs)
    ensures forall l :: l in r <==> exists i, j :: 0 <= i < |rs| && 0 <= j < |rs[i].lines| && l == LineOf(rs[i].lines[j].box, rs[i].lines[j].txt)
    decreases |rs|
  {
    if rs == [] then []
    else
      ReadableTail(rs);
      var head := LinesOf(rs[0].lines);
      var rest := Flatten(rs[1..]);
      assert forall l :: l in head + rest <==> exists i, j :: 0 <= i < |rs| && 0 <= j < |rs[i].lines| && l == LineOf(rs[i].lines[j].box, rs[i].lines[j].txt) by {
        forall l | l in head + rest
          ensures exists i, j :: 0 <= i < |rs| && 0 <= j < |rs[i].lines| && l == LineOf(rs[i].lines[j].box, rs[i].lines[j].txt)
        {
          if l in head {
            var j :| 0 <= j < |head| && head[j] == l;
            assert l == LineOf(rs[0].lines[j].box, rs[0].lines[j].txt);
          } else {
            var i, j :| 0 <= i < |rs[1..]| && 0 <= j < |rs[1..][i].lines| && l == LineOf(rs[1..][i].lines[j].box, rs[1..][i].lines[j].txt);
            assert rs[1..][i] == rs[i + 1];
          }
        }
        forall l, i, j | 0 <= i < |rs| && 0 <= j < |rs[i].lines| && l == LineOf(rs[i].lines[j].box, rs[i].lines[j].txt)
          ensures l in head + rest
        {
          if i == 0 {
            assert head[j] == l;
          } else {
            assert rs[1..][i - 1] == rs[i];
            assert l in rest;
          }
        }
      }
      head + rest
  }

  /** The reading-order key: the smallest y, then the smallest x, of the box; (0, 0) without one.
      The two are taken separately, so they need not come from the same point. */
  function LineKey(l: Line): (k: Key)
    ensures l.box == [] ==> k == (0, 0)
    ensures forall q :: 0 <= q < |l.box| ==> k.0 <= l.box[q].y && k.1 <= l.box[q].x
    ensures l.box != [] ==> (exists q :: 0 <= q < |l.box| && l.box[q].y == k.0)
    ensures l.box != [] ==> (exists q :: 0 <= q < |l.box| && l.box[q].x == k.1)
  {
    if l.box == [] then (0, 0)
    else
      var ys := Ys(l.box);
      var xs := Xs(l.box);
      var qy :| 0 <= qy < |ys| && ys[qy] == Min(ys);
      var qx :| 0 <= qx < |xs| && xs[qx] == Min(xs);
      (Min(ys), Min(xs))
  }

  /** `run_page`: the lines of the engine's answer sorted into reading order, or no lines when
      a result is `None`, a detection cannot be unpacked or a score is not a number. */
  function RunPage(pageIndex: int, t: Tensor, cls: bool, engine: Engine): (p: Page)
    ensures p.pageIndex == pageIndex
    ensures SortedBy(p.lines, LineKey)
  {
    var raw := SafeOcr(t, cls, engine).raw;
    if raw.NotAList? then Page(pageIndex, [])
    else if Readable(raw.results) then
      var lines := SortBy(Flatten(raw.results), LineKey);
      ChainedSorted(lines, LineKey);
      Page(pageIndex, lines)
    else Page(pageIndex, [])
  }

  lemma {:induction false} FlattenAppend(a: seq<RawResult>, b: seq<RawResult>)
    requires Readable(a) && Readable(b)
    ensures Readable(a + b) && Flatten(a + b) == Flatten(a) + Flatten(b)
    decreases |a|
  {
    ReadableAppend(a, b);
    if a == [] {
      assert a + b == b;
    } else {
      var ab := a + b;
      assert ab[0] == a[0] && ab[1..] == a[1..] + b;
      ReadableTail(a);
      FlattenAppend(a[1..], b);
      assert Flatten(ab) == LinesOf(a[0].lines) + Flatten(a[1..] + b);
    }
  }

  lemma ReadableAppend(a: seq<RawResult>, b: seq<RawResult>)
    requires Readable(a) && Readable(b)
    ensures Readable(a + b)
  {
    var ab := a + b;
    forall i | 0 <= i < |ab| ensures ab[i].Detections? && Unpackable(ab[i].lines) {
      if i < |a| { assert ab[i] == a[i]; } else { assert ab[i] == b[i - |a|]; }
    }
  }

  lemma ReadableTail(a: seq<RawResult>)
    requires Readable(a) && a != []
    ensures Readable(a[1..])
  {
    forall i | 0 <= i < |a| - 1 ensures a[1..][i].Detections? && Unpackable(a[1..][i].lines) {
      assert a[1..][i] == a[i + 1];
    }
  }

  /** One result contributes its detections, one line each, in order. */
  lemma FlattenOne(ls: seq<RawLine>)
    requires Unpackable(ls)
    ensures Readable([Detections(ls)])
    ensures var r := Flatten([Detections(ls)]);
      |r| == |ls| && forall j :: 0 <= j < |ls| ==> r[j] == LineOf(ls[j].box, ls[j].txt)
  {
    assert [Detections(ls)][1..] == [];
  }

  /** A readable answer yields one line per detection, sorted into reading order, lines with
      equal keys keeping the engine's order; anything else yields no lines. */
  lemma RunPageLines(pageIndex: int, t: Tensor, cls: bool, engine: Engine, k: Key)
    ensures var raw := SafeOcr(t, cls, engine).raw; var p := RunPage(pageIndex, t, cls, engine);
      if raw.Raw? && Readable(raw.results) then
        SortedBy(p.lines, LineKey)
        && multiset(p.lines) == multiset(Flatten(raw.results))
        && WithKey(p.lines, LineKey, k) == WithKey(Flatten(raw.results), LineKey, k)
      else p.lines == []
  {
    var raw := SafeOcr(t, cls, engine).raw;
    if raw.Raw? && Readable(raw.results) {
      SortByStable(Flatten(raw.results), LineKey, k);
    }
  }

  // ---------------------------------------------------------------------
  // The batch (src/ocr.py:169-183)
  // ---------------------------------------------------------------------

  /** The order in which pages finish: each image number once. */
  predicate Arrival(order: seq<nat>, n: nat) {
    |order| == n
    && (forall j :: 0 <= j < n ==> order[j] < n)
    && (forall i, j :: 0 <= i < j < n ==> order[i] != order[j])
  }

  function PageKey(p: Page): Key {
    (p.pageIndex, 0)
  }

  /** `run(images)`: each image read as page `i`, collected in the order the pages finish
      (image order with one worker), then sorted by page index. */
  function Run(images: seq<Tensor>, cls: bool, engines: seq<Engine>, order: seq<nat>): (r: seq<Page>)
    requires |engines| == |images| && Arrival(order, |images|)
    ensures |r| == |images|
    ensures forall i :: 0 <= i < |r| ==> r[i].pageIndex == i
  {
    var done := seq(|order|, j requires 0 <= j < |order| => RunPage(order[j], images[order[j]], cls, engines[order[j]]));
    assert forall j :: 0 <= j < |done| ==> PageKey(done[j]).0 == order[j];
    SortByNumbered(done, PageKey);
    SortBy(done, PageKey)
  }

  /** Whatever order the pages finish in, page `i` of the result is image `i` read as page `i`. */
  lemma RunInPageOrder(images: seq<Tensor>, cls: bool, engines: seq<Engine>, order: seq<nat>)
    requires |engines| == |images| && Arrival(order, |images|)
    ensures forall i :: 0 <= i < |images| ==> Run(images, cls, engines, order)[i] == RunPage(i, images[i], cls, engines[i])
  {
    var done := seq(|order|, j requires 0 <= j < |order| => RunPage(order[j], images[order[j]], cls, engines[order[j]]));
    assert forall j :: 0 <= j < |done| ==> PageKey(done[j]).0 == order[j];
    SortByNumbered(done, PageKey);
    var r := SortBy(done, PageKey);
    forall i | 0 <= i < |images| ensures r[i] == RunPage(i, images[i], cls, engines[i]) {
      var j :| 0 <= j < |done| && done[j] == r[i];
      assert order[j] == i;
    }
  }

  /** With one worker the pages finish in image order. */
  lemma RunSequential(images: seq<Tensor>, cls: bool, engines: seq<Engine>)
    requires |engines| == |images|
    ensures Arrival(seq(|images|, j => j), |images|)
    ensures var r := Run(images, cls, engines, seq(|images|, j => j));
      forall i :: 0 <= i < |images| ==> r[i].pageIndex == i && r[i].lines == RunPage(i, images[i], cls, engines[i]).lines
  {
    RunInPageOrder(images, cls, engines, seq(|images|, j => j));
  }
}
