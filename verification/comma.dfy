/**
 * The currency repair of `fix_common_misreads` (src/preprocess.py:26):
 * `(?<!\$)(\b\d{1,3}(?:,\d{3})+(?:\.\d{2})?\b)` replaced by `$\1`, i.e. a `$`
 * is inserted before every comma-grouped number that does not already follow
 * one.
 *
 * `CommaNumberAt` is what the regular-expression engine finds at one start
 * position, backtracking included; `Matches` and `DollarFrom` are the
 * left-to-right, non-overlapping scan of `re.sub`.
 */
module CommaRule {
  import opened Text
  import opened Results
  import opened Numerals

  // ---------------------------------------------------------------------
  // Grammar
  // ---------------------------------------------------------------------

  /** The context the pattern demands at a start position: not after `$`, and at a word boundary. */
  predicate StartOk(s: string, i: nat) {
    i < |s| && Boundary(s, i) && (i == 0 || s[i - 1] != '$')
  }

  /** `s[i..e]` splits as 1-3 digits `s[i..x]`, at least one group `s[x..y]`, optional cents. */
  predicate CommaSplit(s: string, i: nat, x: nat, y: nat, e: nat) {
    AmountSplit(s, i, x, y, e) && x + 4 <= y
  }

  /** `s[i..e]` is a match of the pattern at `i`: context, shape and closing word boundary. */
  ghost predicate CommaNumberIn(s: string, i: nat, e: nat) {
    StartOk(s, i) && Boundary(s, e) && exists x: nat, y: nat :: CommaSplit(s, i, x, y, e)
  }

  // ---------------------------------------------------------------------
  // The engine at one start position
  // ---------------------------------------------------------------------

  /**
   * The ends the engine tries after taking the groups greedily up to `g`,
   * in its order: with cents, without cents, then with one group fewer.
   * Giving back a group leaves a digit before a `,`, where `\b` holds.
   */
  function CommaEnd(s: string, m: nat, g: nat): (r: Option<nat>)
    requires GroupsIn(s, m, g) && m + 4 <= g
    ensures r.Some? ==> m + 4 <= r.value <= |s|
  {
    if CentsAt(s, g) && Boundary(s, g + 3) then Some(g + 3)
    else if Boundary(s, g) then Some(g)
    else if m + 8 <= g then Some(g - 4)
    else None
  }

  /** The match of the pattern starting exactly at `i`, as its end. Taking fewer than
      the greedy digits puts a digit where `,` is needed, so only the greedy count can match. */
  function CommaNumberAt(s: string, i: nat): (r: Option<nat>)
    ensures r.Some? ==> i < r.value <= |s|
  {
    if StartOk(s, i) && IsDigit(s[i]) then
      var m := i + DigitRun(s, i, 3);
      if GroupAt(s, m) then CommaEnd(s, m, GroupsEnd(s, m)) else None
    else None
  }

  // ---------------------------------------------------------------------
  // Engine versus grammar
  // ---------------------------------------------------------------------

  lemma {:induction false} GroupsStep(s: string, p: nat, q: nat)
    requires GroupsIn(s, p, q)
    ensures (q - p) % 4 == 0
    decreases q - p
  {
    if p < q {
      GroupsStep(s, p + 4, q);
    }
  }

  /** The last group of a non-empty run can be split off. */
  lemma {:induction false} GroupsSplitLast(s: string, p: nat, q: nat)
    requires GroupsIn(s, p, q) && p < q
    ensures p + 4 <= q && GroupsIn(s, p, q - 4) && GroupAt(s, q - 4)
    decreases q - p
  {
    if p + 4 < q {
      GroupsSplitLast(s, p + 4, q);
    }
  }

  /** The greedy match is a match of the pattern. */
  lemma CommaNumberAtSound(s: string, i: nat)
    requires CommaNumberAt(s, i).Some?
    ensures CommaNumberIn(s, i, CommaNumberAt(s, i).value)
  {
    var m := i + DigitRun(s, i, 3);
    var g := GroupsEnd(s, m);
    var e := CommaNumberAt(s, i).value;
    if e == g - 4 {
      GroupsSplitLast(s, m, g);
      GroupsLastDigit(s, m, g - 4);
      assert Boundary(s, e);
      assert CommaSplit(s, i, m, g - 4, e);
    } else if e == g {
      assert CommaSplit(s, i, m, g, e);
    } else {
      assert CommaSplit(s, i, m, g, e);
    }
  }

  lemma CommaNumberAtMaximalAt(s: string, i: nat, x: nat, y: nat, e': nat)
    requires StartOk(s, i) && Boundary(s, e') && CommaSplit(s, i, x, y, e')
    ensures CommaNumberAt(s, i).Some? && e' <= CommaNumberAt(s, i).value
  {
    DigitRunAtLeast(s, i, 3, x - i);
    var m := i + DigitRun(s, i, 3);
    assert GroupAt(s, x);
    assert m == x;
    var g := GroupsEnd(s, m);
    GroupsEndMaximal(s, m, y);
    GroupsStep(s, m, y);
    GroupsStep(s, m, g);
    CommaEndCovers(s, m, g, y, e');
  }

  /** Every grammatical end lies at or before the end the engine settles on. */
  lemma CommaEndCovers(s: string, m: nat, g: nat, y: nat, e': nat)
    requires GroupsIn(s, m, g) && m + 4 <= y <= g
    requires (y - m) % 4 == 0 && (g - m) % 4 == 0
    requires y < g ==> GroupAt(s, y)
    requires Boundary(s, e') && CentsIn(s, y, e')
    ensures CommaEnd(s, m, g).Some? && e' <= CommaEnd(s, m, g).value
  {
    if y < g {
      assert e' == y;
    }
  }

  /** No match starting at `i` ends beyond the one the engine reports. */
  lemma CommaNumberAtMaximal(s: string, i: nat, e': nat)
    requires CommaNumberIn(s, i, e')
    ensures CommaNumberAt(s, i).Some? && e' <= CommaNumberAt(s, i).value
  {
    var x: nat, y: nat :| CommaSplit(s, i, x, y, e');
    CommaNumberAtMaximalAt(s, i, x, y, e');
  }

  /** The engine finds a match at `i` exactly when the pattern matches some span from `i`. */
  lemma CommaNumberAtComplete(s: string, i: nat)
    ensures CommaNumberAt(s, i).Some? <==> exists e: nat :: CommaNumberIn(s, i, e)
  {
    if CommaNumberAt(s, i).Some? {
      CommaNumberAtSound(s, i);
    } else if exists e: nat :: CommaNumberIn(s, i, e) {
      var e: nat :| CommaNumberIn(s, i, e);
      CommaNumberAtMaximal(s, i, e);
    }
  }

  // ---------------------------------------------------------------------
  // re.sub: scan left to right, resume after each match
  // ---------------------------------------------------------------------

  /** `ms` are spans of `s` from `i` on, in order and disjoint, each the match the engine
      reports at its start. */
  predicate MatchSpans(s: string, i: nat, ms: seq<(nat, nat)>)
    decreases |ms|
  {
    ms == []
    || (i <= ms[0].0 < ms[0].1 <= |s| && CommaNumberAt(s, ms[0].0) == Some(ms[0].1)
        && MatchSpans(s, ms[0].1, ms[1..]))
  }

  /** The spans `re.sub` replaces, scanning from `i`. */
  function Matches(s: string, i: nat): (ms: seq<(nat, nat)>)
    ensures MatchSpans(s, i, ms)
    decreases |s| - i
  {
    if i >= |s| then []
    else match CommaNumberAt(s, i)
      case Some(e) => [(i, e)] + Matches(s, e)
      case None => MatchSpansLater(s, i, i + 1, Matches(s, i + 1)); Matches(s, i + 1)
  }

  lemma MatchSpansLater(s: string, i: nat, j: nat, ms: seq<(nat, nat)>)
    requires i <= j && MatchSpans(s, j, ms)
    ensures MatchSpans(s, i, ms)
  {
  }

  /** The rewritten text from `i` on: each match gets a `$` in front of it. */
  function DollarFrom(s: string, i: nat): (r: string)
    requires i <= |s|
    decreases |s| - i
  {
    if i == |s| then []
    else match CommaNumberAt(s, i)
      case Some(e) => "$" + s[i..e] + DollarFrom(s, e)
      case None => [s[i]] + DollarFrom(s, i + 1)
  }

  /** The whole rule: the text with a `$` inserted before each match the scan reports. */
  function InsertDollars(s: string): (r: string)
    ensures Increasing(0, |s|, Starts(Matches(s, 0)))
    ensures r == InsertBefore(s, 0, Starts(Matches(s, 0)))
    ensures |r| == |s| + |Matches(s, 0)|
  {
    DollarFromInsertsBeforeMatches(s, 0);
    InsertBeforeLength(s, 0, Starts(Matches(s, 0)));
    DollarFrom(s, 0)
  }

  /** Positions increasing from `i` and below `n`. */
  predicate Increasing(i: nat, n: nat, ps: seq<nat>)
    decreases |ps|
  {
    ps == [] || (i <= ps[0] < n && Increasing(ps[0] + 1, n, ps[1..]))
  }

  /** Reference rendering: `s[i..]` with a `$` inserted before each of the given positions. */
  function InsertBefore(s: string, i: nat, ps: seq<nat>): string
    requires i <= |s| && Increasing(i, |s|, ps)
    decreases |ps|
  {
    if ps == [] then s[i..]
    else
      IncreasingLater(ps[0], ps[0] + 1, |s|, ps[1..]);
      s[i..ps[0]] + "$" + InsertBefore(s, ps[0], ps[1..])
  }

  /** Each insertion point adds one character. */
  lemma {:induction false} InsertBeforeLength(s: string, i: nat, ps: seq<nat>)
    requires i <= |s| && Increasing(i, |s|, ps)
    ensures |InsertBefore(s, i, ps)| == |s| - i + |ps|
    decreases |ps|
  {
    if ps != [] {
      IncreasingLater(ps[0], ps[0] + 1, |s|, ps[1..]);
      InsertBeforeLength(s, ps[0], ps[1..]);
    }
  }

  function Starts(ms: seq<(nat, nat)>): (ps: seq<nat>)
    ensures |ps| == |ms| && forall k :: 0 <= k < |ms| ==> ps[k] == ms[k].0
  {
    if ms == [] then [] else [ms[0].0] + Starts(ms[1..])
  }

  lemma IncreasingLater(i: nat, j: nat, n: nat, ps: seq<nat>)
    requires i <= j && Increasing(j, n, ps)
    ensures Increasing(i, n, ps)
  {
  }

  lemma {:induction false} MatchStartsIncrease(s: string, i: nat, ms: seq<(nat, nat)>)
    requires MatchSpans(s, i, ms)
    ensures Increasing(i, |s|, Starts(ms))
    decreases |ms|
  {
    if ms != [] {
      MatchStartsIncrease(s, ms[0].1, ms[1..]);
      assert Starts(ms) == [ms[0].0] + Starts(ms[1..]);
      IncreasingLater(ms[0].0 + 1, ms[0].1, |s|, Starts(ms[1..]));
    }
  }

  /** Text before the first insertion point can be moved out of the rendering. */
  lemma InsertBeforeSkip(s: string, i: nat, j: nat, ps: seq<nat>)
    requires i <= j <= |s| && Increasing(j, |s|, ps)
    ensures Increasing(i, |s|, ps)
    ensures InsertBefore(s, i, ps) == s[i..j] + InsertBefore(s, j, ps)
  {
    if ps == [] {
      assert s[i..] == s[i..j] + s[j..];
    } else {
      assert s[i..ps[0]] == s[i..j] + s[j..ps[0]];
    }
  }

  /** Rendering a leading insertion point followed by text up to the next one. */
  lemma InsertBeforeHead(s: string, i: nat, e: nat, ps: seq<nat>)
    requires i < e <= |s| && Increasing(e, |s|, ps)
    ensures Increasing(i, |s|, [i] + ps)
    ensures InsertBefore(s, i, [i] + ps) == "$" + s[i..e] + InsertBefore(s, e, ps)
  {
    IncreasingLater(i + 1, e, |s|, ps);
    assert ([i] + ps)[1..] == ps;
    InsertBeforeSkip(s, i, e, ps);
  }

  /** The scan inserts a `$` exactly before each match it reports, and copies everything else. */
  lemma {:induction false} DollarFromInsertsBeforeMatches(s: string, i: nat)
    requires i <= |s|
    ensures Increasing(i, |s|, Starts(Matches(s, i)))
    ensures DollarFrom(s, i) == InsertBefore(s, i, Starts(Matches(s, i)))
    decreases |s| - i
  {
    MatchStartsIncrease(s, i, Matches(s, i));
    if i < |s| {
      match CommaNumberAt(s, i)
      case Some(e) =>
        DollarFromInsertsBeforeMatches(s, e);
        var ps := Starts(Matches(s, e));
        assert Starts(Matches(s, i)) == [i] + ps;
        InsertBeforeHead(s, i, e, ps);
      case None =>
        DollarFromInsertsBeforeMatches(s, i + 1);
        InsertBeforeSkip(s, i, i + 1, Starts(Matches(s, i + 1)));
        assert s[i..i + 1] == [s[i]];
    }
  }

  /** `p` lies in one of the spans. */
  predicate Covered(ms: seq<(nat, nat)>, p: nat) {
    exists k :: 0 <= k < |ms| && ms[k].0 <= p < ms[k].1
  }

  /** Every position where the pattern could match is either a reported start or lies
      strictly inside a reported span: the scan skips a match only when an earlier one covers it. */
  lemma {:induction false} MatchesComplete(s: string, i: nat, p: nat)
    requires i <= p && CommaNumberAt(s, p).Some?
    ensures Covered(Matches(s, i), p)
    decreases |s| - i
  {
    var m := CommaNumberAt(s, i);
    if i < |s| && m.Some? {
      var e := m.value;
      var rest := Matches(s, e);
      assert Matches(s, i) == [(i, e)] + rest;
      if p < e {
        CoveredHead((i, e), rest, p);
      } else {
        MatchesComplete(s, e, p);
        CoveredCons((i, e), rest, p);
      }
    } else if i < |s| {
      MatchesComplete(s, i + 1, p);
    }
  }

  lemma CoveredHead(head: (nat, nat), rest: seq<(nat, nat)>, p: nat)
    requires head.0 <= p < head.1
    ensures Covered([head] + rest, p)
  {
    assert ([head] + rest)[0] == head;
  }

  lemma CoveredCons(head: (nat, nat), rest: seq<(nat, nat)>, p: nat)
    requires Covered(rest, p)
    ensures Covered([head] + rest, p)
  {
    var k :| 0 <= k < |rest| && rest[k].0 <= p < rest[k].1;
    assert ([head] + rest)[k + 1] == rest[k];
  }

  // ---------------------------------------------------------------------
  // The effect of the rule on an already-marked amount
  // ---------------------------------------------------------------------

  lemma RestartsAfterCommaScan()
    ensures CommaNumberAt("$1,234,567", 0).None?
    ensures CommaNumberAt("$1,234,567", 1).None?
    ensures CommaNumberAt("$1,234,567", 2).None?
    ensures CommaNumberAt("$1,234,567", 3) == Some(10)
  {
    RestartsAfterCommaFound();
  }

  lemma RestartsAfterCommaFound()
    ensures CommaNumberAt("$1,234,567", 3) == Some(10)
  {
    assert GroupsEnd("$1,234,567", 6) == 10;
  }

  /** The rule restarts after a comma inside an amount it does not itself mark:
      `$1,234,567` becomes `$1,$234,567`, so applying the repair twice differs from once. */
  lemma RestartsAfterComma()
    ensures InsertDollars("$1,234,567") == "$1,$234,567"
  {
    var s := "$1,234,567";
    RestartsAfterCommaScan();
    DollarMisses(s, 0, 3);
    DollarHit(s, 3, 10);
    DollarEnd(s);
    assert s[0..3] == "$1," && s[3..10] == "234,567";
  }

  /** Where nothing matches, the text is copied unchanged. */
  lemma {:induction false} DollarMisses(s: string, i: nat, j: nat)
    requires i <= j <= |s|
    requires forall k :: i <= k < j ==> CommaNumberAt(s, k).None?
    ensures DollarFrom(s, i) == s[i..j] + DollarFrom(s, j)
    decreases j - i
  {
    if i < j {
      DollarMiss(s, i);
      DollarMisses(s, i + 1, j);
      ConsSlice(s, i, j, DollarFrom(s, j));
    }
  }

  lemma ConsSlice(s: string, i: nat, j: nat, tail: string)
    requires i < j <= |s|
    ensures [s[i]] + (s[i + 1..j] + tail) == s[i..j] + tail
  {
    assert s[i..j] == [s[i]] + s[i + 1..j];
  }

  lemma DollarEnd(s: string)
    ensures DollarFrom(s, |s|) == []
  {
  }

  lemma DollarHit(s: string, i: nat, e: nat)
    requires i < |s| && CommaNumberAt(s, i) == Some(e)
    ensures DollarFrom(s, i) == "$" + s[i..e] + DollarFrom(s, e)
  {
  }

  lemma DollarMiss(s: string, i: nat)
    requires i < |s| && CommaNumberAt(s, i).None?
    ensures DollarFrom(s, i) == [s[i]] + DollarFrom(s, i + 1)
  {
  }

  /** A bare comma-grouped amount gets its `$`. */
  lemma MarksBareAmount()
    ensures InsertDollars("1,234.56") == "$1,234.56"
  {
    var s := "1,234.56";
    assert GroupsEnd(s, 1) == 5;
    assert CommaNumberAt(s, 0) == Some(8);
    assert s[0..8] == s;
  }

  /** The rule is not idempotent, because a second pass restarts after a comma inside an
      amount: one pass turns `1,234,567` into `$1,234,567`, a second into `$1,$234,567`. */
  lemma InsertDollarsNotIdempotent()
    ensures InsertDollars(InsertDollars("1,234,567")) != InsertDollars("1,234,567")
  {
    var s := "1,234,567";
    assert Numerals.GroupsEnd(s, 1) == 9;
    assert CommaNumberAt(s, 0) == Some(9);
    assert s[0..9] == s;
    assert InsertDollars(s) == "$1,234,567";
    RestartsAfterComma();
  }
}
