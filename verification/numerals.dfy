/**
 * The number syntax shared by the currency pattern of the validator and the
 * comma-grouping rule of the OCR repair: `\d{1,3}(?:,\d{3})*(?:\.\d{2})?`.
 *
 * Two views are given: a greedy scanner (what the regular-expression engine
 * tries first), and a grammar saying which spans `s[d..e]` are amounts. The
 * lemmas connect them: the greedy end is a grammatical end, and no
 * grammatical end lies beyond it.
 */
module Numerals {
  import opened Text
  import opened Results

  // ---------------------------------------------------------------------
  // Grammar over spans of a string
  // ---------------------------------------------------------------------

  predicate DigitsIn(s: string, p: nat, q: nat) {
    p <= q <= |s| && forall k :: p <= k < q ==> IsDigit(s[k])
  }

  /** One `,\d{3}` group starts at `p`. */
  predicate GroupAt(s: string, p: nat) {
    p + 4 <= |s| && s[p] == ',' && IsDigit(s[p + 1]) && IsDigit(s[p + 2]) && IsDigit(s[p + 3])
  }

  /** `\.\d{2}` starts at `p`. */
  predicate CentsAt(s: string, p: nat) {
    p + 3 <= |s| && s[p] == '.' && IsDigit(s[p + 1]) && IsDigit(s[p + 2])
  }

  /** `s[p..q]` is `(?:,\d{3})*`. */
  predicate GroupsIn(s: string, p: nat, q: nat)
    decreases q - p
  {
    p <= q <= |s| && (p == q || (p + 4 <= q && GroupAt(s, p) && GroupsIn(s, p + 4, q)))
  }

  /** `s[p..q]` is `(?:\.\d{2})?`. */
  predicate CentsIn(s: string, p: nat, q: nat) {
    p == q || (q == p + 3 && CentsAt(s, p))
  }

  /** `s[d..e]` splits as 1-3 digits `s[d..x]`, groups `s[x..y]` and optional cents `s[y..e]`. */
  predicate AmountSplit(s: string, d: nat, x: nat, y: nat, e: nat) {
    d < x <= d + 3 && x <= y <= e <= |s| && DigitsIn(s, d, x) && GroupsIn(s, x, y) && CentsIn(s, y, e)
  }

  /** `s[d..e]` is entirely `\d{1,3}(?:,\d{3})*(?:\.\d{2})?`. */
  ghost predicate AmountIn(s: string, d: nat, e: nat) {
    exists x: nat, y: nat :: AmountSplit(s, d, x, y, e)
  }

  // ---------------------------------------------------------------------
  // Greedy scanner
  // ---------------------------------------------------------------------

  /** Greedy `\d{0,cap}` at `p`: the number of digits taken. */
  function DigitRun(s: string, p: nat, cap: nat): (n: nat)
    requires p <= |s|
    ensures n <= cap && DigitsIn(s, p, p + n)
    ensures n < cap ==> p + n == |s| || !IsDigit(s[p + n])
    decreases cap
  {
    if cap > 0 && p < |s| && IsDigit(s[p]) then 1 + DigitRun(s, p + 1, cap - 1) else 0
  }

  /** Greedy `(?:,\d{3})*` from `p`: where the last group taken ends. */
  function GroupsEnd(s: string, p: nat): (e: nat)
    requires p <= |s|
    ensures GroupsIn(s, p, e)
    ensures !GroupAt(s, e)
    decreases |s| - p
  {
    if GroupAt(s, p) then GroupsEnd(s, p + 4) else p
  }

  /** Greedy `\d{1,3}(?:,\d{3})*(?:\.\d{2})?` from `d`, if at least one digit is there. */
  function AmountEnd(s: string, d: nat): (r: Option<nat>)
    requires d <= |s|
    ensures r.Some? ==> d < r.value <= |s|
  {
    var n := DigitRun(s, d, 3);
    if n == 0 then None
    else
      var g := GroupsEnd(s, d + n);
      Some(if CentsAt(s, g) then g + 3 else g)
  }

  // ---------------------------------------------------------------------
  // Scanner versus grammar
  // ---------------------------------------------------------------------

  lemma {:induction false} DigitRunAtLeast(s: string, p: nat, cap: nat, a: nat)
    requires a <= cap && DigitsIn(s, p, p + a)
    ensures DigitRun(s, p, cap) >= a
    decreases a
  {
    if a > 0 {
      DigitRunAtLeast(s, p + 1, cap - 1, a - 1);
    }
  }

  /** Every grammatical run of groups from `p` ends no later than the greedy one,
      and where it ends early another group follows. */
  lemma {:induction false} GroupsEndMaximal(s: string, p: nat, q: nat)
    requires GroupsIn(s, p, q)
    ensures q <= GroupsEnd(s, p)
    ensures q < GroupsEnd(s, p) ==> GroupAt(s, q)
    decreases q - p
  {
    if q > p {
      GroupsEndMaximal(s, p + 4, q);
    }
  }

  /** A non-empty run of groups ends with a digit. */
  lemma {:induction false} GroupsLastDigit(s: string, p: nat, q: nat)
    requires GroupsIn(s, p, q) && p < q
    ensures IsDigit(s[q - 1])
    decreases q - p
  {
    if p + 4 < q {
      GroupsLastDigit(s, p + 4, q);
    }
  }

  /** The greedy amount is grammatical. */
  lemma AmountEndSound(s: string, d: nat)
    requires d <= |s| && AmountEnd(s, d).Some?
    ensures AmountIn(s, d, AmountEnd(s, d).value)
  {
    var n := DigitRun(s, d, 3);
    var g := GroupsEnd(s, d + n);
    assert AmountSplit(s, d, d + n, g, AmountEnd(s, d).value);
  }

  /** An amount starts with a digit. */
  lemma AmountFirstDigit(s: string, d: nat, e: nat)
    requires AmountIn(s, d, e)
    ensures d < e && IsDigit(s[d])
  {
    var x: nat, y: nat :| AmountSplit(s, d, x, y, e);
  }

  /** An amount ends with a digit. */
  lemma AmountLastDigit(s: string, d: nat, e: nat)
    requires AmountIn(s, d, e)
    ensures d < e && IsDigit(s[e - 1])
  {
    var x: nat, y: nat :| AmountSplit(s, d, x, y, e);
    if x < y && y == e {
      GroupsLastDigit(s, x, y);
    }
  }

  lemma AmountEndMaximalAt(s: string, d: nat, x: nat, y: nat, e': nat)
    requires AmountSplit(s, d, x, y, e')
    ensures AmountEnd(s, d).Some? && e' <= AmountEnd(s, d).value
  {
    DigitRunAtLeast(s, d, 3, x - d);
    var n := DigitRun(s, d, 3);
    if d + n > x {
      assert IsDigit(s[x]);
      assert e' == x;
    } else {
      GroupsEndMaximal(s, x, y);
    }
  }

  /** No grammatical amount starting at `d` ends beyond the greedy one. */
  lemma AmountEndMaximal(s: string, d: nat, e': nat)
    requires AmountIn(s, d, e')
    ensures AmountEnd(s, d).Some? && e' <= AmountEnd(s, d).value
  {
    var x: nat, y: nat :| AmountSplit(s, d, x, y, e');
    AmountEndMaximalAt(s, d, x, y, e');
  }

  // ---------------------------------------------------------------------
  // The grammar only looks inside the span
  // ---------------------------------------------------------------------

  lemma {:induction false} GroupsInShift(s: string, a: nat, b: nat, p: nat, q: nat)
    requires a <= b <= |s| && p <= q <= b - a
    ensures GroupsIn(s[a..b], p, q) <==> GroupsIn(s, a + p, a + q)
    decreases q - p
  {
    var t := s[a..b];
    if p + 4 <= q {
      assert t[p] == s[a + p] && t[p + 1] == s[a + p + 1] && t[p + 2] == s[a + p + 2] && t[p + 3] == s[a + p + 3];
      GroupsInShift(s, a, b, p + 4, q);
    }
  }

  lemma AmountSplitShift(s: string, a: nat, b: nat, d: nat, x: nat, y: nat, e: nat)
    requires a <= b <= |s| && d <= x <= y <= e <= b - a
    ensures AmountSplit(s[a..b], d, x, y, e) <==> AmountSplit(s, a + d, a + x, a + y, a + e)
  {
    var t := s[a..b];
    GroupsInShift(s, a, b, x, y);
    assert DigitsIn(t, d, x) <==> DigitsIn(s, a + d, a + x) by {
      assert forall k :: d <= k < x ==> t[k] == s[a + k];
      if DigitsIn(s, a + d, a + x) {
        forall k | d <= k < x ensures IsDigit(t[k]) {
          assert IsDigit(s[a + k]);
        }
      }
    }
    if y + 3 == e {
      assert t[y] == s[a + y] && t[y + 1] == s[a + y + 1] && t[y + 2] == s[a + y + 2];
    }
  }

  /** Whether `s[d..e]` is an amount does not depend on what surrounds it. */
  lemma AmountInShift(s: string, a: nat, b: nat, d: nat, e: nat)
    requires a <= b <= |s| && d <= e <= b - a
    ensures AmountIn(s[a..b], d, e) <==> AmountIn(s, a + d, a + e)
  {
    var t := s[a..b];
    if AmountIn(t, d, e) {
      var x: nat, y: nat :| AmountSplit(t, d, x, y, e);
      AmountSplitShift(s, a, b, d, x, y, e);
    }
    if AmountIn(s, a + d, a + e) {
      var x: nat, y: nat :| AmountSplit(s, a + d, x, y, a + e);
      AmountSplitShift(s, a, b, d, x - a, y - a, e);
    }
  }
}
