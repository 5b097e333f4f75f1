/**
 * `fix_common_misreads` (src/preprocess.py:7-35): a fixed chain of
 * `re.sub` rewrites, a typographic clean-up and a final `strip`.
 *
 * Each rewrite is an explicit left-to-right scan, as `re.sub` performs it:
 * the pattern is tried at each position of the original string, a match is
 * replaced and the scan resumes after it. Lookarounds read the original
 * string, never the text already replaced.
 */
module Misreads {
  import opened Text
  import opened Results
  import Numerals
  import CommaRule

  // ---------------------------------------------------------------------
  // One-character rules: (?<=\d)O(?=\d), (?<=\$)O(?=\d), \bI\b, \bl\b, \bS\b
  // ---------------------------------------------------------------------

  /** A rule whose match is a single character, decided by its neighbours. */
  datatype PointRule =
    | OBetweenDigits              // `(?<=\d)O(?=\d)` -> `0`
    | OAfterDollar                // `(?<=\$)O(?=\d)` -> `0`
    | LoneWord(letter: char, digit: char)  // `\b<letter>\b` -> `<digit>`
  {
    /** The character a match is replaced by. */
    function Replacement(): char {
      match this
      case OBetweenDigits => '0'
      case OAfterDollar => '0'
      case LoneWord(_, d) => d
    }

    /** Whether the pattern matches the single character `s[q]`. */
    predicate Fires(s: string, q: nat) {
      q < |s| &&
      match this
      case OBetweenDigits =>
        s[q] == 'O' && q > 0 && IsDigit(s[q - 1]) && q + 1 < |s| && IsDigit(s[q + 1])
      case OAfterDollar =>
        s[q] == 'O' && q > 0 && s[q - 1] == '$' && q + 1 < |s| && IsDigit(s[q + 1])
      case LoneWord(c, _) =>
        s[q] == c && Boundary(s, q) && Boundary(s, q + 1)
    }

    /** The target is a word character and so is its replacement, which differs from it. */
    predicate WellFormed() {
      match this
      case LoneWord(c, d) => IsWordChar(c) && IsWordChar(d) && c != d
      case _ => true
    }
  }

  const LONE_I: PointRule := LoneWord('I', '1')
  const LONE_L: PointRule := LoneWord('l', '1')
  const LONE_S: PointRule := LoneWord('S', '5')

  /** `re.sub` of a one-character rule, from position `i` on. */
  function PointFrom(rule: PointRule, s: string, i: nat): (r: string)
    requires i <= |s|
    ensures |r| == |s| - i
    decreases |s| - i
  {
    if i == |s| then []
    else if rule.Fires(s, i) then [rule.Replacement()] + PointFrom(rule, s, i + 1)
    else [s[i]] + PointFrom(rule, s, i + 1)
  }

  /** `re.sub` of a one-character rule: each character the pattern matches in the original
      text becomes the replacement, every other character is kept. */
  function ApplyPoint(rule: PointRule, s: string): (r: string)
    ensures |r| == |s|
    ensures forall q :: 0 <= q < |s| ==> r[q] == (if rule.Fires(s, q) then rule.Replacement() else s[q])
  {
    PointFromSpec(rule, s, 0);
    PointFrom(rule, s, 0)
  }

  /** Exactly the matched characters change, each into the replacement. */
  lemma {:induction false} PointFromSpec(rule: PointRule, s: string, i: nat)
    requires i <= |s|
    ensures forall q :: i <= q < |s| ==>
      PointFrom(rule, s, i)[q - i] == (if rule.Fires(s, q) then rule.Replacement() else s[q])
    decreases |s| - i
  {
    if i < |s| {
      PointFromSpec(rule, s, i + 1);
    }
  }

  lemma ApplyPointSpec(rule: PointRule, s: string, q: nat)
    requires q < |s|
    ensures ApplyPoint(rule, s)[q] == (if rule.Fires(s, q) then rule.Replacement() else s[q])
  {
    PointFromSpec(rule, s, 0);
  }

  /** The rewrite keeps which characters are word characters, so `\b` sees the same boundaries. */
  lemma ApplyPointWordChars(rule: PointRule, s: string)
    requires rule.WellFormed()
    ensures forall q :: 0 <= q < |s| ==> IsWordChar(ApplyPoint(rule, s)[q]) == IsWordChar(s[q])
  {
    PointFromSpec(rule, s, 0);
  }

  /** After a one-character rule, the pattern matches nowhere in the result. */
  lemma ApplyPointExhaustive(rule: PointRule, s: string, q: nat)
    requires rule.WellFormed()
    ensures !rule.Fires(ApplyPoint(rule, s), q)
  {
    var r := ApplyPoint(rule, s);
    if q < |s| && rule.Fires(r, q) {
      ApplyPointSpec(rule, s, q);
      if q > 0 {
        ApplyPointSpec(rule, s, q - 1);
      }
      if q + 1 < |s| {
        ApplyPointSpec(rule, s, q + 1);
      }
      if rule.LoneWord? {
        ApplyPointWordChars(rule, s);
      }
      assert false;
    }
  }

  // ---------------------------------------------------------------------
  // (NMLS[#:]?\s*)O(?=\d), case-insensitive, replaced by \g<1>0
  // ---------------------------------------------------------------------

  /** ASCII case folding, as `re.I` applies it to ASCII letters. */
  function Upper(c: char): char {
    if 'a' <= c <= 'z' then (c as int - 32) as char else c
  }

  /** End of the whitespace run starting at `k` (`\s*`, greedy). */
  function SpaceRunEnd(s: string, k: nat): (e: nat)
    requires k <= |s|
    ensures k <= e <= |s| && (e < |s| ==> !IsSpace(s[e]))
    ensures forall j :: k <= j < e ==> IsSpace(s[j])
    decreases |s| - k
  {
    if k < |s| && IsSpace(s[k]) then SpaceRunEnd(s, k + 1) else k
  }

  /** `NMLS` in any case at `i`. */
  predicate LabelAt(s: string, i: nat) {
    i + 4 <= |s| && Upper(s[i]) == 'N' && Upper(s[i + 1]) == 'M' && Upper(s[i + 2]) == 'L'
    && Upper(s[i + 3]) == 'S'
  }

  /**
   * The position of the `O`/`o` that the NMLS pattern matched at `i` replaces.
   * Backtracking cannot help: giving up `[#:]` or a whitespace leaves that
   * character where the `O` is needed.
   */
  function NmlsOAt(s: string, i: nat): (r: Option<nat>)
    ensures r.Some? ==> i + 4 <= r.value && r.value + 1 < |s|
  {
    if LabelAt(s, i) then
      var k := if i + 4 < |s| && (s[i + 4] == '#' || s[i + 4] == ':') then i + 5 else i + 4;
      var q := SpaceRunEnd(s, k);
      if q + 1 < |s| && Upper(s[q]) == 'O' && IsDigit(s[q + 1]) then Some(q) else None
    else None
  }

  /** `re.sub` of the NMLS rule from `i`: the label is kept, the `O` becomes `0`,
      and the scan resumes right after it. */
  function NmlsFrom(s: string, i: nat): (r: string)
    requires i <= |s|
    ensures |r| == |s| - i
    decreases |s| - i
  {
    if i == |s| then []
    else match NmlsOAt(s, i)
      case Some(q) => s[i..q] + "0" + NmlsFrom(s, q + 1)
      case None => [s[i]] + NmlsFrom(s, i + 1)
  }

  /** The NMLS rule: the `O`s some match replaces become `0`, every other character is kept. */
  function NmlsRule(s: string): (r: string)
    ensures |r| == |s|
    ensures forall q :: 0 <= q < |s| ==> r[q] == (if NmlsTarget(s, 0, q) then '0' else s[q])
  {
    NmlsFromSpec(s, 0);
    NmlsFrom(s, 0)
  }

  /** Some NMLS match starting in `[lo, q]` replaces the character at `q`. */
  predicate NmlsTarget(s: string, lo: nat, q: nat)
    decreases q - lo
  {
    lo <= q && (NmlsOAt(s, lo) == Some(q) || NmlsTarget(s, lo + 1, q))
  }

  /** A match covers `s[i..q+1]`, and no other match can start inside it: the label's
      later letters are not `N`, nor are `#`, `:`, whitespace and the `O`. */
  lemma NmlsNoOverlap(s: string, i: nat, j: nat)
    requires NmlsOAt(s, i).Some? && i < j <= NmlsOAt(s, i).value
    ensures NmlsOAt(s, j).None?
  {
    if j >= i + 4 {
      assert Upper(s[j]) != 'N';
    }
  }

  /** Starts inside a match contribute no targets. */
  lemma {:induction false} NmlsTargetSkip(s: string, i: nat, j: nat, p: nat)
    requires NmlsOAt(s, i).Some? && i < j <= NmlsOAt(s, i).value + 1 && NmlsOAt(s, i).value < p
    ensures NmlsTarget(s, j, p) == NmlsTarget(s, NmlsOAt(s, i).value + 1, p)
    decreases NmlsOAt(s, i).value + 1 - j
  {
    var q := NmlsOAt(s, i).value;
    if j <= q {
      NmlsNoOverlap(s, i, j);
      NmlsTargetMiss(s, j, p);
      NmlsTargetSkip(s, i, j + 1, p);
    }
  }

  /** From `i` on, the scan copies every character except the matched `O`s, which become `0`. */
  predicate NmlsFromCorrect(s: string, i: nat)
    requires i <= |s|
  {
    forall p :: i <= p < |s| ==>
      NmlsFrom(s, i)[p - i] == (if NmlsTarget(s, i, p) then '0' else s[p])
  }

  lemma NmlsFromMatchStep(s: string, i: nat)
    requires NmlsOAt(s, i).Some?
    requires NmlsFromCorrect(s, NmlsOAt(s, i).value + 1)
    ensures NmlsFromCorrect(s, i)
  {
    var q := NmlsOAt(s, i).value;
    forall p | i <= p < |s|
      ensures NmlsFrom(s, i)[p - i] == (if NmlsTarget(s, i, p) then '0' else s[p])
    {
      if p > q {
        assert q + 1 <= p;
      }
      NmlsMatchAt(s, i, p);
    }
  }

  /** One position of the scan past a start with a match. */
  lemma NmlsMatchAt(s: string, i: nat, p: nat)
    requires NmlsOAt(s, i).Some? && i <= p < |s|
    requires var q := NmlsOAt(s, i).value;
      p > q ==> NmlsFrom(s, q + 1)[p - (q + 1)] == (if NmlsTarget(s, q + 1, p) then '0' else s[p])
    ensures NmlsFrom(s, i)[p - i] == (if NmlsTarget(s, i, p) then '0' else s[p])
  {
    var q := NmlsOAt(s, i).value;
    if p < q {
      NmlsTargetSkipBefore(s, i, i + 1, p);
      NmlsMatchCopies(s, i, p);
    } else if p == q {
      NmlsMatchReplaces(s, i);
    } else {
      NmlsTargetSkip(s, i, i + 1, p);
      NmlsMatchResumes(s, i, p);
    }
  }

  lemma NmlsMatchUnfold(s: string, i: nat)
    requires NmlsOAt(s, i).Some?
    ensures var q := NmlsOAt(s, i).value; NmlsFrom(s, i) == s[i..q] + ("0" + NmlsFrom(s, q + 1))
  {
  }

  /** The character at `k` of `x + ("0" + y)`. */
  lemma SpliceAt(x: string, y: string, k: nat)
    requires k < |x| + 1 + |y|
    ensures (x + ("0" + y))[k] == if k < |x| then x[k] else if k == |x| then '0' else y[k - |x| - 1]
  {
  }

  lemma NmlsMatchCopies(s: string, i: nat, p: nat)
    requires NmlsOAt(s, i).Some? && i <= p < NmlsOAt(s, i).value
    ensures NmlsFrom(s, i)[p - i] == s[p]
  {
    var q := NmlsOAt(s, i).value;
    NmlsMatchUnfold(s, i);
    SpliceAt(s[i..q], NmlsFrom(s, q + 1), p - i);
  }

  lemma NmlsMatchReplaces(s: string, i: nat)
    requires NmlsOAt(s, i).Some?
    ensures var q := NmlsOAt(s, i).value; NmlsFrom(s, i)[q - i] == '0' && NmlsTarget(s, i, q)
  {
    var q := NmlsOAt(s, i).value;
    NmlsMatchUnfold(s, i);
    SpliceAt(s[i..q], NmlsFrom(s, q + 1), q - i);
  }

  lemma NmlsMatchResumes(s: string, i: nat, p: nat)
    requires NmlsOAt(s, i).Some? && NmlsOAt(s, i).value < p < |s|
    ensures var q := NmlsOAt(s, i).value; NmlsFrom(s, i)[p - i] == NmlsFrom(s, q + 1)[p - (q + 1)]
  {
    var q := NmlsOAt(s, i).value;
    NmlsMatchUnfold(s, i);
    SpliceAt(s[i..q], NmlsFrom(s, q + 1), p - i);
  }

  lemma NmlsFromMissStep(s: string, i: nat)
    requires i < |s| && NmlsOAt(s, i).None?
    requires NmlsFromCorrect(s, i + 1)
    ensures NmlsFromCorrect(s, i)
  {
    forall p | i <= p < |s|
      ensures NmlsFrom(s, i)[p - i] == (if NmlsTarget(s, i, p) then '0' else s[p])
    {
      NmlsMissAt(s, i, p);
    }
  }

  /** One position of the scan past a start without a match. */
  lemma NmlsMissAt(s: string, i: nat, p: nat)
    requires NmlsOAt(s, i).None? && i <= p < |s|
    requires p > i ==> NmlsFrom(s, i + 1)[p - (i + 1)] == (if NmlsTarget(s, i + 1, p) then '0' else s[p])
    ensures NmlsFrom(s, i)[p - i] == (if NmlsTarget(s, i, p) then '0' else s[p])
  {
    NmlsMissUnfold(s, i);
    NmlsTargetMiss(s, i, p);
    if p > i {
      assert ([s[i]] + NmlsFrom(s, i + 1))[p - i] == NmlsFrom(s, i + 1)[p - (i + 1)];
    }
  }

  lemma NmlsMissUnfold(s: string, i: nat)
    requires i < |s| && NmlsOAt(s, i).None?
    ensures NmlsFrom(s, i) == [s[i]] + NmlsFrom(s, i + 1)
  {
  }

  /** A start without a match adds no target. */
  lemma NmlsTargetMiss(s: string, i: nat, p: nat)
    requires NmlsOAt(s, i).None? && i <= p
    ensures NmlsTarget(s, i, p) == (i < p && NmlsTarget(s, i + 1, p))
  {
  }

  /** Outside the replaced `O`s the text is copied; each replaced `O` becomes `0`. */
  lemma {:induction false} NmlsFromSpec(s: string, i: nat)
    requires i <= |s|
    ensures NmlsFromCorrect(s, i)
    decreases |s| - i
  {
    if i < |s| {
      var m := NmlsOAt(s, i);
      if m.Some? {
        NmlsFromSpec(s, m.value + 1);
        NmlsFromMatchStep(s, i);
      } else {
        NmlsFromSpec(s, i + 1);
        NmlsFromMissStep(s, i);
      }
    }
  }

  /** Text without an `NMLS` label is copied unchanged. */
  lemma {:induction false} NmlsFromNoLabel(s: string, i: nat)
    requires i <= |s| && forall j :: i <= j < |s| ==> !LabelAt(s, j)
    ensures NmlsFrom(s, i) == s[i..]
    decreases |s| - i
  {
    if i < |s| {
      NmlsFromNoLabel(s, i + 1);
      assert s[i..] == [s[i]] + s[i + 1..];
    }
  }

  /** Without an `NMLS` label there is nothing to replace. */
  lemma {:induction false} NmlsTargetNoLabel(s: string, lo: nat, p: nat)
    requires forall j :: lo <= j <= p ==> !LabelAt(s, j)
    ensures !NmlsTarget(s, lo, p)
    decreases p + 1 - lo
  {
    if lo <= p {
      NmlsTargetNoLabel(s, lo + 1, p);
    }
  }

  /** Before the replaced `O` of a match, no match inside it has a target. */
  lemma {:induction false} NmlsTargetSkipBefore(s: string, i: nat, j: nat, p: nat)
    requires NmlsOAt(s, i).Some? && i < j && p < NmlsOAt(s, i).value
    ensures !NmlsTarget(s, j, p)
    decreases p + 1 - j
  {
    if j <= p {
      NmlsNoOverlap(s, i, j);
      NmlsTargetMiss(s, j, p);
      NmlsTargetSkipBefore(s, i, j + 1, p);
    }
  }

  /** The NMLS rule changes exactly the `O`s it matched, into `0`. */
  lemma NmlsRuleSpec(s: string, q: nat)
    requires q < |s|
    ensures NmlsRule(s)[q] == (if NmlsTarget(s, 0, q) then '0' else s[q])
  {
    NmlsFromSpec(s, 0);
  }

  lemma NmlsExampleParts()
    ensures NmlsOAt("NMLS# O123456", 0) == Some(6)
    ensures NmlsFrom("NMLS# O123456", 7) == "123456"
    ensures "NMLS# O123456"[0..6] == "NMLS# "
  {
    NmlsExampleMatch();
    NmlsExampleTail();
  }

  lemma NmlsExampleMatch()
    ensures NmlsOAt("NMLS# O123456", 0) == Some(6)
  {
    var s := "NMLS# O123456";
    assert LabelAt(s, 0);
    assert SpaceRunEnd(s, 5) == 6;
  }

  lemma NmlsExampleTail()
    ensures NmlsFrom("NMLS# O123456", 7) == "123456"
  {
    var s := "NMLS# O123456";
    NmlsFromNoLabel(s, 7);
  }

  /** The label itself is kept: `NMLS# O123456` becomes `NMLS# 0123456`. */
  lemma NmlsExample()
    ensures NmlsRule("NMLS# O123456") == "NMLS# 0123456"
  {
    NmlsFromExample();
  }

  lemma NmlsFromExample()
    ensures NmlsFrom("NMLS# O123456", 0) == "NMLS# 0123456"
  {
    NmlsExampleParts();
    NmlsMatchUnfold("NMLS# O123456", 0);
    SpliceLiteral("NMLS# O123456"[0..6], NmlsFrom("NMLS# O123456", 7));
  }

  lemma SpliceLiteral(x: string, y: string)
    requires x == "NMLS# " && y == "123456"
    ensures x + ("0" + y) == "NMLS# 0123456"
  {
  }

  // ---------------------------------------------------------------------
  // Smart quotes and dashes
  // ---------------------------------------------------------------------

  /** The five characters the clean-up replaces. */
  predicate IsTypographic(c: char) {
    c == '“' || c == '”' || c == '’' || c == '—' || c == '–'
  }

  /** The ASCII stand-in for one character. */
  function Plain(c: char): (d: char)
    ensures !IsTypographic(d)
  {
    if c == '“' || c == '”' then '"'
    else if c == '’' then '\''
    else if c == '—' || c == '–' then '-'
    else c
  }

  /** The five chained `str.replace` calls. No replacement introduces a character a later
      call replaces, so they act character by character. */
  function Typographic(s: string): (r: string)
    ensures |r| == |s|
    ensures forall q :: 0 <= q < |s| ==> r[q] == Plain(s[q])
  {
    if s == [] then [] else [Plain(s[0])] + Typographic(s[1..])
  }

  lemma TypographicGone(s: string)
    ensures forall q :: 0 <= q < |s| ==> !IsTypographic(Typographic(s)[q])
    ensures forall q :: 0 <= q < |s| ==> !IsTypographic(s[q]) ==> Typographic(s)[q] == s[q]
  {
  }

  // ---------------------------------------------------------------------
  // The whole chain
  // ---------------------------------------------------------------------

  /** `t` is `text` with some of its misread letters (`O`, `o`, `I`, `l`, `S`) turned into
      digits (`0`, `1`, `5`), every other character in place. */
  predicate DigitsForLetters(text: string, t: string) {
    |t| == |text| && forall q :: 0 <= q < |text| ==> t[q] == text[q] || (text[q] in "OoIlS" && t[q] in "015")
  }

  /** A one-character rule that turns one of the misread letters into a digit keeps the
      relation to the original text. */
  lemma PointStepDigits(rule: PointRule, text: string, s: string)
    requires rule.OBetweenDigits? || rule.OAfterDollar? || (rule.letter in "IlS" && rule.digit in "15")
    requires DigitsForLetters(text, s)
    ensures DigitsForLetters(text, ApplyPoint(rule, s))
  {
  }

  /** The NMLS rule only turns an `O` or `o` into `0`. */
  lemma NmlsStepDigits(text: string, s: string)
    requires DigitsForLetters(text, s)
    ensures DigitsForLetters(text, NmlsRule(s))
  {
    var r := NmlsRule(s);
    forall q | 0 <= q < |text| && r[q] != s[q] ensures s[q] in "Oo" {
      NmlsTargetLetter(s, 0, q);
    }
  }

  /** The character an NMLS match replaces is an `O` in either case. */
  lemma {:induction false} NmlsTargetLetter(s: string, lo: nat, q: nat)
    requires NmlsTarget(s, lo, q)
    ensures q < |s| && s[q] in "Oo"
    decreases q - lo
  {
    if NmlsOAt(s, lo) != Some(q) {
      NmlsTargetLetter(s, lo + 1, q);
    }
  }

  /** Lines 11-23: the six rules that rewrite single characters, in order. Each turns a misread
      letter into a digit, so together they keep the length and change nothing else. */
  function PointRules(text: string): (t: string)
    ensures DigitsForLetters(text, t)
  {
    var t1 := ApplyPoint(OBetweenDigits, text);
    PointStepDigits(OBetweenDigits, text, text);
    var t2 := ApplyPoint(OAfterDollar, t1);
    PointStepDigits(OAfterDollar, text, t1);
    var t3 := NmlsRule(t2);
    NmlsStepDigits(text, t2);
    var t4 := ApplyPoint(LONE_I, t3);
    PointStepDigits(LONE_I, text, t3);
    var t5 := ApplyPoint(LONE_L, t4);
    PointStepDigits(LONE_L, text, t4);
    PointStepDigits(LONE_S, text, t5);
    ApplyPoint(LONE_S, t5)
  }

  /** The text after the `re.sub` rules, before the clean-up and `strip`: the single-character
      rewrites, then a `$` inserted before each match of the comma rule in their result. */
  function RegexRules(text: string): (r: string)
    ensures var t := PointRules(text);
      && DigitsForLetters(text, t)
      && CommaRule.Increasing(0, |t|, CommaRule.Starts(CommaRule.Matches(t, 0)))
      && r == CommaRule.InsertBefore(t, 0, CommaRule.Starts(CommaRule.Matches(t, 0)))
    ensures |r| >= |text|
  {
    CommaRule.InsertDollars(PointRules(text))
  }

  /** `fix_common_misreads(text)`: no smart quote or long dash survives, and no whitespace
      at either end. */
  function FixCommonMisreads(text: string): (r: string)
    ensures Tight(r)
    ensures forall q :: 0 <= q < |r| ==> !IsTypographic(r[q])
  {
    StripNoTypographic(Typographic(RegexRules(text)));
    Strip(Typographic(RegexRules(text)))
  }

  lemma StripNoTypographic(t: string)
    requires forall q :: 0 <= q < |t| ==> !IsTypographic(t[q])
    ensures var r := Strip(t); forall q :: 0 <= q < |r| ==> !IsTypographic(r[q])
  {
    forall q | 0 <= q < |Strip(t)| ensures !IsTypographic(Strip(t)[q]) {
      StripIndex(t, q);
    }
  }
}
