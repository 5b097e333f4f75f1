/**
 * Character classes and the handful of `str` operations the pipeline uses:
 * `strip`, the digit filter, decimal formatting and newline joining.
 * Every class is the ASCII part of its Python counterpart.
 */
module Text {

  /** `\d` and `str.isdigit` over ASCII. */
  predicate IsDigit(c: char) {
    '0' <= c <= '9'
  }

  predicate IsAsciiLetter(c: char) {
    'a' <= c <= 'z' || 'A' <= c <= 'Z'
  }

  /** `\w` over ASCII. */
  predicate IsWordChar(c: char) {
    IsAsciiLetter(c) || IsDigit(c) || c == '_'
  }

  /** The ASCII characters `str.isspace` accepts; `\s` and `strip` use the same class. */
  predicate IsSpace(c: char) {
    c == ' ' || c == '\t' || c == '\n' || c == '\r' || c == '\U{0B}' || c == '\U{0C}'
    || ('\U{1C}' <= c <= '\U{1F}')
  }

  predicate AllDigits(t: string) {
    forall k :: 0 <= k < |t| ==> IsDigit(t[k])
  }

  predicate AllSpace(t: string) {
    forall k :: 0 <= k < |t| ==> IsSpace(t[k])
  }

  /** `\b` at position `p`: exactly one of the two neighbouring characters is a word character. */
  predicate Boundary(s: string, p: nat) {
    p <= |s| && ((p > 0 && IsWordChar(s[p - 1])) != (p < |s| && IsWordChar(s[p])))
  }

  /** A slice of a slice is a slice of the original. */
  lemma SliceOfSlice(s: string, a: nat, b: nat, i: nat, e: nat)
    requires a <= b <= |s| && i <= e <= b - a
    ensures s[a..b][i..e] == s[a + i..a + e]
  {
    assert forall k :: 0 <= k < e - i ==> s[a..b][i..e][k] == s[a + i..a + e][k];
  }

  // ---------------------------------------------------------------------
  // str.strip()
  // ---------------------------------------------------------------------

  function TrimLeft(s: string): (r: string)
    ensures |r| <= |s| && r == s[|s| - |r|..]
    ensures AllSpace(s[..|s| - |r|])
    ensures |r| > 0 ==> !IsSpace(r[0])
  {
    if |s| > 0 && IsSpace(s[0]) then TrimLeft(s[1..]) else s
  }

  function TrimRight(s: string): (r: string)
    ensures |r| <= |s| && r == s[..|r|]
    ensures AllSpace(s[|r|..])
    ensures |r| > 0 ==> !IsSpace(r[|r| - 1])
  {
    if |s| > 0 && IsSpace(s[|s| - 1]) then TrimRight(s[..|s| - 1]) else s
  }

  /** `r` is `s` with `a` whitespace characters cut from the front and only whitespace cut from the back. */
  predicate Trimmed(s: string, a: nat, r: string) {
    a + |r| <= |s| && r == s[a..a + |r|] && AllSpace(s[..a]) && AllSpace(s[a + |r|..])
  }

  /** Whitespace-free at both ends (the empty string included). */
  predicate Tight(r: string) {
    |r| > 0 ==> !IsSpace(r[0]) && !IsSpace(r[|r| - 1])
  }

  /** How many characters `strip` removes from the front. */
  function StripStart(s: string): nat {
    |s| - |TrimLeft(s)|
  }

  /** Cutting whitespace from the front and then from the back cuts it from both ends. */
  lemma TrimmedParts(s: string, l: string, r: string)
    requires |l| <= |s| && l == s[|s| - |l|..] && AllSpace(s[..|s| - |l|])
    requires |r| <= |l| && r == l[..|r|] && AllSpace(l[|r|..])
    ensures Trimmed(s, |s| - |l|, r)
  {
    var a := |s| - |l|;
    assert l[|r|..] == s[a + |r|..];
    assert s[a..a + |r|] == l[..|r|];
  }

  /** Python's `str.strip()` with no argument. */
  function Strip(s: string): (r: string)
    ensures Tight(r)
    ensures Trimmed(s, StripStart(s), r)
  {
    var l := TrimLeft(s);
    var r := TrimRight(l);
    TrimmedParts(s, l, r);
    r
  }

  lemma {:induction false} TrimLeftExact(s: string, a: nat)
    requires a <= |s| && AllSpace(s[..a])
    requires a < |s| ==> !IsSpace(s[a])
    ensures TrimLeft(s) == s[a..]
    decreases a
  {
    if a > 0 {
      assert IsSpace(s[..a][0]);
      assert s[1..][..a - 1] == s[1..a];
      TrimLeftExact(s[1..], a - 1);
    }
  }

  lemma {:induction false} TrimRightExact(s: string, b: nat)
    requires b <= |s| && AllSpace(s[b..])
    requires b > 0 ==> !IsSpace(s[b - 1])
    ensures TrimRight(s) == s[..b]
    decreases |s| - b
  {
    if b < |s| {
      assert IsSpace(s[b..][|s| - 1 - b]);
      assert s[..|s| - 1][b..] == s[b..|s| - 1];
      TrimRightExact(s[..|s| - 1], b);
    }
  }

  /** The strip of `s` is the only tight string obtained from `s` by cutting whitespace at the ends. */
  lemma StripUnique(s: string, a: nat, r: string)
    requires Trimmed(s, a, r) && Tight(r)
    ensures Strip(s) == r
  {
    if |r| == 0 {
      StripAllSpace(s, a);
    } else {
      StripAround(s, a, r);
    }
  }

  lemma StripAllSpace(s: string, a: nat)
    requires a <= |s| && AllSpace(s[..a]) && AllSpace(s[a..])
    ensures Strip(s) == []
  {
    forall k | 0 <= k < |s| ensures IsSpace(s[k]) {
      if k < a { assert s[k] == s[..a][k]; } else { assert s[k] == s[a..][k - a]; }
    }
    assert s[..|s|] == s;
    TrimLeftExact(s, |s|);
  }

  lemma StripAround(s: string, a: nat, r: string)
    requires Trimmed(s, a, r) && |r| > 0 && !IsSpace(r[0]) && !IsSpace(r[|r| - 1])
    ensures Strip(s) == r
  {
    assert s[a] == r[0];
    TrimLeftExact(s, a);
    var l := s[a..];
    assert l[..|r|] == r;
    assert l[|r|..] == s[a + |r|..];
    TrimRightExact(l, |r|);
  }

  /** The strip is the slice of `s` from `StripStart(s)`. */
  lemma StripIsSlice(s: string)
    ensures StripStart(s) + |Strip(s)| <= |s|
    ensures Strip(s) == s[StripStart(s)..StripStart(s) + |Strip(s)|]
  {
    assert Trimmed(s, StripStart(s), Strip(s));
  }

  /** Character `q` of the strip is character `StripStart(s) + q` of `s`. */
  lemma StripIndex(s: string, q: nat)
    requires q < |Strip(s)|
    ensures StripStart(s) + q < |s| && Strip(s)[q] == s[StripStart(s) + q]
  {
    StripIsSlice(s);
  }

  lemma StripIdempotent(s: string)
    ensures Strip(Strip(s)) == Strip(s)
  {
    var r := Strip(s);
    assert Trimmed(r, 0, r);
    StripUnique(r, 0, r);
  }

  /** A string with no whitespace at either end is its own strip. */
  lemma StripTight(s: string)
    requires Tight(s)
    ensures Strip(s) == s
  {
    assert Trimmed(s, 0, s);
    StripUnique(s, 0, s);
  }

  /** Stripping leaves nothing exactly when the string is all whitespace. */
  lemma StripEmpty(s: string)
    ensures Strip(s) == [] <==> AllSpace(s)
  {
    if AllSpace(s) {
      assert Trimmed(s, 0, []) by { assert s[0..] == s; }
      StripUnique(s, 0, []);
    } else {
      var k :| 0 <= k < |s| && !IsSpace(s[k]);
      var r := Strip(s);
      assert Trimmed(s, StripStart(s), r);
    }
  }

  // ---------------------------------------------------------------------
  // "".join(ch for ch in s if ch.isdigit())
  // ---------------------------------------------------------------------

  function Digits(s: string): (r: string)
    ensures AllDigits(r)
    ensures |r| <= |s|
  {
    if s == [] then [] else (if IsDigit(s[0]) then [s[0]] else []) + Digits(s[1..])
  }

  /** The digit filter distributes over concatenation: digits are kept in order. */
  lemma {:induction false} DigitsAppend(a: string, b: string)
    ensures Digits(a + b) == Digits(a) + Digits(b)
    decreases |a|
  {
    if a != [] {
      assert (a + b)[1..] == a[1..] + b;
      DigitsAppend(a[1..], b);
    } else {
      assert a + b == b;
    }
  }

  lemma {:induction false} DigitsOfDigits(s: string)
    requires AllDigits(s)
    ensures Digits(s) == s
  {
    if s != [] {
      DigitsOfDigits(s[1..]);
    }
  }

  lemma {:induction false} DigitsEmpty(s: string)
    ensures Digits(s) == [] <==> forall k :: 0 <= k < |s| ==> !IsDigit(s[k])
  {
    if s != [] {
      DigitsEmpty(s[1..]);
      assert forall k :: 1 <= k < |s| ==> s[k] == s[1..][k - 1];
    }
  }

  // ---------------------------------------------------------------------
  // Decimal rendering of integers (`str(n)`, `f"{n:03d}"`)
  // ---------------------------------------------------------------------

  function DigitChar(d: nat): (c: char)
    requires d < 10
    ensures IsDigit(c)
  {
    (48 + d) as char
  }

  function DigitValue(c: char): (d: nat)
    requires IsDigit(c)
    ensures d < 10
  {
    c as int - 48
  }

  /** Decimal digits of `n`, most significant first, without leading zeros. */
  function Decimal(n: nat): (r: string)
    ensures |r| >= 1 && AllDigits(r)
    ensures |r| > 1 ==> r[0] != '0'
    decreases n
  {
    if n < 10 then [DigitChar(n)] else Decimal(n / 10) + [DigitChar(n % 10)]
  }

  /** The number a digit string denotes. */
  function ValueOf(t: string): nat
    requires AllDigits(t)
  {
    if t == [] then 0 else ValueOf(t[..|t| - 1]) * 10 + DigitValue(t[|t| - 1])
  }

  function Pow10(k: nat): nat {
    if k == 0 then 1 else 10 * Pow10(k - 1)
  }

  lemma {:induction false} DecimalRoundTrip(n: nat)
    ensures ValueOf(Decimal(n)) == n
    decreases n
  {
    if n >= 10 {
      var d := Decimal(n / 10) + [DigitChar(n % 10)];
      assert d[..|d| - 1] == Decimal(n / 10);
      DecimalRoundTrip(n / 10);
    }
  }

  lemma ShiftDecimal(v: nat, p: nat, w: nat, d: nat)
    ensures (v * p + w) * 10 + d == v * (10 * p) + (w * 10 + d)
  {
  }

  lemma {:induction false} ValueOfAppend(a: string, b: string)
    requires AllDigits(a) && AllDigits(b)
    ensures AllDigits(a + b)
    ensures ValueOf(a + b) == ValueOf(a) * Pow10(|b|) + ValueOf(b)
    decreases |b|
  {
    if b == [] {
      assert a + b == a;
    } else {
      var b' := b[..|b| - 1];
      var d := DigitValue(b[|b| - 1]);
      assert (a + b)[..|a + b| - 1] == a + b';
      ValueOfAppend(a, b');
      calc {
        ValueOf(a + b);
        ValueOf(a + b') * 10 + d;
        (ValueOf(a) * Pow10(|b'|) + ValueOf(b')) * 10 + d;
        { ShiftDecimal(ValueOf(a), Pow10(|b'|), ValueOf(b'), d); }
        ValueOf(a) * Pow10(|b|) + (ValueOf(b') * 10 + d);
      }
    }
  }

  function Zeros(k: nat): (r: string)
    ensures |r| == k && AllDigits(r)
    ensures forall i :: 0 <= i < k ==> r[i] == '0'
  {
    if k == 0 then [] else "0" + Zeros(k - 1)
  }

  lemma {:induction false} ZerosValue(k: nat)
    ensures ValueOf(Zeros(k)) == 0
  {
    if k > 0 {
      assert Zeros(k) == Zeros(k - 1) + "0";
      ZerosValue(k - 1);
    }
  }

  /** `f"{n:03d}"` for a non-negative `n`. */
  function ZeroPad3(n: nat): string {
    var d := Decimal(n);
    if |d| >= 3 then d else Zeros(3 - |d|) + d
  }

  /** The padded index is at least three digits wide, exactly three below 1000, and reads back as `n`. */
  lemma ZeroPad3RoundTrip(n: nat)
    ensures |ZeroPad3(n)| >= 3 && AllDigits(ZeroPad3(n))
    ensures n < 1000 ==> |ZeroPad3(n)| == 3
    ensures ValueOf(ZeroPad3(n)) == n
  {
    var d := Decimal(n);
    DecimalRoundTrip(n);
    DecimalWidth(n);
    if |d| < 3 {
      ValueOfAppend(Zeros(3 - |d|), d);
      ZerosValue(3 - |d|);
    }
  }

  /** A number below `10^k` needs at most `k` digits. */
  lemma {:induction false} DecimalWidth(n: nat)
    ensures n < 10 ==> |Decimal(n)| == 1
    ensures n < 100 ==> |Decimal(n)| <= 2
    ensures n < 1000 ==> |Decimal(n)| <= 3
  {
    if n >= 10 {
      DecimalWidth(n / 10);
    }
  }

  /** `str(v)` / `f"{v:.0f}"` for an integral coordinate. */
  function IntText(v: int): string {
    if v < 0 then "-" + Decimal(-v) else Decimal(v)
  }

  /** The rendering of an integer is a sign followed by its magnitude's digits. */
  lemma IntTextShape(v: int)
    ensures v >= 0 ==> AllDigits(IntText(v)) && ValueOf(IntText(v)) == v
    ensures v < 0 ==> IntText(v)[0] == '-' && AllDigits(IntText(v)[1..]) && ValueOf(IntText(v)[1..]) == -v
  {
    if v >= 0 {
      DecimalRoundTrip(v);
    } else {
      assert IntText(v)[1..] == Decimal(-v);
      DecimalRoundTrip(-v);
    }
  }

  // ---------------------------------------------------------------------
  // sep.join(parts) and its inverse
  // ---------------------------------------------------------------------

  /** `sep.join(parts)`. */
  function Join(parts: seq<string>, sep: string): string {
    if |parts| == 0 then ""
    else if |parts| == 1 then parts[0]
    else parts[0] + sep + Join(parts[1..], sep)
  }

  function IndexOf(s: string, c: char): (i: nat)
    requires c in s
    ensures i < |s| && s[i] == c && c !in s[..i]
  {
    if s[0] == c then 0 else
      assert c in s[1..] by { var k :| 0 <= k < |s| && s[k] == c; assert s[1..][k - 1] == c; }
      var j := IndexOf(s[1..], c);
      assert s[..j + 1] == [s[0]] + s[1..][..j];
      1 + j
  }

  /** `s.split(sep)`: always at least one part, none containing `sep`. */
  function Split(s: string, sep: char): (parts: seq<string>)
    ensures |parts| >= 1
    ensures forall k :: 0 <= k < |parts| ==> sep !in parts[k]
    decreases |s|
  {
    if sep !in s then [s]
    else
      var i := IndexOf(s, sep);
      [s[..i]] + Split(s[i + 1..], sep)
  }

  /** Joining and splitting on a separator no part contains are inverse. */
  lemma {:induction false} SplitJoin(parts: seq<string>, sep: char)
    requires |parts| >= 1
    requires forall k :: 0 <= k < |parts| ==> sep !in parts[k]
    ensures Split(Join(parts, [sep]), sep) == parts
    decreases |parts|
  {
    if |parts| > 1 {
      var s := Join(parts, [sep]);
      var p := parts[0];
      assert s[|p|] == sep;
      var i := IndexOf(s, sep);
      assert s[..|p|] == p;
      assert i == |p|;
      assert s[i + 1..] == Join(parts[1..], [sep]);
      SplitJoin(parts[1..], sep);
    }
  }

  // ---------------------------------------------------------------------
  // Substrings and distinct lists
  // ---------------------------------------------------------------------

  /** The `n` characters of `s` from `a`. */
  function Window(s: string, a: nat, n: nat): string
    requires a + n <= |s|
  {
    s[a..a + n]
  }

  /** `p in s` for strings: `p` occurs somewhere in `s`. */
  ghost predicate Occurs(p: string, s: string) {
    exists a: nat :: a + |p| <= |s| && Window(s, a, |p|) == p
  }

  /** Whatever occurs in `t` occurs in any text that has `t` in it. */
  lemma OccursWithin(p: string, t: string, x: string, y: string)
    requires Occurs(p, t)
    ensures Occurs(p, x + t + y)
  {
    var a: nat :| a + |p| <= |t| && Window(t, a, |p|) == p;
    var s := x + t + y;
    assert Window(s, |x| + a, |p|) == Window(t, a, |p|);
  }

  lemma OccursMiddle(x: string, p: string, y: string)
    ensures Occurs(p, x + p + y)
  {
    assert Window(x + p + y, |x|, |p|) == p;
  }

  lemma OccursSelf(p: string)
    ensures Occurs(p, p)
  {
    assert Window(p, 0, |p|) == p;
  }

  lemma OccursPrefix(p: string, t: string, y: string)
    requires Occurs(p, t)
    ensures Occurs(p, t + y)
  {
    var a: nat :| a + |p| <= |t| && Window(t, a, |p|) == p;
    assert Window(t + y, a, |p|) == Window(t, a, |p|);
  }

  lemma OccursSuffix(p: string, t: string, x: string)
    requires Occurs(p, t)
    ensures Occurs(p, x + t)
  {
    var a: nat :| a + |p| <= |t| && Window(t, a, |p|) == p;
    assert Window(x + t, |x| + a, |p|) == Window(t, a, |p|);
  }

  lemma OccursTrans(p: string, m: string, s: string)
    requires Occurs(p, m) && Occurs(m, s)
    ensures Occurs(p, s)
  {
    var a: nat :| a + |m| <= |s| && Window(s, a, |m|) == m;
    var b: nat :| b + |p| <= |m| && Window(m, b, |p|) == p;
    assert m == s[a..a + |m|];
    assert a + b + |p| <= |s|;
    var u := m[b..b + |p|];
    var v := s[a + b..a + b + |p|];
    forall k | 0 <= k < |p| ensures u[k] == v[k] {
      assert m[b + k] == s[a..a + |m|][b + k];
    }
    assert u == v;
    assert Window(s, a + b, |p|) == Window(m, b, |p|);
  }

  /** Every part occurs in the joined text. */
  lemma {:induction false} JoinOccurs(parts: seq<string>, sep: string, i: nat)
    requires i < |parts|
    ensures Occurs(parts[i], Join(parts, sep))
    decreases |parts|
  {
    if |parts| == 1 {
      OccursSelf(parts[0]);
    } else {
      var rest := Join(parts[1..], sep);
      assert Join(parts, sep) == parts[0] + sep + rest;
      if i == 0 {
        OccursSelf(parts[0]);
        OccursPrefix(parts[0], parts[0], sep + rest);
        assert parts[0] + (sep + rest) == parts[0] + sep + rest;
      } else {
        JoinOccurs(parts[1..], sep, i - 1);
        assert parts[1..][i - 1] == parts[i];
        OccursSuffix(parts[i], rest, parts[0] + sep);
      }
    }
  }

  predicate Distinct(keys: seq<string>) {
    forall i, j :: 0 <= i < j < |keys| ==> keys[i] != keys[j]
  }
}
