/**
 * Field validation and canonicalisation (src/validate.py).
 *
 * `IsValid` is the per-field predicate the merger consults; `Normalize`
 * turns a merged record into its final form. The date check calls an
 * external date parser, which is a parameter here.
 */
module Validate {
  import opened Text
  import opened Results
  import opened Numerals
  import opened Json

  const LOAN_AMOUNT: string := "loan_amount"
  const RECORDING_DATE: string := "recording_date"
  const LENDER_NMLS_ID: string := "lender_nmls_id"
  const ORIGINATOR_NMLS_ID: string := "loan_originator_nmls_id"

  /** Whether the external date parser returns a date for a string. */
  type DateParser = string -> bool

  predicate IsNmlsKey(k: string) {
    k == LENDER_NMLS_ID || k == ORIGINATOR_NMLS_ID
  }

  // ---------------------------------------------------------------------
  // MONEY = \$\s?\d{1,3}(?:,\d{3})*(?:\.\d{2})?
  // ---------------------------------------------------------------------

  /** `s[i..e]` is one currency amount: `$`, at most one whitespace, then an amount. */
  ghost predicate MoneyIn(s: string, i: nat, e: nat) {
    i < e <= |s| && s[i] == '$'
    && (AmountIn(s, i + 1, e) || (i + 1 < e && IsSpace(s[i + 1]) && AmountIn(s, i + 2, e)))
  }

  /** `t` is entirely one currency amount. */
  ghost predicate MoneyShaped(t: string) {
    MoneyIn(t, 0, |t|)
  }

  /** Some substring of `s` is a currency amount. */
  ghost predicate ContainsMoney(s: string) {
    exists i: nat, e: nat :: MoneyIn(s, i, e)
  }

  /**
   * End of the `MONEY` match anchored at `i`, if any. When `\s?` takes a
   * whitespace that no digit follows, backing off to the empty `\s?` leaves
   * that whitespace where a digit is needed, so it cannot help.
   */
  function MoneyAt(s: string, i: nat): (r: Option<nat>)
    ensures r.Some? ==> i < r.value <= |s| && s[i] == '$'
  {
    if i < |s| && s[i] == '$' then
      AmountEnd(s, if i + 1 < |s| && IsSpace(s[i + 1]) then i + 2 else i + 1)
    else None
  }

  /** `MONEY.search(s[from..])`: the leftmost match as (start, end). */
  function MoneySearch(s: string, from: nat): (m: Option<(nat, nat)>)
    ensures m.Some? ==> from <= m.value.0 < |s| && MoneyAt(s, m.value.0) == Some(m.value.1)
    ensures m.Some? ==> forall j :: from <= j < m.value.0 ==> MoneyAt(s, j).None?
    ensures m.None? ==> forall j :: from <= j < |s| ==> MoneyAt(s, j).None?
    decreases |s| - from
  {
    if from >= |s| then None
    else match MoneyAt(s, from)
      case Some(e) => Some((from, e))
      case None =>
        MoneySearch(s, from + 1)
  }

  /** The match anchored at `i` is a currency amount. */
  lemma MoneyAtSound(s: string, i: nat)
    requires MoneyAt(s, i).Some?
    ensures MoneyIn(s, i, MoneyAt(s, i).value)
  {
    var d := if i + 1 < |s| && IsSpace(s[i + 1]) then i + 2 else i + 1;
    AmountEndSound(s, d);
  }

  /** No currency amount starting at `i` ends beyond the match anchored there. */
  lemma MoneyAtMaximal(s: string, i: nat, e': nat)
    requires MoneyIn(s, i, e')
    ensures MoneyAt(s, i).Some? && e' <= MoneyAt(s, i).value
  {
    if AmountIn(s, i + 1, e') {
      AmountFirstDigit(s, i + 1, e');
      AmountEndMaximal(s, i + 1, e');
    } else {
      AmountEndMaximal(s, i + 2, e');
    }
  }

  /** The search finds a match exactly when some substring is a currency amount. */
  lemma MoneySearchComplete(s: string)
    ensures MoneySearch(s, 0).Some? <==> ContainsMoney(s)
  {
    if MoneySearch(s, 0).Some? {
      var (i, e) := MoneySearch(s, 0).value;
      MoneyAtSound(s, i);
    }
    if ContainsMoney(s) {
      var i: nat, e: nat :| MoneyIn(s, i, e);
      MoneyAtMaximal(s, i, e);
    }
  }

  /** Whether `s[i..e]` is a currency amount does not depend on what surrounds it. */
  lemma MoneyInShift(s: string, a: nat, b: nat, i: nat, e: nat)
    requires a <= b <= |s| && i <= e <= b - a
    ensures MoneyIn(s[a..b], i, e) <==> MoneyIn(s, a + i, a + e)
  {
    if i < e {
      AmountInShift(s, a, b, i + 1, e);
      if i + 1 < e {
        AmountInShift(s, a, b, i + 2, e);
      }
    }
  }

  /** Removing a prefix and a suffix never creates a match. */
  lemma NoMoneyInSlice(s: string, a: nat, b: nat)
    requires a <= b <= |s| && !ContainsMoney(s)
    ensures !ContainsMoney(s[a..b])
  {
    if ContainsMoney(s[a..b]) {
      var i: nat, e: nat :| MoneyIn(s[a..b], i, e);
      MoneyInShift(s, a, b, i, e);
    }
  }

  // ---------------------------------------------------------------------
  // Validators
  // ---------------------------------------------------------------------

  /** `_valid_money`: a string in which `MONEY` finds a match, which is a string with a
      currency amount somewhere in it. */
  predicate ValidMoney(v: Value): (b: bool)
    ensures b <==> v.Str? && ContainsMoney(v.s)
  {
    if v.Str? then MoneySearchComplete(v.s); MoneySearch(v.s, 0).Some? else false
  }

  /** `NMLS.fullmatch(s)` for `\b(\d{1,7})\b`: the greedy digit run must reach the end,
      since taking fewer digits only ends the match earlier. */
  predicate NmlsFullMatch(s: string) {
    var n := DigitRun(s, 0, 7);
    Boundary(s, 0) && n >= 1 && n == |s| && Boundary(s, n)
  }

  /** `_valid_nmls`: a string of one to seven digits and nothing else. */
  predicate ValidNmls(v: Value): (b: bool)
    ensures b <==> v.Str? && 1 <= |v.s| <= 7 && AllDigits(v.s)
  {
    if v.Str? && 1 <= |v.s| <= 7 && AllDigits(v.s) then
      assert v.s[0..|v.s|] == v.s;
      DigitRunAtLeast(v.s, 0, 7, |v.s|);
      NmlsFullMatch(v.s)
    else v.Str? && NmlsFullMatch(v.s)
  }

  /** `_valid_date` */
  predicate ValidDate(v: Value, parsesDate: DateParser) {
    v.Str? && parsesDate(v.s)
  }

  /** `is_valid(key, value)`: the validator for the key, and for any other key a value that is
      neither `None` nor an all-whitespace string. */
  predicate IsValid(key: string, v: Value, parsesDate: DateParser): (b: bool)
    ensures v.Null? ==> !b
    ensures key == LOAN_AMOUNT ==> (b <==> v.Str? && ContainsMoney(v.s))
    ensures IsNmlsKey(key) ==> (b <==> v.Str? && 1 <= |v.s| <= 7 && AllDigits(v.s))
    ensures key == RECORDING_DATE ==> (b <==> v.Str? && parsesDate(v.s))
    ensures key != LOAN_AMOUNT && !IsNmlsKey(key) && key != RECORDING_DATE ==>
      (b <==> !v.Null? && !(v.Str? && AllSpace(v.s)))
  {
    if key == LOAN_AMOUNT then ValidMoney(v)
    else if IsNmlsKey(key) then ValidNmls(v)
    else if key == RECORDING_DATE then ValidDate(v, parsesDate)
    else if v.Null? then false
    else if v.Str? && (StripEmpty(v.s); Strip(v.s) == []) then false
    else true
  }

  /** A loan amount is valid exactly when it is a string with a currency amount somewhere in it. */
  lemma LoanAmountValidIff(v: Value, parsesDate: DateParser)
    ensures IsValid(LOAN_AMOUNT, v, parsesDate) <==> v.Str? && ContainsMoney(v.s)
  {
    if v.Str? {
      MoneySearchComplete(v.s);
    }
  }

  /** An NMLS identifier is valid exactly when it is a string of one to seven digits. */
  lemma NmlsValidIff(k: string, v: Value, parsesDate: DateParser)
    requires IsNmlsKey(k)
    ensures IsValid(k, v, parsesDate) <==> v.Str? && 1 <= |v.s| <= 7 && AllDigits(v.s)
  {
    if v.Str? && 1 <= |v.s| <= 7 && AllDigits(v.s) {
      var s := v.s;
      assert s[0..|s|] == s;
      DigitRunAtLeast(s, 0, 7, |s|);
    }
  }

  /** Any other field is invalid exactly when it is `None` or an all-whitespace string. */
  lemma OtherValidIff(k: string, v: Value, parsesDate: DateParser)
    requires k != LOAN_AMOUNT && !IsNmlsKey(k) && k != RECORDING_DATE
    ensures !IsValid(k, v, parsesDate) <==> v.Null? || (v.Str? && AllSpace(v.s))
  {
    if v.Str? {
      StripEmpty(v.s);
    }
  }

  /** `None` (a missing key) is invalid for every field. */
  lemma NullNeverValid(k: string, parsesDate: DateParser)
    ensures !IsValid(k, Null, parsesDate)
  {
  }

  // ---------------------------------------------------------------------
  // normalize
  // ---------------------------------------------------------------------

  /** NMLS step: keep the digits of a string, `None` when there are none. */
  function DigitsOnly(v: Value): Value {
    if v.Str? then (var d := Digits(v.s); if d == [] then Null else Str(d)) else v
  }

  /** Loan-amount step: a string becomes its first `MONEY` match, or stays as it is. */
  function FirstMoney(v: Value): Value {
    if v.Str? then
      match MoneySearch(v.s, 0)
      case Some(m) => Str(v.s[m.0..m.1])
      case None => v
    else v
  }

  /** Final step: strings are stripped, other values kept. */
  function TrimValue(v: Value): Value {
    if v.Str? then Str(Strip(v.s)) else v
  }

  /** What `normalize` does to the value under key `k`, one key at a time. */
  function CanonicalValue(k: string, v: Value): Value {
    TrimValue(if IsNmlsKey(k) then DigitsOnly(v) else if k == LOAN_AMOUNT then FirstMoney(v) else v)
  }

  /** Replace `r[k]` by `f(r[k])` when `k` is present (`out.get(k)` of a missing key is not a string). */
  function UpdatePresent(r: Record, k: string, f: Value -> Value): Record {
    if k in r then r[k := f(r[k])] else r
  }

  /** `normalize(data)`: the NMLS pass, the loan-amount pass, then trimming every string. */
  function Normalize(data: Record): (out: Record)
    ensures out.Keys == data.Keys
    ensures forall k :: k in data ==> out[k] == CanonicalValue(k, data[k])
  {
    var a := UpdatePresent(data, LENDER_NMLS_ID, DigitsOnly);
    var b := UpdatePresent(a, ORIGINATOR_NMLS_ID, DigitsOnly);
    var c := UpdatePresent(b, LOAN_AMOUNT, FirstMoney);
    map k | k in c :: TrimValue(c[k])
  }

  /** An NMLS string becomes its digits, in order, or `None` when it has none;
      any other NMLS value is kept. */
  lemma NormalizeNmls(data: Record, k: string)
    requires IsNmlsKey(k) && k in data
    ensures data[k].Str? && Digits(data[k].s) != [] ==>
      Normalize(data)[k] == Str(Digits(data[k].s)) && AllDigits(Normalize(data)[k].s)
    ensures data[k].Str? && Digits(data[k].s) == [] ==> Normalize(data)[k] == Null
    ensures !data[k].Str? ==> Normalize(data)[k] == data[k]
  {
    if data[k].Str? && Digits(data[k].s) != [] {
      var d := Digits(data[k].s);
      assert Tight(d);
      StripTight(d);
    }
  }

  /** `s[i..e]` is the leftmost currency amount in `s`, and no longer one starts at `i`. */
  ghost predicate LeftmostLongestMoney(s: string, i: nat, e: nat) {
    MoneyIn(s, i, e)
    && (forall j: nat, e': nat :: j < i ==> !MoneyIn(s, j, e'))
    && (forall e': nat :: MoneyIn(s, i, e') ==> e' <= e)
  }

  /** The match the search reports is the leftmost, longest currency amount. */
  lemma MoneySearchLeftmostLongest(s: string, i: nat, e: nat)
    requires MoneySearch(s, 0) == Some((i, e))
    ensures LeftmostLongestMoney(s, i, e)
  {
    MoneyAtSound(s, i);
    forall j: nat, e': nat | j < i && MoneyIn(s, j, e') ensures false {
      MoneyAtMaximal(s, j, e');
    }
    forall e': nat | MoneyIn(s, i, e') ensures e' <= e {
      MoneyAtMaximal(s, i, e');
    }
  }

  /** A loan-amount string becomes its leftmost, longest currency amount when
      it has one, and its stripped self otherwise. */
  lemma NormalizeLoanAmount(data: Record)
    requires LOAN_AMOUNT in data && data[LOAN_AMOUNT].Str?
    ensures var s := data[LOAN_AMOUNT].s;
      ContainsMoney(s) ==>
        exists i: nat, e: nat :: LeftmostLongestMoney(s, i, e) && i <= e <= |s|
          && Normalize(data)[LOAN_AMOUNT] == Str(s[i..e])
    ensures var s := data[LOAN_AMOUNT].s;
      !ContainsMoney(s) ==> Normalize(data)[LOAN_AMOUNT] == Str(Strip(s))
  {
    var s := data[LOAN_AMOUNT].s;
    MoneySearchComplete(s);
    assert Normalize(data)[LOAN_AMOUNT] == TrimValue(FirstMoney(Str(s)));
    if MoneySearch(s, 0).Some? {
      var m := MoneySearch(s, 0).value;
      MoneySearchLeftmostLongest(s, m.0, m.1);
      MoneyTight(s, m.0, m.1);
      StripTight(s[m.0..m.1]);
      assert LeftmostLongestMoney(s, m.0, m.1) && m.0 <= m.1 <= |s|;
    }
  }

  /** Every other value: strings are stripped, everything else is kept. */
  lemma NormalizeOther(data: Record, k: string)
    requires k in data && !IsNmlsKey(k) && k != LOAN_AMOUNT
    ensures data[k].Str? ==> Normalize(data)[k] == Str(Strip(data[k].s))
    ensures !data[k].Str? ==> Normalize(data)[k] == data[k]
  {
  }

  /** No string in a normalized record has whitespace at either end. */
  lemma NormalizeTight(data: Record)
    ensures forall k :: k in Normalize(data) && Normalize(data)[k].Str? ==> Tight(Normalize(data)[k].s)
  {
  }

  /** A currency amount begins with `$` and ends with a digit, so stripping keeps it. */
  lemma MoneyTight(s: string, i: nat, e: nat)
    requires MoneyIn(s, i, e)
    ensures Tight(s[i..e])
  {
    if AmountIn(s, i + 1, e) {
      AmountLastDigit(s, i + 1, e);
    } else {
      AmountLastDigit(s, i + 2, e);
    }
  }

  /** A currency amount searched on its own is found whole. */
  lemma MoneyFoundWhole(t: string)
    requires MoneyShaped(t)
    ensures MoneySearch(t, 0) == Some((0, |t|))
  {
    MoneyAtMaximal(t, 0, |t|);
  }

  lemma DigitsOnlyCanonicalTwice(s: string)
    ensures var once := TrimValue(DigitsOnly(Str(s)));
      TrimValue(DigitsOnly(once)) == once
  {
    var d := Digits(s);
    if d != [] {
      assert Tight(d);
      StripTight(d);
      DigitsOfDigits(d);
    }
  }

  /** A currency amount cut out of its string is tight and is found whole again. */
  lemma MoneySliceFoundWhole(s: string, i: nat, e: nat)
    requires MoneyIn(s, i, e)
    ensures Tight(s[i..e])
    ensures MoneySearch(s[i..e], 0) == Some((0, |s[i..e]|))
  {
    MoneyTight(s, i, e);
    MoneyInShift(s, i, e, 0, e - i);
    MoneyFoundWhole(s[i..e]);
  }

  /** Stripping a string without a currency amount cannot produce one. */
  lemma StripKeepsNoMoney(s: string)
    requires !ContainsMoney(s)
    ensures !ContainsMoney(Strip(s))
  {
    StripIsSlice(s);
    NoMoneyInSlice(s, StripStart(s), StripStart(s) + |Strip(s)|);
  }

  lemma FirstMoneyWholeCanonical(t: string)
    requires Tight(t) && MoneySearch(t, 0) == Some((0, |t|))
    ensures TrimValue(FirstMoney(Str(t))) == Str(t)
  {
    StripTight(t);
    assert t[0..|t|] == t;
  }

  lemma FirstMoneyFoundCanonical(s: string, i: nat, e: nat)
    requires MoneyIn(s, i, e)
    ensures TrimValue(Str(s[i..e])) == Str(s[i..e])
    ensures TrimValue(FirstMoney(Str(s[i..e]))) == Str(s[i..e])
  {
    MoneySliceFoundWhole(s, i, e);
    StripTight(s[i..e]);
    FirstMoneyWholeCanonical(s[i..e]);
  }

  lemma FirstMoneyMissingCanonical(s: string)
    requires MoneySearch(s, 0).None?
    ensures MoneySearch(Strip(s), 0).None?
  {
    MoneySearchComplete(s);
    StripKeepsNoMoney(s);
    MoneySearchComplete(Strip(s));
  }

  lemma FirstMoneyCanonicalTwice(s: string)
    ensures var once := TrimValue(FirstMoney(Str(s)));
      TrimValue(FirstMoney(once)) == once
  {
    match MoneySearch(s, 0)
    case Some(m) =>
      MoneyAtSound(s, m.0);
      FirstMoneyFoundCanonical(s, m.0, m.1);
    case None =>
      FirstMoneyMissingCanonical(s);
      StripIdempotent(s);
  }

  /** Canonicalising a value twice is canonicalising it once. */
  lemma CanonicalValueIdempotent(k: string, v: Value)
    ensures CanonicalValue(k, CanonicalValue(k, v)) == CanonicalValue(k, v)
  {
    if v.Str? {
      if IsNmlsKey(k) {
        DigitsOnlyCanonicalTwice(v.s);
      } else if k == LOAN_AMOUNT {
        FirstMoneyCanonicalTwice(v.s);
      } else {
        StripIdempotent(v.s);
      }
    }
  }

  /** `normalize` is idempotent. */
  lemma NormalizeIdempotent(data: Record)
    ensures Normalize(Normalize(data)) == Normalize(data)
  {
    CanonicalTwice(data, Normalize(data), Normalize(Normalize(data)));
  }

  lemma CanonicalTwice(data: Record, once: Record, twice: Record)
    requires once.Keys == data.Keys && twice.Keys == once.Keys
    requires forall k :: k in data ==> once[k] == CanonicalValue(k, data[k])
    requires forall k :: k in once ==> twice[k] == CanonicalValue(k, once[k])
    ensures twice == once
  {
    forall k | k in twice ensures twice[k] == once[k] {
      CanonicalValueIdempotent(k, data[k]);
    }
  }
}
