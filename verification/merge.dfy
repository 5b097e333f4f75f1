/**
 * `merge(base, overrides)`: a copy of the base record in which every
 * preferred field that is invalid is replaced by the override's value when
 * that one is valid.
 */
module Merge {
  import opened Json
  import opened Validate
  import opened Text

  /** The fields the merger repairs, in the order it visits them. */
  const PREF_ORDER: seq<string> := [
    "borrowers", "loan_amount", "recording_date", "recording_location",
    "lender_name", "lender_nmls_id", "broker_name",
    "loan_originator_name", "loan_originator_nmls_id"
  ]

  /** The value `merge` settles on for a visited key, from its base and override values. */
  function Pick(k: string, b: Value, o: Value, parsesDate: DateParser): Value {
    if !IsValid(k, b, parsesDate) && IsValid(k, o, parsesDate) then o else b
  }

  /** `out` is what visiting `keys` makes of `base`: the base keys plus the visited keys with
      a valid override, each visited key holding its `Pick` and every other key its base value. */
  predicate MergedFrom(keys: seq<string>, base: Record, overrides: Record, parsesDate: DateParser, out: Record) {
    && out.Keys == base.Keys + (set k | k in keys && IsValid(k, Get(overrides, k), parsesDate))
    && forall k :: k in out ==>
         out[k] == (if k in keys then Pick(k, Get(base, k), Get(overrides, k), parsesDate) else base[k])
  }

  /** The loop body of `merge` for each of `keys`, threading `out`: no key is dropped, and a key
      that is not visited is neither added nor changed. */
  function MergeKeys(keys: seq<string>, out: Record, overrides: Record, parsesDate: DateParser): (r: Record)
    ensures out.Keys <= r.Keys
    ensures forall k :: k in r && k !in keys ==> k in out && r[k] == out[k]
    decreases |keys|
  {
    if keys == [] then out
    else
      var k := keys[0];
      var b := Get(out, k);
      var o := Get(overrides, k);
      var next := if !IsValid(k, b, parsesDate) && IsValid(k, o, parsesDate) then out[k := o] else out;
      MergeKeys(keys[1..], next, overrides, parsesDate)
  }

  /** One visit changes only the visited key. */
  lemma MergeStep(k: string, rest: seq<string>, out: Record, overrides: Record, parsesDate: DateParser, next: Record, r: Record)
    requires k !in rest
    requires next == (if !IsValid(k, Get(out, k), parsesDate) && IsValid(k, Get(overrides, k), parsesDate) then out[k := Get(overrides, k)] else out)
    requires MergedFrom(rest, next, overrides, parsesDate, r)
    ensures MergedFrom([k] + rest, out, overrides, parsesDate, r)
  {
    var keys := [k] + rest;
    NullNeverValid(k, parsesDate);
    assert forall j :: j in keys <==> j == k || j in rest;
    assert forall j :: j != k ==> Get(next, j) == Get(out, j);
    forall j | j in r
      ensures r[j] == (if j in keys then Pick(j, Get(out, j), Get(overrides, j), parsesDate) else out[j])
    {
      if j != k && j !in rest {
        assert j in next;
      }
    }
    assert r.Keys == out.Keys + (set j | j in keys && IsValid(j, Get(overrides, j), parsesDate));
  }

  lemma {:induction false} MergeKeysSpec(keys: seq<string>, out: Record, overrides: Record, parsesDate: DateParser)
    requires Distinct(keys)
    ensures MergedFrom(keys, out, overrides, parsesDate, MergeKeys(keys, out, overrides, parsesDate))
    decreases |keys|
  {
    if keys == [] {
      assert (set k | k in keys && IsValid(k, Get(overrides, k), parsesDate)) == {};
    } else {
      var k := keys[0];
      var next := if !IsValid(k, Get(out, k), parsesDate) && IsValid(k, Get(overrides, k), parsesDate) then out[k := Get(overrides, k)] else out;
      assert k !in keys[1..] by {
        forall i | 0 <= i < |keys[1..]| ensures keys[1..][i] != k { assert keys[1..][i] == keys[i + 1]; }
      }
      MergeKeysSpec(keys[1..], next, overrides, parsesDate);
      assert keys == [k] + keys[1..];
      MergeStep(k, keys[1..], out, overrides, parsesDate, next, MergeKeys(keys, out, overrides, parsesDate));
    }
  }

  /** Two records that both describe the same visit are equal. */
  lemma MergedFromUnique(keys1: seq<string>, keys2: seq<string>, base: Record, overrides: Record, parsesDate: DateParser, r1: Record, r2: Record)
    requires forall k :: k in keys1 <==> k in keys2
    requires MergedFrom(keys1, base, overrides, parsesDate, r1) && MergedFrom(keys2, base, overrides, parsesDate, r2)
    ensures r1 == r2
  {
    assert (set k | k in keys1 && IsValid(k, Get(overrides, k), parsesDate)) == (set k | k in keys2 && IsValid(k, Get(overrides, k), parsesDate));
  }

  /** `merge(base, overrides)`. */
  function Merge(base: Record, overrides: Record, parsesDate: DateParser): (r: Record)
    ensures MergedFrom(PREF_ORDER, base, overrides, parsesDate, r)
  {
    PrefOrderDistinct();
    MergeKeysSpec(PREF_ORDER, base, overrides, parsesDate);
    MergeKeys(PREF_ORDER, base, overrides, parsesDate)
  }

  lemma PrefOrderDistinct()
    ensures Distinct(PREF_ORDER)
  {
  }

  // ---------------------------------------------------------------------
  // Consequences
  // ---------------------------------------------------------------------

  /** For a preferred key the result holds the override exactly when the base value is invalid
      and the override valid, and otherwise the base value (absent stays absent). */
  lemma MergePreferred(base: Record, overrides: Record, parsesDate: DateParser, k: string)
    requires k in PREF_ORDER
    ensures Get(Merge(base, overrides, parsesDate), k) ==
      if !IsValid(k, Get(base, k), parsesDate) && IsValid(k, Get(overrides, k), parsesDate)
      then Get(overrides, k) else Get(base, k)
  {
    NullNeverValid(k, parsesDate);
  }

  /** A valid base value is never replaced, whatever the overrides hold. */
  lemma MergeKeepsValid(base: Record, overrides: Record, parsesDate: DateParser, k: string)
    requires IsValid(k, Get(base, k), parsesDate)
    ensures k in Merge(base, overrides, parsesDate) && Merge(base, overrides, parsesDate)[k] == Get(base, k)
  {
    NullNeverValid(k, parsesDate);
  }

  /** Keys outside the preferred list keep their base value, and an override key outside the
      list never enters the result. */
  lemma MergeOutsidePreferred(base: Record, overrides: Record, parsesDate: DateParser, k: string)
    requires k !in PREF_ORDER
    ensures k in Merge(base, overrides, parsesDate) <==> k in base
    ensures k in base ==> Merge(base, overrides, parsesDate)[k] == base[k]
  {
  }

  /** The result's keys are the base keys plus the preferred keys missing from the base whose
      override is valid. */
  lemma MergeKeySet(base: Record, overrides: Record, parsesDate: DateParser)
    ensures Merge(base, overrides, parsesDate).Keys ==
      base.Keys + (set k | k in PREF_ORDER && k !in base && IsValid(k, Get(overrides, k), parsesDate))
  {
  }

  /** Merging a record with itself gives the record back. */
  lemma MergeSelf(base: Record, parsesDate: DateParser)
    ensures Merge(base, base, parsesDate) == base
  {
    var r := Merge(base, base, parsesDate);
    forall k | k in PREF_ORDER && IsValid(k, Get(base, k), parsesDate) ensures k in base {
      NullNeverValid(k, parsesDate);
    }
    assert r.Keys == base.Keys;
  }

  /** Visiting the preferred keys in any other order gives the same record. */
  lemma MergeOrderIrrelevant(keys: seq<string>, base: Record, overrides: Record, parsesDate: DateParser)
    requires Distinct(keys) && forall k :: k in keys <==> k in PREF_ORDER
    ensures MergeKeys(keys, base, overrides, parsesDate) == Merge(base, overrides, parsesDate)
  {
    MergeKeysSpec(keys, base, overrides, parsesDate);
    MergedFromUnique(keys, PREF_ORDER, base, overrides, parsesDate,
      MergeKeys(keys, base, overrides, parsesDate), Merge(base, overrides, parsesDate));
  }
}
