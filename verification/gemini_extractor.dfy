/**
 * The control flow of `GeminiExtractor._retry_invoke`: up to `retries`
 * attempts, a sleep after every failed attempt except the last, the decoded
 * JSON of the first successful attempt, and an error once all attempts have
 * failed. What one attempt does (the HTTP request, the status check, digging
 * the candidate text out of the response, the JSON parse) is abstracted into
 * the outcome of attempt `j`, given as a function of `j`.
 */
module GeminiExtractor {
  import opened Results
  import opened Json

  /** How one attempt ends. Every failure is caught by the same `except Exception`. */
  datatype Attempt =
    | Parsed(value: Value)   // `json.loads(candidate)` succeeded
    | Transport              // `requests.post` raised (connection, timeout)
    | HttpStatus(code: int)  // `raise_for_status` rejected the response
    | MissingKey             // the response lacks `candidates[0].content.parts[0]`
    | BadJson                // the response body or the candidate text is not JSON

  /** The result, and how many attempts and sleeps it took. */
  datatype Invocation = Invocation(result: Result<Value>, attempts: nat, sleeps: nat)

  const GIVE_UP: string := "\U{274C} Failed to get valid JSON from Gemini after retries"

  function Max0(n: int): nat {
    if n > 0 then n else 0
  }

  /** Attempt `j` is the first successful one at or after `a`. */
  predicate FirstSuccess(outcome: nat -> Attempt, a: nat, j: nat) {
    a <= j && outcome(j).Parsed? && forall i :: a <= i < j ==> !outcome(i).Parsed?
  }

  /** The loop from attempt `a` on. */
  function InvokeFrom(retries: int, outcome: nat -> Attempt, a: nat): (r: Invocation)
    ensures r.attempts <= Max0(retries - a)
    decreases Max0(retries - a)
  {
    if a >= retries then Invocation(Err(GIVE_UP), 0, 0)
    else match outcome(a)
      case Parsed(v) => Invocation(Ok(v), 1, 0)
      case _ =>
        var rest := InvokeFrom(retries, outcome, a + 1);
        Invocation(rest.result, rest.attempts + 1, rest.sleeps + (if a < retries - 1 then 1 else 0))
  }

  /** From attempt `a` on: a value exactly when some remaining attempt succeeds, namely the
      first successful one, reached after one sleep per failed attempt; otherwise the error,
      after every remaining attempt and a sleep between each two. */
  lemma {:induction false} InvokeFromSpec(retries: int, outcome: nat -> Attempt, a: nat)
    ensures var r := InvokeFrom(retries, outcome, a);
      && (r.result.Ok? <==> exists j :: a <= j < retries && outcome(j).Parsed?)
      && (forall j: nat :: j < retries && FirstSuccess(outcome, a, j) ==>
            r.result == Ok(outcome(j).value) && r.attempts == j - a + 1 && r.sleeps == j - a)
      && (r.result.Err? ==> r.result.reason == GIVE_UP && r.attempts == Max0(retries - a) && r.sleeps == Max0(retries - a - 1))
    decreases Max0(retries - a)
  {
    if a < retries && !outcome(a).Parsed? {
      InvokeFromSpec(retries, outcome, a + 1);
      forall j: nat | j < retries && FirstSuccess(outcome, a, j) ensures FirstSuccess(outcome, a + 1, j) {
        assert j != a;
      }
    }
  }

  /** `_retry_invoke(prompt)`, with attempt `j` ending as `outcome(j)`. */
  function RetryInvoke(retries: int, outcome: nat -> Attempt): (r: Invocation)
    ensures r.attempts <= Max0(retries)
    ensures r.result.Ok? <==> exists j :: 0 <= j < retries && outcome(j).Parsed?
    ensures r.result.Err? ==> r.result.reason == GIVE_UP
  {
    InvokeFromSpec(retries, outcome, 0);
    InvokeFrom(retries, outcome, 0)
  }

  /** The first successful attempt's value is returned after exactly that many sleeps. */
  lemma RetryInvokeFirstSuccess(retries: int, outcome: nat -> Attempt, j: nat)
    requires j < retries && outcome(j).Parsed?
    requires forall i :: 0 <= i < j ==> !outcome(i).Parsed?
    ensures RetryInvoke(retries, outcome) == Invocation(Ok(outcome(j).value), j + 1, j)
  {
    InvokeFromSpec(retries, outcome, 0);
    assert FirstSuccess(outcome, 0, j);
  }

  /** When no attempt succeeds, or there are no attempts at all, the call raises after
      `retries` attempts and `retries - 1` sleeps. */
  lemma RetryInvokeAllFail(retries: int, outcome: nat -> Attempt)
    requires forall j :: 0 <= j < retries ==> !outcome(j).Parsed?
    ensures RetryInvoke(retries, outcome) == Invocation(Err(GIVE_UP), Max0(retries), Max0(retries - 1))
  {
    InvokeFromSpec(retries, outcome, 0);
  }

  /** The loop as written: counting attempts and sleeps as it goes. */
  method RetryInvokeLoop(retries: int, outcome: nat -> Attempt) returns (result: Result<Value>, attempts: nat, sleeps: nat)
    ensures Invocation(result, attempts, sleeps) == RetryInvoke(retries, outcome)
  {
    var attempt: nat := 0;
    attempts, sleeps := 0, 0;
    while attempt < retries
      invariant retries > 0 ==> attempt <= retries
      invariant attempt < retries ==> sleeps == attempt
      invariant var rest := InvokeFrom(retries, outcome, attempt);
        RetryInvoke(retries, outcome) == Invocation(rest.result, rest.attempts + attempts, rest.sleeps + sleeps)
      decreases retries - attempt
    {
      match outcome(attempt)
      case Parsed(v) =>
        return Ok(v), attempts + 1, sleeps;
      case _ =>
        attempts := attempts + 1;
        if attempt < retries - 1 {
          sleeps := sleeps + 1;
        }
        attempt := attempt + 1;
    }
    result := Err(GIVE_UP);
  }
}
