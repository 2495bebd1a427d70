/** The front end's journal service: six request functions over one HTTP
    client with a 15-second timeout, of which only the journal listing is
    wrapped in the retry combinator. The transport is an oracle: `outcome(k)`
    is what the `k`-th call of the request function (counting from 0)
    produces, a response or an error; a request that outlives the timeout is
    an error with code `ECONNABORTED`. */
module JournalService {
  import opened Common

  const TimeoutMs := 15000
  const DefaultRetries := 3
  const Aborted := "ECONNABORTED"

  /** An error as the client raises it: its `code`, if any, and the
      `message` field of the server's response body, if any. */
  datatype Failure = Failure(code: Option<string>, serverMessage: Option<string>)

  datatype Attempt<T> = Success(value: T) | Error(failure: Failure)

  /** The error that `withRetry` retries on. */
  predicate IsTimeout<T>(a: Attempt<T>) {
    a.Error? && a.failure.code == Some(Aborted)
  }

  /** What a run of `withRetry` ends with, and how many calls it made in all. */
  datatype RetryRun<T> = RetryRun(result: Attempt<T>, calls: nat)

  /** `withRetry(fn, retries)` entered after `made` earlier calls: call once;
      return a success as it is; retry a timeout while `retries > 0`, with
      one retry fewer; rethrow any other error at once. */
  function RetryFrom<T>(outcome: nat -> Attempt<T>, retries: nat, made: nat): (r: RetryRun<T>)
    ensures made + 1 <= r.calls <= made + retries + 1
    ensures r.result == outcome(r.calls - 1)
    ensures forall j :: made <= j < r.calls - 1 ==> IsTimeout(outcome(j))
    ensures r.calls < made + retries + 1 ==> !IsTimeout(r.result)
    decreases retries
  {
    match outcome(made)
    case Success(v) => RetryRun(Success(v), made + 1)
    case Error(f) =>
      if retries > 0 && f.code == Some(Aborted) then RetryFrom(outcome, retries - 1, made + 1)
      else RetryRun(Error(f), made + 1)
  }

  function WithRetry<T>(outcome: nat -> Attempt<T>, retries: nat): (r: RetryRun<T>)
    ensures 1 <= r.calls <= retries + 1
    ensures r.result == outcome(r.calls - 1)
    ensures forall j :: 0 <= j < r.calls - 1 ==> IsTimeout(outcome(j))
    ensures r.calls < retries + 1 ==> !IsTimeout(r.result)
  {
    RetryFrom(outcome, retries, 0)
  }

  /** The first call's success is returned unchanged, after one call. */
  lemma FirstSuccessReturned<T>(outcome: nat -> Attempt<T>, retries: nat)
    requires outcome(0).Success?
    ensures WithRetry(outcome, retries) == RetryRun(outcome(0), 1)
  {
  }

  /** An error other than a timeout is rethrown after the one call. */
  lemma OtherErrorRethrown<T>(outcome: nat -> Attempt<T>, retries: nat)
    requires outcome(0).Error? && !IsTimeout(outcome(0))
    ensures WithRetry(outcome, retries) == RetryRun(outcome(0), 1)
  {
  }

  /** When the first `retries + 1` calls all time out, the last timeout is
      thrown after exactly `retries + 1` calls. */
  lemma {:induction false} AllTimeoutsExhaust<T>(outcome: nat -> Attempt<T>, retries: nat, made: nat)
    requires forall j :: made <= j <= made + retries ==> IsTimeout(outcome(j))
    ensures RetryFrom(outcome, retries, made) == RetryRun(outcome(made + retries), made + retries + 1)
    decreases retries
  {
    assert IsTimeout(outcome(made));
    if retries > 0 {
      AllTimeoutsExhaust(outcome, retries - 1, made + 1);
    }
  }

  /** The outcome `withRetry` returns is the first call's outcome that is not
      a timeout, among the first `retries + 1` calls; when there is none, it is
      the last of them. */
  lemma {:induction false} RetryStopsAtFirstNonTimeout<T>(outcome: nat -> Attempt<T>, retries: nat, made: nat, k: nat)
    requires made <= k <= made + retries
    requires forall j :: made <= j < k ==> IsTimeout(outcome(j))
    requires !IsTimeout(outcome(k)) || k == made + retries
    ensures RetryFrom(outcome, retries, made) == RetryRun(outcome(k), k + 1)
    decreases retries
  {
    if k > made {
      assert IsTimeout(outcome(made));
      RetryStopsAtFirstNonTimeout(outcome, retries - 1, made + 1, k);
    }
  }

  /** With the default of three retries the request is made at most four times. */
  lemma DefaultAtMostFourCalls<T>(outcome: nat -> Attempt<T>)
    ensures WithRetry(outcome, DefaultRetries).calls <= 4
  {
  }

  // ---------------------------------------------------------------------------
  // The exported request functions

  datatype Request = GetJournals | CreateJournal | GenerateJournal | GenerateFromChat | UpdateJournal | DeleteJournal

  /** Each function's message for an error without a server message. */
  function FallbackMessage(req: Request): string {
    match req
    case GetJournals => "Failed to fetch journals"
    case CreateJournal => "Failed to create journal"
    case GenerateJournal => "Failed to generate journal"
    case GenerateFromChat => "Failed to generate journal from chat"
    case UpdateJournal => "Failed to update journal"
    case DeleteJournal => "Failed to delete journal"
  }

  /** Only the listing goes through `withRetry`; a direct call behaves as a
      run with no retries. */
  function RetriesOf(req: Request): (n: nat)
    ensures n > 0 <==> req == GetJournals
  {
    if req == GetJournals then DefaultRetries else 0
  }

  /** `error.response?.data?.message || fallback`: the empty message is falsy. */
  function ErrorMessage(f: Failure, req: Request): (msg: string)
    ensures f.serverMessage.Some? && f.serverMessage.value != "" ==> msg == f.serverMessage.value
    ensures f.serverMessage.None? || f.serverMessage.value == "" ==> msg == FallbackMessage(req)
  {
    match f.serverMessage
    case Some(m) => if m != "" then m else FallbackMessage(req)
    case None => FallbackMessage(req)
  }

  /** What the caller sees: the value the promise resolves to (the response
      data, or `undefined` for `deleteJournal`, which returns nothing), or a
      thrown `Error` with a message. */
  datatype ServiceResult<T> = Returned(value: Option<T>) | Thrown(message: string)

  /** What a successful call resolves to: `deleteJournal` only awaits the
      request, every other function returns `response.data`. */
  function Resolved<T>(req: Request, data: T): (v: Option<T>)
    ensures v.None? <==> req == DeleteJournal
    ensures v.Some? ==> v.value == data
  {
    if req == DeleteJournal then None else Some(data)
  }

  datatype ServiceRun<T> = ServiceRun(result: ServiceResult<T>, requests: nat)

  /** One call of an exported function, with the number of requests it issued. */
  function CallService<T>(req: Request, outcome: nat -> Attempt<T>): (r: ServiceRun<T>)
    ensures req != GetJournals ==> r.requests == 1
    ensures req == GetJournals ==> 1 <= r.requests <= DefaultRetries + 1
    ensures outcome(r.requests - 1).Success? ==>
      r.result.Returned? && (r.result.value.None? <==> req == DeleteJournal)
      && (req != DeleteJournal ==> r.result.value == Some(outcome(r.requests - 1).value))
    ensures outcome(r.requests - 1).Error? ==>
      r.result == Thrown(ErrorMessage(outcome(r.requests - 1).failure, req))
  {
    var run := WithRetry(outcome, RetriesOf(req));
    match run.result
    case Success(v) => ServiceRun(Returned(Resolved(req, v)), run.calls)
    case Error(f) => ServiceRun(Thrown(ErrorMessage(f, req)), run.calls)
  }

  /** Every function other than the listing reports a timeout at once. */
  lemma TimeoutsOnlyRetriedByListing<T>(req: Request, outcome: nat -> Attempt<T>)
    requires IsTimeout(outcome(0))
    ensures req != GetJournals ==> CallService(req, outcome) == ServiceRun(Thrown(ErrorMessage(outcome(0).failure, req)), 1)
    ensures req == GetJournals ==> CallService(req, outcome).requests > 1
  {
  }
}
