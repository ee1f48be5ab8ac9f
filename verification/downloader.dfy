/** The retrying downloader of flips/flips/Downloader.swift. The network and
    the file system are replaced by a sequence of attempt outcomes supplied
    from outside; the model records the observable steps in order. */
module Downloader {
  import opened Optionals
  import opened SeqUtil

  /** The default of `downloadTask`'s `numberOfRetries`. */
  const DEFAULT_NUMBER_OF_RETRIES: int := 3

  /** How one network operation ends: success, or failure with or without
      an error object (`latestError` is nil in the latter case). */
  datatype Outcome = Succeeded | Failed(hasError: bool)

  /** The observable steps of a download, in order. */
  datatype Event =
    | Attempt(progressHook: bool)   // an operation is started; the flag says whether a progress block is installed
    | DeletePartial                 // the partial temporary file is removed after a failed attempt
    | MoveToDestination(ok: bool)   // the temporary file is moved to the destination, successfully or not
    | Completion(success: bool)     // the caller's `completion` is invoked

  /** The steps of the retry loop and which of its two callbacks ran:
      `Some(true)` for `success`, `Some(false)` for `failure`, `None` while an
      attempt is still in flight (`outcomes` ran out). */
  datatype RetryRun = RetryRun(events: seq<Event>, result: Option<bool>)

  predicate IsAttempt(e: Event) { e.Attempt? }
  predicate IsDelete(e: Event) { e.DeletePartial? }
  predicate IsCompletion(e: Event) { e.Completion? }

  function Attempts(events: seq<Event>): nat {
    CountIf(events, IsAttempt)
  }

  function Deletes(events: seq<Event>): nat {
    CountIf(events, IsDelete)
  }

  /** Attempt `i` (counting from zero) ends with `outcomes[i]`. */
  predicate FailedBefore(outcomes: seq<Outcome>, n: nat) {
    n <= |outcomes| && forall i :: 0 <= i < n ==> outcomes[i].Failed?
  }

  /** How many attempts the loop makes when every failure carries an error:
      `numberOfRetries` after a failure, and at least one on the first call. */
  function ErrorBudget(numberOfRetries: int, latestError: bool): nat {
    if numberOfRetries > 0 then numberOfRetries
    else if latestError then 0
    else 1
  }

  /** `downloadTaskRetryingNumberOfTimes`. The attempt count never exceeds
      `numberOfRetries + 1`; called after a failure with no retries left it
      makes none; a success
      ends the loop at the first successful attempt; `failure` runs only
      when every attempt made has failed; the partial file is deleted once
      per failed attempt; every attempt has a progress block exactly when a
      progress callback was supplied. */
  function Retrying(numberOfRetries: int, latestError: bool, hasProgress: bool, outcomes: seq<Outcome>): (r: RetryRun)
    ensures Attempts(r.events) <= (if numberOfRetries > 0 then numberOfRetries else 0) + 1
    ensures latestError && numberOfRetries <= 0 ==> r == RetryRun([], Some(false))
    ensures r.result == Some(true) ==>
      var n := Attempts(r.events);
      n >= 1 && FailedBefore(outcomes, n - 1) && n - 1 < |outcomes| && outcomes[n - 1] == Succeeded
    ensures r.result == Some(false) ==> FailedBefore(outcomes, Attempts(r.events))
    ensures r.result == None ==> FailedBefore(outcomes, |outcomes|) && Attempts(r.events) == |outcomes| + 1
    ensures Deletes(r.events) == Attempts(r.events) - (if r.result == Some(false) then 0 else 1)
    ensures forall i :: 0 <= i < |r.events| && r.events[i].Attempt? ==> r.events[i].progressHook == hasProgress
    ensures forall i :: 0 <= i < |r.events| ==> r.events[i].Attempt? || r.events[i].DeletePartial?
    decreases |outcomes|
  {
    if latestError && numberOfRetries <= 0 then RetryRun([], Some(false))
    else
      HeadCounts(hasProgress);
      if |outcomes| == 0 then RetryRun([Attempt(hasProgress)], None)
      else
        match outcomes[0]
        case Succeeded => RetryRun([Attempt(hasProgress)], Some(true))
        case Failed(error) =>
          var head := [Attempt(hasProgress), DeletePartial];
          if numberOfRetries > 0 then
            var rest := Retrying(numberOfRetries - 1, error, hasProgress, outcomes[1..]);
            RetryStep(outcomes, hasProgress, rest);
            RetryRun(head + rest.events, rest.result)
          else
            RetryRun(head, Some(false))
  }

  /** The counts of the one- and two-step runs of a single attempt. */
  lemma HeadCounts(hasProgress: bool)
    ensures Attempts([Attempt(hasProgress)]) == 1 && Deletes([Attempt(hasProgress)]) == 0
    ensures Attempts([Attempt(hasProgress), DeletePartial]) == 1 && Deletes([Attempt(hasProgress), DeletePartial]) == 1
  {
    CountIfConcat([Attempt(hasProgress)], [DeletePartial], IsAttempt);
    CountIfConcat([Attempt(hasProgress)], [DeletePartial], IsDelete);
  }

  /** A failed first attempt in front of the rest of the loop keeps the
      loop's contract. */
  lemma RetryStep(outcomes: seq<Outcome>, hasProgress: bool, rest: RetryRun)
    requires |outcomes| > 0 && outcomes[0].Failed?
    requires rest.result == Some(true) ==>
      var n := Attempts(rest.events);
      n >= 1 && FailedBefore(outcomes[1..], n - 1) && n - 1 < |outcomes[1..]| && outcomes[1..][n - 1] == Succeeded
    requires rest.result == Some(false) ==> FailedBefore(outcomes[1..], Attempts(rest.events))
    requires rest.result == None ==> FailedBefore(outcomes[1..], |outcomes[1..]|) && Attempts(rest.events) == |outcomes[1..]| + 1
    requires Deletes(rest.events) == Attempts(rest.events) - (if rest.result == Some(false) then 0 else 1)
    requires forall i :: 0 <= i < |rest.events| && rest.events[i].Attempt? ==> rest.events[i].progressHook == hasProgress
    requires forall i :: 0 <= i < |rest.events| ==> rest.events[i].Attempt? || rest.events[i].DeletePartial?
    ensures var events := [Attempt(hasProgress), DeletePartial] + rest.events;
      && Attempts(events) == Attempts(rest.events) + 1
      && (rest.result == Some(true) ==>
            var n := Attempts(events);
            n >= 1 && FailedBefore(outcomes, n - 1) && n - 1 < |outcomes| && outcomes[n - 1] == Succeeded)
      && (rest.result == Some(false) ==> FailedBefore(outcomes, Attempts(events)))
      && (rest.result == None ==> FailedBefore(outcomes, |outcomes|) && Attempts(events) == |outcomes| + 1)
      && Deletes(events) == Attempts(events) - (if rest.result == Some(false) then 0 else 1)
      && (forall i :: 0 <= i < |events| && events[i].Attempt? ==> events[i].progressHook == hasProgress)
      && (forall i :: 0 <= i < |events| ==> events[i].Attempt? || events[i].DeletePartial?)
  {
    var head := [Attempt(hasProgress), DeletePartial];
    var events := head + rest.events;
    CountIfConcat(head, rest.events, IsAttempt);
    CountIfConcat(head, rest.events, IsDelete);
    ShiftFailedBefore(outcomes, Attempts(rest.events));
    if Attempts(rest.events) >= 1 { ShiftFailedBefore(outcomes, Attempts(rest.events) - 1); }
    ShiftFailedBefore(outcomes, |outcomes[1..]|);
    assert forall i :: 2 <= i < |events| ==> events[i] == rest.events[i - 2];
  }

  lemma ShiftFailedBefore(outcomes: seq<Outcome>, n: nat)
    requires |outcomes| > 0 && outcomes[0].Failed?
    ensures FailedBefore(outcomes[1..], n) ==> FailedBefore(outcomes, n + 1)
    ensures n < |outcomes[1..]| ==> outcomes[1..][n] == outcomes[n + 1]
  {
    if FailedBefore(outcomes[1..], n) {
      forall i | 0 <= i < n + 1 ensures outcomes[i].Failed? {
        if i > 0 { assert outcomes[i] == outcomes[1..][i - 1]; }
      }
    }
  }

  /** The steps of `downloadTask`, and the one completion it reports. */
  datatype DownloadRun = DownloadRun(events: seq<Event>, completion: Option<bool>)

  /** `downloadTask`: runs the retry loop into a temporary file; on success
      moves the file to its destination (the move may fail) and then reports
      `completion(true)`; on failure reports `completion(false)`. */
  function DownloadTask(outcomes: seq<Outcome>, moveSucceeds: bool, hasProgress: bool,
                        numberOfRetries: int := DEFAULT_NUMBER_OF_RETRIES): (r: DownloadRun)
    ensures r.completion == Retrying(numberOfRetries, false, hasProgress, outcomes).result
    ensures CountIf(r.events, IsCompletion) == (if r.completion.Some? then 1 else 0)
    ensures r.completion.Some? ==> r.events[|r.events| - 1] == Completion(r.completion.value)
    ensures Attempts(r.events) <= (if numberOfRetries > 0 then numberOfRetries else 0) + 1
  {
    var retry := Retrying(numberOfRetries, false, hasProgress, outcomes);
    var tail := match retry.result
      case Some(true) => [MoveToDestination(moveSucceeds), Completion(true)]
      case Some(false) => [Completion(false)]
      case None => [];
    CountIfConcat(retry.events, tail, IsCompletion);
    CountIfConcat(retry.events, tail, IsAttempt);
    NoCompletionInRetry(retry.events);
    DownloadRun(retry.events + tail, retry.result)
  }

  lemma {:induction false} NoCompletionInRetry(events: seq<Event>)
    requires forall i :: 0 <= i < |events| ==> events[i].Attempt? || events[i].DeletePartial?
    ensures CountIf(events, IsCompletion) == 0
  {
    if |events| > 0 {
      NoCompletionInRetry(events[1..]);
    }
  }

  /** With every failure carrying an error, the loop makes exactly
      `max(numberOfRetries, 1)` attempts before giving up: the call made
      with `numberOfRetries - 1 == 0` fails without a new attempt, so the
      default of 3 means three attempts in all. */
  lemma {:induction false} AllFailuresExact(numberOfRetries: int, hasProgress: bool, outcomes: seq<Outcome>)
    requires var m := if numberOfRetries > 1 then numberOfRetries else 1;
      |outcomes| >= m && forall i :: 0 <= i < m ==> outcomes[i] == Failed(true)
    ensures var r := Retrying(numberOfRetries, false, hasProgress, outcomes);
      && r.result == Some(false)
      && Attempts(r.events) == (if numberOfRetries > 1 then numberOfRetries else 1)
  {
    if numberOfRetries > 1 {
      AfterErrorExact(numberOfRetries - 1, hasProgress, outcomes[1..]);
      var rest := Retrying(numberOfRetries - 1, true, hasProgress, outcomes[1..]);
      CountIfConcat([Attempt(hasProgress), DeletePartial], rest.events, IsAttempt);
    }
  }

  /** The recursive half: after an error, `n` more retries mean `n` more
      attempts when each of them fails with an error. */
  lemma {:induction false} AfterErrorExact(n: int, hasProgress: bool, outcomes: seq<Outcome>)
    requires n >= 0 && |outcomes| >= n && forall i :: 0 <= i < n ==> outcomes[i] == Failed(true)
    ensures var r := Retrying(n, true, hasProgress, outcomes);
      r.result == Some(false) && Attempts(r.events) == n
  {
    if n > 0 {
      assert outcomes[0] == Failed(true);
      forall i | 0 <= i < n - 1 ensures outcomes[1..][i] == Failed(true) {
        assert outcomes[1..][i] == outcomes[i + 1];
      }
      AfterErrorExact(n - 1, hasProgress, outcomes[1..]);
      var rest := Retrying(n - 1, true, hasProgress, outcomes[1..]);
      var head := [Attempt(hasProgress), DeletePartial];
      assert Retrying(n, true, hasProgress, outcomes) == RetryRun(head + rest.events, rest.result);
      CountIfConcat(head, rest.events, IsAttempt);
      HeadCounts(hasProgress);
    }
  }

  /** The first successful attempt ends the loop with `success`, provided it
      comes within the attempts the retry budget allows. */
  lemma {:induction false} FirstSuccessWins(numberOfRetries: int, latestError: bool, hasProgress: bool,
                                            outcomes: seq<Outcome>, k: nat)
    requires k < |outcomes| && outcomes[k] == Succeeded
    requires forall i :: 0 <= i < k ==> outcomes[i] == Failed(true)
    requires k < ErrorBudget(numberOfRetries, latestError)
    ensures var r := Retrying(numberOfRetries, latestError, hasProgress, outcomes);
      r.result == Some(true) && Attempts(r.events) == k + 1
  {
    if k > 0 {
      assert outcomes[0] == Failed(true);
      FirstSuccessWins(numberOfRetries - 1, true, hasProgress, outcomes[1..], k - 1);
      var rest := Retrying(numberOfRetries - 1, true, hasProgress, outcomes[1..]);
      CountIfConcat([Attempt(hasProgress), DeletePartial], rest.events, IsAttempt);
    }
  }

  /** `completion(true)` is reported whether or not moving the temporary
      file into place succeeded. */
  lemma CompletionIgnoresMove(outcomes: seq<Outcome>, hasProgress: bool, numberOfRetries: int)
    ensures DownloadTask(outcomes, true, hasProgress, numberOfRetries).completion
         == DownloadTask(outcomes, false, hasProgress, numberOfRetries).completion
    ensures var r := DownloadTask(outcomes, false, hasProgress, numberOfRetries);
      r.completion == Some(true) ==> |r.events| >= 2 && r.events[|r.events| - 2] == MoveToDestination(false)
  {
  }
}
