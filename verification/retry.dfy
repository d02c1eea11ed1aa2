/**
  The bounded retry loop that fetches one page image (handle_chapters_results,
  the inner `while retry_count < max_retries and not success`). What the network
  does on each attempt is an input: `outcomes[k]` is how the k-th request would
  end. The sleeps between attempts and the request timeout are left out.
 */
module Retry {

  /** How one attempt ends. */
  datatype Attempt =
    | Response(status: int)  // the server answered with this HTTP status
    | Timeout                // requests.exceptions.Timeout
    | ConnectionError        // requests.exceptions.ConnectionError
    | OtherError             // any other exception, e.g. a failed file write

  /** `max_retries`. */
  const MaxRetries: nat := 5

  /** Only status 200 saves the image and counts as a success. */
  predicate IsSuccess(a: Attempt) {
    a.Response? && a.status == 200
  }

  /** `contents[word_index]` succeeds iff -len <= word_index < len: Python counts negative indices from the end. */
  predicate IndexInRange(wordIndex: int, contentsLen: nat) {
    -(contentsLen as int) <= wordIndex < contentsLen
  }

  /**
    What an attempt actually yields: with an index out of range the IndexError
    is raised before any request is sent and lands in the generic handler.
   */
  function Observed(wordIndex: int, contentsLen: nat, outcome: Attempt): (a: Attempt)
    ensures IsSuccess(a) <==> IndexInRange(wordIndex, contentsLen) && IsSuccess(outcome)
  {
    if IndexInRange(wordIndex, contentsLen) then outcome else OtherError
  }

  /** Reference: a page is saved iff its index is in range and one of the first MaxRetries requests answers 200. */
  predicate PageSucceeds(wordIndex: int, contentsLen: nat, outcomes: seq<Attempt>)
    requires |outcomes| >= MaxRetries
  {
    IndexInRange(wordIndex, contentsLen) && exists k :: 0 <= k < MaxRetries && IsSuccess(outcomes[k])
  }

  /**
    One page: attempt until the first 200 or until MaxRetries attempts failed.
    The four failure branches of the source (non-200 status, timeout, connection
    error, any other exception) differ only in the message and the delay, so
    they share one branch here. `marks` is what the page adds to `failed_pages`:
    once when the last retry fails and once more after the loop.
   */
  method FetchPage(pageNum: int, wordIndex: int, contentsLen: nat, outcomes: seq<Attempt>)
    returns (success: bool, retries: nat, marks: seq<int>)
    requires |outcomes| >= MaxRetries
    ensures retries <= MaxRetries
    ensures success <==> PageSucceeds(wordIndex, contentsLen, outcomes)
    ensures success ==> retries < MaxRetries && IsSuccess(outcomes[retries])
    ensures success ==> forall k :: 0 <= k < retries ==> !IsSuccess(outcomes[k])
    ensures !success ==> retries == MaxRetries
    ensures !IndexInRange(wordIndex, contentsLen) ==> !success && retries == MaxRetries
    ensures marks == if success then [] else [pageNum, pageNum]
  {
    retries := 0;
    success := false;
    marks := [];
    while retries < MaxRetries && !success
      invariant retries <= MaxRetries
      invariant forall k :: 0 <= k < retries ==> !IsSuccess(Observed(wordIndex, contentsLen, outcomes[k]))
      invariant success ==> retries < MaxRetries && IsSuccess(Observed(wordIndex, contentsLen, outcomes[retries]))
      invariant marks == if !success && retries == MaxRetries then [pageNum] else []
      decreases MaxRetries - retries, !success
    {
      var outcome := Observed(wordIndex, contentsLen, outcomes[retries]);
      if IsSuccess(outcome) {
        success := true;
      } else {
        retries := retries + 1;
        if retries >= MaxRetries {
          marks := marks + [pageNum];
        }
      }
    }
    if !success {
      marks := marks + [pageNum];
    }
  }
}
