/** The Notion sync queue of the sync route: how a failed item is rescheduled (the retry
    count, pending or failed, and the back-off before the next attempt), which items a run
    picks up, the counters of a run, and the status counts the route reports. Times are
    minutes on one clock, passed in as `now`. */
module SyncQueue {
  import opened Wrappers
  import opened Text

  datatype Status = Pending | Processing | Completed | Failed

  /** A row of `notion_sync_queue`, with the fields the queue logic reads and writes. */
  datatype QueueItem = QueueItem(
    id: String,
    status: Status,
    retryCount: nat,
    maxRetries: nat,
    errorMessage: Option<String>,
    lastRetryAt: Option<int>,
    nextRetryAt: Option<int>,
    processedAt: Option<int>)

  function Pow2(k: nat): (r: nat)
    ensures r >= 1
  {
    if k == 0 then 1 else 2 * Pow2(k - 1)
  }

  lemma {:induction false} Pow2Monotone(j: nat, k: nat)
    requires j <= k
    ensures Pow2(j) <= Pow2(k)
    decreases k
  {
    if j < k {
      Pow2Monotone(j, k - 1);
    }
  }

  // ---------------------------------------------------------------------------
  // Back-off
  // ---------------------------------------------------------------------------

  /** Seven days, the longest back-off. */
  const MaxBackoff: nat := 7 * 24 * 60

  /** `backoffMinutes` for the `n`-th failure: 5, 15, 45, 120 and 360 minutes for the
      first five, then a day doubled per further failure, capped at seven days. */
  function Backoff(n: nat): (r: nat)
    requires n >= 1
    ensures 5 <= r <= MaxBackoff
  {
    if n <= 5 then [5, 15, 45, 120, 360][n - 1]
    else Min(24 * 60 * Pow2(n - 6), MaxBackoff)
  }

  /** A later failure never waits less than an earlier one. */
  lemma BackoffMonotone(n: nat, m: nat)
    requires 1 <= n <= m
    ensures Backoff(n) <= Backoff(m)
  {
    if n > 5 {
      Pow2Monotone(n - 6, m - 6);
    }
  }

  /** From the ninth failure on, the back-off is the seven-day cap. */
  lemma BackoffCapped(n: nat)
    requires n >= 9
    ensures Backoff(n) == MaxBackoff
  {
    Pow2Monotone(3, n - 6);
  }

  // ---------------------------------------------------------------------------
  // Processing one item
  // ---------------------------------------------------------------------------

  /** `error.message || 'Unknown error'`. */
  function ErrorText(message: String): String {
    if message == [] then "Unknown error" else message
  }

  /** The row after a successful attempt. */
  function AfterSuccess(item: QueueItem, now: int): QueueItem {
    item.(status := Completed, processedAt := Some(now))
  }

  /** The row after a failed attempt: one more retry, pending while retries remain,
      otherwise failed with a next retry time after the back-off. */
  function AfterFailure(item: QueueItem, message: String, now: int): QueueItem {
    var newRetryCount := item.retryCount + 1;
    var shouldRetry := newRetryCount < item.maxRetries;
    item.(status := if shouldRetry then Pending else Failed,
          retryCount := newRetryCount,
          errorMessage := Some(ErrorText(message)),
          lastRetryAt := Some(now),
          nextRetryAt := if shouldRetry then None else Some(now + Backoff(newRetryCount)),
          processedAt := Some(now))
  }

  /** A failure counts one retry; the item stays pending exactly while the new count is
      below its maximum; only a failed item gets a next retry time, five minutes to seven
      days ahead; the id and the maximum are kept. */
  lemma AfterFailureMeaning(item: QueueItem, message: String, now: int)
    ensures var r := AfterFailure(item, message, now);
      && r.retryCount == item.retryCount + 1
      && (r.status == Pending <==> item.retryCount + 1 < item.maxRetries)
      && (r.status == Failed <==> item.retryCount + 1 >= item.maxRetries)
      && (r.nextRetryAt.Some? <==> r.status == Failed)
      && (r.nextRetryAt.Some? ==> now + 5 <= r.nextRetryAt.value <= now + MaxBackoff)
      && r.errorMessage.Some? && r.errorMessage.value != []
      && r.id == item.id && r.maxRetries == item.maxRetries
  {
  }

  /** The result of one attempt: `None` for success, or the message of the error. */
  function Outcome(item: QueueItem, error: Option<String>, now: int): QueueItem {
    if error.None? then AfterSuccess(item, now) else AfterFailure(item, error.value, now)
  }

  // ---------------------------------------------------------------------------
  // Picking up items
  // ---------------------------------------------------------------------------

  /** The filter of the queue read: pending items with fewer than 5 retries, and failed
      items with fewer than 20 retries whose next retry time is unset or has come. */
  predicate Selectable(item: QueueItem, now: int) {
    || (item.status == Pending && item.retryCount < 5)
    || (item.status == Failed && item.retryCount < 20
        && (item.nextRetryAt.None? || item.nextRetryAt.value <= now))
  }

  /** The selectable items of `queue`, in order. */
  function SelectableItems(queue: seq<QueueItem>, now: int): (r: seq<QueueItem>)
    ensures |r| <= |queue|
    ensures forall x :: x in r <==> x in queue && Selectable(x, now)
    decreases |queue|
  {
    if queue == [] then []
    else (if Selectable(queue[0], now) then [queue[0]] else []) + SelectableItems(queue[1..], now)
  }

  /** The items a run picks up: the first ten selectable ones, `queue` being in order of
      creation. */
  function Selected(queue: seq<QueueItem>, now: int): (r: seq<QueueItem>)
    ensures |r| == Min(10, |SelectableItems(queue, now)|)
    ensures r == SelectableItems(queue, now)[..|r|]
    ensures forall x :: x in r ==> x in queue && Selectable(x, now)
  {
    var s := SelectableItems(queue, now);
    if |s| <= 10 then s else s[..10]
  }

  /** The selectable items keep the queue's order: those of two stretches of the queue
      are those of the first followed by those of the second. */
  lemma {:induction false} SelectableItemsAppend(a: seq<QueueItem>, b: seq<QueueItem>, now: int)
    ensures SelectableItems(a + b, now) == SelectableItems(a, now) + SelectableItems(b, now)
    decreases |a|
  {
    if a == [] {
      assert a + b == b;
    } else {
      assert (a + b)[1..] == a[1..] + b;
      SelectableItemsAppend(a[1..], b, now);
    }
  }

  /** An item that failed for good waits out its back-off: it is not picked up before
      the next retry time and is picked up from then on while it has fewer than 20
      retries. An item left pending is picked up at once while it has fewer than 5. */
  lemma RescheduledSelection(item: QueueItem, message: String, now: int, later: int)
    ensures var r := AfterFailure(item, message, now);
      && (r.status == Failed && later < now + Backoff(r.retryCount) ==> !Selectable(r, later))
      && (r.status == Failed && r.retryCount < 20 && later >= now + Backoff(r.retryCount) ==> Selectable(r, later))
      && (r.status == Pending ==> (Selectable(r, later) <==> r.retryCount < 5))
  {
  }

  // ---------------------------------------------------------------------------
  // A run
  // ---------------------------------------------------------------------------

  /** How many attempts succeeded. */
  function Successes(errors: seq<Option<String>>): (n: nat)
    ensures n <= |errors|
    decreases |errors|
  {
    if errors == [] then 0 else (if errors[0].None? then 1 else 0) + Successes(errors[1..])
  }

  lemma SuccessesAppend(a: seq<Option<String>>, b: seq<Option<String>>)
    ensures Successes(a + b) == Successes(a) + Successes(b)
    decreases |a|
  {
    if a == [] {
      assert a + b == b;
    } else {
      SuccessesAppend(a[1..], b);
      assert (a + b)[1..] == a[1..] + b;
    }
  }

  /** The rows of the picked-up items after the run: each is marked processing and then
      updated by the outcome of its attempt. */
  function RunResult(items: seq<QueueItem>, errors: seq<Option<String>>, now: int): (r: seq<QueueItem>)
    requires |errors| == |items|
    ensures |r| == |items|
  {
    seq(|items|, i requires 0 <= i < |items| => Outcome(items[i].(status := Processing), errors[i], now))
  }

  /** Each picked-up item comes out under its own id, completed exactly when its attempt
      raised nothing, and never left processing. */
  lemma RunResultMeaning(items: seq<QueueItem>, errors: seq<Option<String>>, now: int)
    requires |errors| == |items|
    ensures var r := RunResult(items, errors, now);
      forall i :: 0 <= i < |r| ==>
        && r[i].id == items[i].id
        && (r[i].status == Completed <==> errors[i].None?)
        && r[i].status != Processing
  {
  }

  /** The loop of the route over the picked-up items: `errors[i]` is what the attempt on
      item `i` raised, if anything. */
  method ProcessItems(items: seq<QueueItem>, errors: seq<Option<String>>, now: int)
    returns (processed: nat, failed: nat, rows: seq<QueueItem>)
    requires |errors| == |items|
    ensures processed == Successes(errors)
    ensures processed + failed == |items|
    ensures rows == RunResult(items, errors, now)
  {
    processed := 0;
    failed := 0;
    rows := [];
    for i := 0 to |items|
      invariant processed == Successes(errors[..i])
      invariant processed + failed == i
      invariant rows == RunResult(items[..i], errors[..i], now)
    {
      SuccessesAppend(errors[..i], [errors[i]]);
      assert errors[..i + 1] == errors[..i] + [errors[i]];
      var item := items[i].(status := Processing);
      var result := Outcome(item, errors[i], now);
      if errors[i].None? {
        processed := processed + 1;
      } else {
        failed := failed + 1;
      }
      rows := rows + [result];
    }
    assert items[..|items|] == items && errors[..|errors|] == errors;
  }

  /** The answers of `POST /api/notion/sync`. */
  datatype PostResponse =
    | Unauthorized
    | NotConfigured
    | NothingPending
    | Ran(processed: nat, failed: nat, total: nat, rows: seq<QueueItem>)

  /** The route: `errors` holds the outcome of the attempt on each picked-up item. */
  function SyncPost(signedIn: bool, configured: bool, queue: seq<QueueItem>, errors: seq<Option<String>>, now: int)
    : PostResponse
    requires |errors| == |Selected(queue, now)|
  {
    if !signedIn then Unauthorized
    else if !configured then NotConfigured
    else
      var items := Selected(queue, now);
      if items == [] then NothingPending
      else Ran(Successes(errors), |items| - Successes(errors), |items|, RunResult(items, errors, now))
  }

  /** A run handles at most ten items, each once: the processed and failed counts add up
      to the items picked up, and each item comes out completed, pending or failed. */
  lemma SyncPostMeaning(signedIn: bool, configured: bool, queue: seq<QueueItem>, errors: seq<Option<String>>, now: int)
    requires |errors| == |Selected(queue, now)|
    ensures var r := SyncPost(signedIn, configured, queue, errors, now);
      && (r.NothingPending? <==> signedIn && configured && forall x :: x in queue ==> !Selectable(x, now))
      && (r.Ran? <==> signedIn && configured && exists x :: x in queue && Selectable(x, now))
      && (r.Ran? ==>
            && r.processed + r.failed == r.total == |r.rows|
            && r.total == Min(10, |SelectableItems(queue, now)|) && 1 <= r.total <= 10
            && (forall i :: 0 <= i < |r.rows| ==> r.rows[i].id == SelectableItems(queue, now)[i].id)
            && forall i :: 0 <= i < |r.rows| ==>
                 (r.rows[i].status == Completed <==> errors[i].None?)
                 && r.rows[i].status != Processing)
  {
    var s := SelectableItems(queue, now);
    if signedIn && configured && s != [] {
      assert s[0] in s;
      RunResultMeaning(Selected(queue, now), errors, now);
    }
  }

  // ---------------------------------------------------------------------------
  // Status counts
  // ---------------------------------------------------------------------------

  function CountStatus(rows: seq<Status>, s: Status): (n: nat)
    ensures n <= |rows|
    decreases |rows|
  {
    if rows == [] then 0 else (if rows[0] == s then 1 else 0) + CountStatus(rows[1..], s)
  }

  function Statuses(queue: seq<QueueItem>): (r: seq<Status>)
    ensures |r| == |queue|
  {
    seq(|queue|, i requires 0 <= i < |queue| => queue[i].status)
  }

  /** Whether a failed item's retry time has come. */
  predicate DueFailed(item: QueueItem, now: int) {
    item.status == Failed && (item.nextRetryAt.None? || item.nextRetryAt.value <= now)
  }

  /** The failed items whose retry time has come: `readyToRetry` as intended. */
  function ReadyToRetry(queue: seq<QueueItem>, now: int): (n: nat)
    decreases |queue|
  {
    if queue == [] then 0 else (if DueFailed(queue[0], now) then 1 else 0) + ReadyToRetry(queue[1..], now)
  }

  /** `readyToRetry` as the route computes it. The query reads only `status`, so every
      row's `next_retry_at` is undefined: `!s.next_retry_at` always holds (and the
      comparison `new Date(undefined) <= new Date()`, on an invalid date, would be false),
      so each failed row counts, whatever its retry time and whatever `now` is. */
  function ReadyToRetryAsWritten(rows: seq<Status>, now: int): (n: nat)
    decreases |rows|
  {
    if rows == [] then 0
    else (if rows[0] == Failed then 1 else 0) + ReadyToRetryAsWritten(rows[1..], now)
  }

  /** As written, `readyToRetry` always equals `failed`. */
  lemma {:induction false} ReadyToRetryAsWrittenIsFailed(rows: seq<Status>, now: int)
    ensures ReadyToRetryAsWritten(rows, now) == CountStatus(rows, Failed)
    decreases |rows|
  {
    if rows != [] {
      ReadyToRetryAsWrittenIsFailed(rows[1..], now);
    }
  }

  /** A failed item whose next retry is still ahead is counted as ready by the route, but
      is not ready. */
  lemma ReadyToRetryCountsWaitingItem(item: QueueItem, now: int)
    requires item.status == Failed && item.nextRetryAt == Some(now + 5)
    ensures ReadyToRetryAsWritten(Statuses([item]), now) == 1
    ensures ReadyToRetry([item], now) == 0
  {
    assert Statuses([item]) == [Failed];
  }

  /** The intended count lies between zero and the failed count, and the failed items it
      counts are, below 20 retries, exactly the failed items a run would pick up. */
  lemma {:induction false} ReadyToRetryMeaning(queue: seq<QueueItem>, now: int)
    ensures ReadyToRetry(queue, now) <= CountStatus(Statuses(queue), Failed)
    ensures forall x :: x in queue && x.status == Failed && x.retryCount < 20 ==>
      (DueFailed(x, now) <==> Selectable(x, now))
    decreases |queue|
  {
    if queue != [] {
      ReadyToRetryMeaning(queue[1..], now);
      assert Statuses(queue)[1..] == Statuses(queue[1..]);
    }
  }

  /** The counts of `GET /api/notion/sync`. */
  datatype StatusCounts = StatusCounts(pending: nat, processing: nat, failed: nat, readyToRetry: nat)

  /** The route as written, reading only the statuses of the user's rows. */
  function SyncStatusAsWritten(rows: seq<Status>, now: int): StatusCounts {
    StatusCounts(CountStatus(rows, Pending), CountStatus(rows, Processing), CountStatus(rows, Failed),
                 ReadyToRetryAsWritten(rows, now))
  }

  /** The route with `readyToRetry` computed from the rows' next retry times. */
  function SyncStatus(queue: seq<QueueItem>, now: int): StatusCounts {
    var rows := Statuses(queue);
    StatusCounts(CountStatus(rows, Pending), CountStatus(rows, Processing), CountStatus(rows, Failed),
                 ReadyToRetry(queue, now))
  }

  /** The status counts never exceed the number of rows together. */
  lemma {:induction false} CountsPartition(rows: seq<Status>)
    ensures CountStatus(rows, Pending) + CountStatus(rows, Processing) + CountStatus(rows, Failed)
      + CountStatus(rows, Completed) == |rows|
    decreases |rows|
  {
    if rows != [] {
      CountsPartition(rows[1..]);
    }
  }

  /** The corrected counts: every row is counted under exactly one status and the ready
      count is at most the failed count; the as-written route reports every failed row as
      ready. */
  lemma SyncStatusMeaning(queue: seq<QueueItem>, now: int)
    ensures var c := SyncStatus(queue, now);
      c.pending + c.processing + c.failed <= |queue| && c.readyToRetry <= c.failed
    ensures var c := SyncStatusAsWritten(Statuses(queue), now);
      c.readyToRetry == c.failed
  {
    CountsPartition(Statuses(queue));
    ReadyToRetryMeaning(queue, now);
    ReadyToRetryAsWrittenIsFailed(Statuses(queue), now);
  }
}
