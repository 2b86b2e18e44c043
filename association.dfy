/**
  The bounded-retry Wi-Fi association loop of the firmware's start-up.
  Each pass counts an attempt and asks the controller to connect. A
  successful connect ends the loop as connected, whatever the following
  connectivity query reports (that report only picks a log line). A failed
  connect gives up once CONNECT_ATTEMPTS attempts have been made, and
  otherwise waits RETRY_DELAY_MS and tries again.

  The controller is not modelled: the outcomes of its `connect` calls are
  an input to the loop, one per attempt it may make.
 */
module Association {

  /** Most attempts the loop makes before giving up. */
  const CONNECT_ATTEMPTS: nat := 10
  /** Milliseconds waited between a failed attempt and the next one. */
  const RETRY_DELAY_MS: nat := 5000

  /** What `is_connected()` returned after a successful connect. */
  datatype StatusCheck = StatusOk(isConnected: bool) | StatusErr

  /** What one `connect()` call did; a success carries the status query that follows it. */
  datatype ConnectOutcome = ConnectErr | ConnectOk(status: StatusCheck)

  /** The line logged at the end of one attempt. */
  datatype AttemptEnd =
    | ReportedConnected    // connect succeeded and the link was reported up
    | ReportedNotConnected // connect succeeded but the link was reported down
    | StatusCheckFailed    // connect succeeded but the status query failed
    | GaveUp(after: nat)   // connect failed on the last allowed attempt
    | RetryingIn(ms: nat)  // connect failed; a delay of `ms` follows

  /** What is logged for one attempt: its number, then how it ended. */
  datatype AttemptLog = AttemptLog(attempt: nat, end: AttemptEnd)

  /** The log line chosen by the status query after a successful connect. */
  function StatusLine(s: StatusCheck): (line: AttemptEnd)
    ensures line != ReportedConnected <==> !(s.StatusOk? && s.isConnected)
    ensures line == StatusCheckFailed <==> s.StatusErr?
    ensures !line.GaveUp? && !line.RetryingIn?
  {
    match s
    case StatusOk(up) => if up then ReportedConnected else ReportedNotConnected
    case StatusErr => StatusCheckFailed
  }

  /** The index of the first successful connect, or `|outcomes|` when none succeeds. */
  function FirstSuccess(outcomes: seq<ConnectOutcome>): (k: nat)
    ensures k <= |outcomes|
    ensures forall i :: 0 <= i < k ==> outcomes[i].ConnectErr?
    ensures k < |outcomes| ==> outcomes[k].ConnectOk?
  {
    if outcomes == [] || outcomes[0].ConnectOk? then 0
    else 1 + FirstSuccess(outcomes[1..])
  }

  /** The first `k` connects fail and the next one succeeds. */
  predicate FailsThenSucceeds(outcomes: seq<ConnectOutcome>, k: nat)
  {
    k < |outcomes| && outcomes[k].ConnectOk? &&
    forall i :: 0 <= i < k ==> outcomes[i].ConnectErr?
  }

  /** Every one of the first `n` connects fails. */
  predicate FailsFirst(outcomes: seq<ConnectOutcome>, n: nat)
  {
    n <= |outcomes| && forall i :: 0 <= i < n ==> outcomes[i].ConnectErr?
  }

  /**
    The association loop. It returns whether the device associated, how
    many attempts it made, how many retry delays it waited and the log of
    its attempts.
   */
  method ConnectWithRetry(outcomes: seq<ConnectOutcome>)
      returns (connected: bool, attempts: nat, delays: nat, log: seq<AttemptLog>)
    requires |outcomes| >= CONNECT_ATTEMPTS
    ensures 1 <= attempts <= CONNECT_ATTEMPTS
    ensures connected <==> FirstSuccess(outcomes) < CONNECT_ATTEMPTS
    ensures attempts == if connected then FirstSuccess(outcomes) + 1 else CONNECT_ATTEMPTS
    ensures delays == attempts - 1
    // k failures then a success within the budget: connected on attempt k + 1 after k delays
    ensures forall k: nat :: k < CONNECT_ATTEMPTS && FailsThenSucceeds(outcomes, k) ==>
      connected && attempts == k + 1 && delays == k
    // every allowed attempt fails: not connected, after all attempts and one delay fewer
    ensures FailsFirst(outcomes, CONNECT_ATTEMPTS) ==>
      !connected && attempts == CONNECT_ATTEMPTS && delays == CONNECT_ATTEMPTS - 1
    // one log entry per attempt, numbered from 1; all but the last end in a retry delay
    ensures |log| == attempts
    ensures forall i :: 0 <= i < attempts ==> log[i].attempt == i + 1
    ensures forall i :: 0 <= i < attempts - 1 ==> log[i].end == RetryingIn(RETRY_DELAY_MS)
    ensures log[attempts - 1].end ==
      if connected then StatusLine(outcomes[attempts - 1].status) else GaveUp(CONNECT_ATTEMPTS)
  {
    forall k: nat | FailsThenSucceeds(outcomes, k) ensures FirstSuccess(outcomes) == k {
      FirstSuccessIs(outcomes, k);
    }
    attempts, delays, log := 0, 0, [];
    while true
      invariant attempts < CONNECT_ATTEMPTS
      invariant delays == attempts && |log| == attempts
      invariant forall i :: 0 <= i < attempts ==> outcomes[i].ConnectErr?
      invariant forall i :: 0 <= i < attempts ==> log[i] == AttemptLog(i + 1, RetryingIn(RETRY_DELAY_MS))
      decreases CONNECT_ATTEMPTS - attempts
    {
      attempts := attempts + 1;
      var outcome := outcomes[attempts - 1];
      if outcome.ConnectOk? {
        log := log + [AttemptLog(attempts, StatusLine(outcome.status))];
        connected := true;
        break;
      }
      if attempts >= CONNECT_ATTEMPTS {
        log := log + [AttemptLog(attempts, GaveUp(CONNECT_ATTEMPTS))];
        connected := false;
        return;
      }
      log := log + [AttemptLog(attempts, RetryingIn(RETRY_DELAY_MS))];
      delays := delays + 1;
    }
  }

  /** `FailsThenSucceeds` pins down the first success. */
  lemma FirstSuccessIs(outcomes: seq<ConnectOutcome>, k: nat)
    requires FailsThenSucceeds(outcomes, k)
    ensures FirstSuccess(outcomes) == k
  {
  }

  /**
    Only whether each connect succeeded decides where the loop stops: two
    outcome sequences that agree on that, however their status queries
    differ, stop at the same attempt.
   */
  lemma StatusDoesNotDecide(a: seq<ConnectOutcome>, b: seq<ConnectOutcome>)
    requires |a| == |b|
    requires forall i :: 0 <= i < |a| ==> a[i].ConnectOk? == b[i].ConnectOk?
    ensures FirstSuccess(a) == FirstSuccess(b)
  {
  }
}
