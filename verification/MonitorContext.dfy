/**
 One monitored connection: its failure count, the start of the current failure and the verdict on the node are updated
 in place by each status check. `history` records the checks that counted (made while active, after the grace period),
 and everything the context stores is a function of it. Times are nanoseconds of a steady clock, durations from the
 configuration are milliseconds.
 */
module MonitorContext {

  const NANOS_PER_MILLI := 1_000_000

  datatype Check = Check(start: int, now: int, valid: bool)

  /** duration_cast to milliseconds truncates toward zero. */
  function ToMillis(nanos: int): int {
    if nanos >= 0 then nanos / NANOS_PER_MILLI else -(-nanos / NANOS_PER_MILLI)
  }

  /** The failures since the last valid check. */
  function TrailingFailures(history: seq<Check>): seq<Check> {
    if history == [] || history[|history| - 1].valid then []
    else TrailingFailures(history[..|history| - 1]) + [history[|history| - 1]]
  }

  /** It is the longest suffix of the history without a valid check. */
  lemma {:induction false} TrailingFailuresAreTheSuffix(history: seq<Check>)
    ensures var run := TrailingFailures(history);
            && |run| <= |history| && run == history[|history| - |run|..]
            && (forall c | c in run :: !c.valid)
            && (|run| < |history| ==> history[|history| - |run| - 1].valid)
  {
    if history != [] {
      TrailingFailuresAreTheSuffix(history[..|history| - 1]);
    }
  }

  /**
   The recorded start of a run of failures. Time zero means "not recorded", so a start is kept from the first check
   with a positive start on, and until then the latest start replaces the one before.
   */
  function StartOf(run: seq<Check>): int {
    if run == [] then 0
    else
      var earlier := StartOf(run[..|run| - 1]);
      if earlier > 0 then earlier else run[|run| - 1].start
  }

  lemma {:induction false} StartIsFirstPositive(run: seq<Check>)
    ensures forall k | 0 <= k < |run| && run[k].start > 0 && (forall j | 0 <= j < k :: run[j].start <= 0) ::
              StartOf(run) == run[k].start
    ensures (forall k | 0 <= k < |run| :: run[k].start <= 0) ==> StartOf(run) <= 0
  {
    if run != [] {
      StartIsFirstPositive(run[..|run| - 1]);
    }
  }

  /** With positive time stamps the recorded start is the start of the first failing check of the run. */
  lemma StartIsTheFirstFailure(run: seq<Check>)
    requires run != [] && forall c | c in run :: c.start > 0
    ensures StartOf(run) == run[0].start
  {
    assert run[0] in run;
    StartIsFirstPositive(run);
  }

  /** The last check of the run ended the whole limit after the recorded start. */
  predicate Reached(run: seq<Check>, limit: int)
    requires run != []
  {
    ToMillis(run[|run| - 1].now - StartOf(run)) >= limit
  }

  /** The node is held dead when some check of the current run of failures reached the limit. */
  predicate Dead(run: seq<Check>, limit: int) {
    run != [] && (Dead(run[..|run| - 1], limit) || Reached(run, limit))
  }

  /** One more failing check: the run, its start, and when the node is held dead. */
  lemma RunGrows(history: seq<Check>, c: Check, limit: int)
    requires !c.valid
    ensures var run := TrailingFailures(history);
            && TrailingFailures(history + [c]) == run + [c]
            && StartOf(run + [c]) == (if StartOf(run) > 0 then StartOf(run) else c.start)
            && (Dead(run + [c], limit) <==> Dead(run, limit) || Reached(run + [c], limit))
  {
    var run := TrailingFailures(history);
    assert (history + [c])[..|history|] == history;
    assert (run + [c])[..|run|] == run;
  }

  lemma MillisReach(nanos: int, limit: nat)
    ensures ToMillis(nanos) >= limit <==> nanos >= limit * NANOS_PER_MILLI || (limit == 0 && nanos > -NANOS_PER_MILLI)
  {
  }

  /** Whether a number of nanoseconds reaches a limit in milliseconds; a limit of zero is reached by less than one below. */
  predicate Passes(nanos: int, limit: nat) {
    nanos >= limit * 1_000_000 || (limit == 0 && nanos > -1_000_000)
  }

  /**
   No false alarm and no missed one: with positive time stamps the node is dead exactly when some check of the run ended
   at least the whole limit after the first failing check began.
   */
  lemma {:induction false} DeadExactlyAfterLimit(run: seq<Check>, limit: nat)
    requires forall c | c in run :: c.start > 0
    ensures Dead(run, limit) <==> exists k: nat :: k < |run| && Passes(run[k].now - run[0].start, limit)
  {
    if run != [] {
      DeadExactlyAfterLimit(run[..|run| - 1], limit);
      StartIsTheFirstFailure(run);
      MillisReach(run[|run| - 1].now - run[0].start, limit);
    }
  }

  /** Under a clock that does not run backwards the latest check alone decides, so a dead node stays dead until a valid check. */
  lemma LatestCheckDecides(run: seq<Check>, limit: nat)
    requires limit > 0 && run != []
    requires forall c | c in run :: c.start > 0
    requires forall i, j | 0 <= i <= j < |run| :: run[i].now <= run[j].now
    ensures Dead(run, limit) <==> run[|run| - 1].now - run[0].start >= limit * 1_000_000
  {
    DeadExactlyAfterLimit(run, limit);
  }

  class Context {
    const detectionTime: int      // ms
    const detectionInterval: int  // ms
    const detectionCount: int
    const hasConnection: bool
    var startMonitorTime: int
    var invalidNodeStartTime: int
    var failureCount: int
    var nodeUnhealthy: bool
    var active: bool
    var socketCloses: nat
    ghost var history: seq<Check>

    function Limit(): int {
      detectionInterval * (if detectionCount > 0 then detectionCount else 0)
    }

    /** A check counts while the context is active and only when it ends after the grace period. */
    ghost predicate Counts(check: Check)
      reads this`active, this`startMonitorTime
    {
      active && check.now - startMonitorTime > detectionTime * NANOS_PER_MILLI
    }

    ghost predicate Valid()
      reads this
    {
      var run := TrailingFailures(history);
      && failureCount == |run|
      && invalidNodeStartTime == StartOf(run)
      && (nodeUnhealthy <==> Dead(run, Limit()))
    }

    /** The grace period is the detection time in milliseconds. */
    lemma CountsAfterGracePeriod(check: Check)
      ensures Counts(check) <==> active && check.now - startMonitorTime > detectionTime * 1_000_000
    {
    }

    /** The settings read as the documentation gives them: an interval, and how many of them a node may fail for. */
    ghost predicate Regular(run: seq<Check>) {
      detectionInterval > 0 && detectionCount > 0 && forall c | c in run :: c.start > 0
    }

    /**
     With positive settings and time stamps the node is held dead exactly when some check of the current run of failures
     ended at least the interval times the count after the first one began. With a count of zero or less the limit is
     zero: it is dead from the first failing check on that does not end before it begins.
     */
    lemma DeadAfterIntervalTimesCount()
      requires Valid() && forall c | c in TrailingFailures(history) :: c.start > 0
      ensures var run := TrailingFailures(history);
              && (detectionInterval > 0 && detectionCount > 0 ==>
                    (nodeUnhealthy <==>
                     exists k: nat :: k < |run| && run[k].now - run[0].start >= detectionInterval * detectionCount * 1_000_000))
              && (detectionCount <= 0 ==>
                    (nodeUnhealthy <==> exists k: nat :: k < |run| && run[k].now - run[0].start > -1_000_000))
    {
      PositiveLimit();
      if (detectionInterval > 0 && detectionCount > 0) || detectionCount <= 0 {
        DeadExactlyAfterLimit(TrailingFailures(history), Limit());
      }
    }

    lemma PositiveLimit()
      ensures detectionInterval > 0 && detectionCount > 0 ==>
                Limit() == detectionInterval * detectionCount && detectionInterval * detectionCount > 0
      ensures detectionCount <= 0 ==> Limit() == 0
    {
    }

    lemma LastCheckReached(run: seq<Check>)
      requires run != []
      ensures Regular(run) ==>
                (Reached(run, Limit()) <==>
                 run[|run| - 1].now - run[0].start >= detectionInterval * detectionCount * 1_000_000)
    {
      if Regular(run) {
        PositiveLimit();
        StartIsTheFirstFailure(run);
        MillisReach(run[|run| - 1].now - run[0].start, detectionInterval * detectionCount);
      }
    }

    constructor (detectionTime: int, detectionInterval: int, detectionCount: int, hasConnection: bool)
      ensures Valid() && history == [] && active && socketCloses == 0
      ensures this.detectionTime == detectionTime && this.detectionInterval == detectionInterval
      ensures this.detectionCount == detectionCount && this.hasConnection == hasConnection
    {
      this.detectionTime, this.detectionInterval := detectionTime, detectionInterval;
      this.detectionCount, this.hasConnection := detectionCount, hasConnection;
      startMonitorTime, invalidNodeStartTime, failureCount := 0, 0, 0;
      nodeUnhealthy, active, socketCloses := false, true, 0;
      history := [];
    }

    method SetStartMonitorTime(time: int)
      modifies this`startMonitorTime
      ensures startMonitorTime == time
    {
      startMonitorTime := time;
    }

    method Invalidate()
      modifies this`active
      ensures !active
    {
      active := false;
    }

    method AbortConnection()
      modifies this`socketCloses
      ensures socketCloses == old(socketCloses) + if hasConnection && active then 1 else 0
    {
      if !hasConnection || !active {
        return;
      }
      socketCloses := socketCloses + 1;
    }

    /** Every failing check that finds the node dead closes the socket once more. */
    method SetConnectionValid(valid: bool, start: int, now: int)
      requires Valid()
      modifies this`failureCount, this`invalidNodeStartTime, this`nodeUnhealthy, this`socketCloses, this`history
      ensures Valid() && history == old(history) + [Check(start, now, valid)]
      ensures var run := TrailingFailures(history);
              socketCloses == old(socketCloses) +
                              if !valid && hasConnection && active && Reached(run, Limit()) then 1 else 0
      ensures var run := TrailingFailures(history);
              !valid && Regular(run) ==>
                socketCloses == old(socketCloses) +
                                if hasConnection && active
                                   && now - run[0].start >= detectionInterval * detectionCount * 1_000_000 then 1 else 0
    {
      ghost var check := Check(start, now, valid);
      history := history + [check];
      if !valid {
        ghost var run := TrailingFailures(old(history));
        RunGrows(old(history), check, Limit());
        LastCheckReached(run + [check]);
        failureCount := failureCount + 1;
        if invalidNodeStartTime <= 0 {
          invalidNodeStartTime := start;
        }
        if ToMillis(now - invalidNodeStartTime) >= Limit() {
          nodeUnhealthy := true;
          AbortConnection();
          return;
        }
        return;
      }
      failureCount := 0;
      invalidNodeStartTime := 0;
      nodeUnhealthy := false;
    }

    method UpdateConnectionStatus(start: int, now: int, valid: bool)
      requires Valid()
      modifies this`failureCount, this`invalidNodeStartTime, this`nodeUnhealthy, this`socketCloses, this`history
      ensures Valid()
      ensures Counts(Check(start, now, valid)) ==> history == old(history) + [Check(start, now, valid)]
      ensures !Counts(Check(start, now, valid)) ==> history == old(history)
      ensures history == old(history) ==> socketCloses == old(socketCloses)
    {
      if !active {
        return;
      }
      var elapsed := now - startMonitorTime;
      if elapsed > detectionTime * NANOS_PER_MILLI {
        SetConnectionValid(valid, start, now);
      }
    }
  }
}
