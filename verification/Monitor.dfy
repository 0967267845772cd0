/**
 The monitor of one host: a changing list of contexts, the check interval kept beside it, and the pass over the list
 that follows each status check.
 */
module Monitor {

  import opened MonitorContext

  /** The largest millisecond duration (64 bits). */
  const MAX_INTERVAL := 0x7fff_ffff_ffff_ffff

  /** `m` is the smallest interval of the contexts, and the maximum duration when there are none. */
  ghost predicate IsShortest(contexts: seq<Context>, m: int) {
    && m <= MAX_INTERVAL
    && (forall c | c in contexts :: m <= c.detectionInterval)
    && (m == MAX_INTERVAL || exists c :: c in contexts && c.detectionInterval == m)
  }

  /** The list without any entry equal to c. */
  function Without(contexts: seq<Context>, c: Context): seq<Context> {
    if contexts == [] then []
    else
      var rest := Without(contexts[..|contexts| - 1], c);
      if contexts[|contexts| - 1] == c then rest else rest + [contexts[|contexts| - 1]]
  }

  lemma {:induction false} WithoutMembers(contexts: seq<Context>, c: Context)
    ensures forall d :: d in Without(contexts, c) <==> d in contexts && d != c
  {
    if contexts != [] {
      WithoutMembers(contexts[..|contexts| - 1], c);
      assert contexts == contexts[..|contexts| - 1] + [contexts[|contexts| - 1]];
    }
  }

  /** One context is taken out wherever it stands; the others stay, each as often as it is registered, in their order. */
  lemma {:induction false} WithoutOneByOne(xs: seq<Context>, ys: seq<Context>, c: Context, d: Context)
    ensures Without(xs + ys, c) == Without(xs, c) + Without(ys, c)
    ensures Without([d], c) == if d == c then [] else [d]
  {
    if ys == [] {
      assert xs + ys == xs;
    } else {
      WithoutOneByOne(xs, ys[..|ys| - 1], c, d);
      assert (xs + ys)[..|xs + ys| - 1] == xs + ys[..|ys| - 1];
    }
  }

  /** The history of a context after a pass over the first n contexts: it grows for every time the context is met. */
  function After(contexts: seq<Context>, n: nat, c: Context, history: seq<Check>, check: Check, counts: bool): seq<Check>
    requires n <= |contexts|
  {
    if n == 0 then history
    else if counts && contexts[n - 1] == c then After(contexts, n - 1, c, history, check, counts) + [check]
    else After(contexts, n - 1, c, history, check, counts)
  }

  /** That is, the check behind the history once for each time the context is registered. */
  lemma {:induction false} AfterCountsRegistrations(contexts: seq<Context>, n: nat, c: Context, history: seq<Check>,
                                                    check: Check, counts: bool)
    requires n <= |contexts|
    ensures var after := After(contexts, n, c, history, check, counts);
            && |after| == |history| + (if counts then multiset(contexts[..n])[c] else 0)
            && history <= after && forall k | |history| <= k < |after| :: after[k] == check
  {
    if n > 0 {
      AfterCountsRegistrations(contexts, n - 1, c, history, check, counts);
      assert contexts[..n] == contexts[..n - 1] + [contexts[n - 1]];
    }
  }

  class Monitor {
    var contexts: seq<Context>
    var checkInterval: int
    var lastContextTimestamp: int

    ghost predicate Valid()
      reads this
    {
      IsShortest(contexts, checkInterval)
    }

    constructor ()
      ensures Valid() && contexts == []
    {
      contexts := [];
      checkInterval := MAX_INTERVAL;
      lastContextTimestamp := 0;
    }

    method StartMonitoring(context: Context, now: int)
      requires Valid()
      modifies this, context`startMonitorTime
      ensures Valid() && contexts == old(contexts) + [context]
      ensures context.startMonitorTime == now && lastContextTimestamp == now
    {
      var detectionInterval := context.detectionInterval;
      if detectionInterval < checkInterval {
        checkInterval := detectionInterval;
      }
      context.SetStartMonitorTime(now);
      lastContextTimestamp := now;
      contexts := contexts + [context];
    }

    /** Also when the removed context held the minimum. */
    method StopMonitoring(context: Context?)
      requires Valid()
      modifies this, if context == null then {} else {context}
      ensures Valid()
      ensures contexts == if context == null then old(contexts) else Without(old(contexts), context)
      ensures context != null ==> !context.active && context.history == old(context.history)
    {
      if context == null {
        return;
      }
      context.Invalidate();
      contexts := Without(contexts, context);
      checkInterval := FindShortestInterval();
    }

    method ClearContexts()
      modifies this
      ensures Valid() && contexts == []
    {
      contexts := [];
      checkInterval := MAX_INTERVAL;
    }

    method FindShortestInterval() returns (min: int)
      ensures IsShortest(contexts, min)
    {
      min := MAX_INTERVAL;
      var i := 0;
      while i < |contexts|
        invariant 0 <= i <= |contexts|
        invariant IsShortest(contexts[..i], min)
      {
        assert contexts[..i + 1] == contexts[..i] + [contexts[i]];
        if contexts[i].detectionInterval < min {
          min := contexts[i].detectionInterval;
          assert contexts[i] in contexts[..i + 1];
        }
        i := i + 1;
      }
      assert contexts[..i] == contexts;
    }

    /** The interval the loop sleeps by: nothing to wait for without contexts. */
    method GetCheckInterval() returns (interval: int)
      requires Valid()
      ensures contexts == [] ==> interval == 0
      ensures contexts != [] ==> IsShortest(contexts, interval)
    {
      if contexts == [] {
        return 0;
      }
      return checkInterval;
    }

    /**
     The pass after one status check: every registered context sees the same check, once for every time it is
     registered, if it is active and past its grace period.
     */
    method UpdateContexts(start: int, elapsed: int, valid: bool)
      requires forall c | c in contexts :: c.Valid()
      modifies contexts`failureCount, contexts`invalidNodeStartTime, contexts`nodeUnhealthy
      modifies contexts`socketCloses, contexts`history
      ensures var check := Check(start, start + elapsed, valid);
              forall c | c in contexts ::
                c.history == After(contexts, |contexts|, c, old(c.history), check, c.Counts(check))
      ensures forall c | c in contexts :: c.Valid()
    {
      ghost var check := Check(start, start + elapsed, valid);
      var i := 0;
      while i < |contexts|
        invariant 0 <= i <= |contexts|
        invariant forall c | c in contexts :: c.Valid() && c.Counts(check) == old(c.Counts(check))
        invariant forall c | c in contexts ::
                    c.history == After(contexts, i, c, old(c.history), check, old(c.Counts(check)))
      {
        var context := contexts[i];
        context.UpdateConnectionStatus(start, start + elapsed, valid);
        i := i + 1;
      }
    }
  }
}
