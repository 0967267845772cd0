/**
 What holds in every interleaving of writer failover: results are sound, no connection is misused, completion is
 permanent and ends both tasks, and no connection that stays alive is lost.
 */
module WriterFailoverSafety {

  import opened Wrappers
  import opened Hosts
  import opened Connections
  import opened WriterFailover
  import FailoverSync
  import Race = ReaderRace

  // ----- what holds in every reachable state

  /** A handle a task holds refers to a connection that the task received. */
  ghost predicate Holds(s: State, h: Handle, owner: Task, status: Status) {
    h.Some? ==> h.value < |s.conns| && s.conns[h.value].owner == owner && s.conns[h.value].status == status
  }

  /** The connection behind a handle leads to the instance that is the writer of the topology. */
  ghost predicate LeadsToWriter(s: State, h: Handle, topology: Topology) {
    && h.Some? && h.value < |s.conns|
    && topology.GetWriter().Some?
    && s.conns[h.value].host.instanceName == topology.GetWriter().value.instanceName
  }

  /** What a connected result promises. */
  ghost predicate Sound(original: HostInfo, s: State, r: WriterResult) {
    r.connected ==>
      && r.topology.Some?
      && LeadsToWriter(s, r.connection, r.topology.value)
      && s.conns[r.connection.value].status == Published
      && (r.isNewHost <==> r.topology.value.GetWriter().value.instanceName != original.instanceName)
  }

  ghost predicate InvA(original: HostInfo, s: State) {
    var a := s.a;
    && Holds(s, a.newConnection, TaskA, if a.result.connected then Published else Open)
    && (a.newConnection.Some? ==> s.conns[a.newConnection.value].host == original)
    && (a.pc.ATopology? || a.pc.AReleaseAndRetry? || a.pc.ACheck? || a.pc.APublish? ==> a.newConnection.Some?)
    && (a.pc.ACheck? || a.pc.APublish? ==>
          a.pc.latest.GetWriter().Some? && a.pc.latest.GetWriter().value.instanceName == original.instanceName)
    && (a.pc.AMark? ==> a.result.connected)
    && (a.pc.ARelease? || a.pc.ADone? ==> FailoverSync.IsDone(s.numTasks))
    && (a.result.connected ==> a.pc.AMark? || (a.pc.ADone? && FailoverSync.IsDone(s.numTasks)))
    && (a.pc.ADone? && !a.result.connected ==> a.newConnection.None?)
    && (a.result.connected ==> a.result.connection == a.newConnection)
    && Sound(original, s, a.result)
  }

  /** Where B's loop may still go on to publish its new connection, unless it has been cancelled meanwhile. */
  predicate MayPublish(pc: PcB) {
    pc.BCleanUp? || pc.BLoop? || pc.BTest? || pc.BPublish?
  }

  ghost predicate InvB(original: HostInfo, s: State) {
    var b := s.b;
    var done := FailoverSync.IsDone(s.numTasks);
    && Holds(s, b.newConnection, TaskB, if b.result.connected then Published else Open)
    && (!b.result.connected && !b.pc.BDone? ==> Holds(s, b.readerConnection, TaskB, Open))
    && (b.readerConnection.Some? ==>
          && b.readerConnection.value < |s.conns|
          && s.conns[b.readerConnection.value].owner == TaskB
          && b.readerHost == Some(s.conns[b.readerConnection.value].host))
    && (b.pc.BTopology? || b.pc.BConnectWriter? ==> b.readerConnection.Some?)
    && (b.pc.BRefresh? && !done ==> b.readerConnection.Some?)
    && (b.pc.BCleanUp? && !done ==> b.newConnection.Some?)
    && (b.pc.BCancelledCleanUp? || b.pc.BRelease? || b.pc.BDone? ==> done)
    && (b.pc.BConnectWriter? ==>
          && b.topology.GetWriter() == Some(b.pc.candidate)
          && !IsHostSame(b.pc.candidate, original))
    && (MayPublish(b.pc) && b.newConnection.Some? ==>
          || (done && (b.pc.BCleanUp? || b.pc.BLoop?))
          || (LeadsToWriter(s, b.newConnection, b.topology) && !IsHostSame(b.topology.GetWriter().value, original)))
    && (b.pc.BLoop? || b.pc.BTest? || b.pc.BPublish? || b.pc.BMark? || b.pc.BRelease? ==>
          b.readerConnection.None? || b.readerConnection == b.newConnection)
    && (b.pc.BPublish? ==> b.newConnection.Some?)
    && (b.pc.BMark? ==> b.result.connected)
    && (b.result.connected ==> b.pc.BMark? || (b.pc.BDone? && done))
    && (b.pc.BDone? && !b.result.connected ==> b.newConnection.None?)
    && (b.pc.BDone? && b.readerConnection.Some? ==> s.conns[b.readerConnection.value].status != Open)
    && (b.result.connected ==> b.result.isNewHost && b.result.connection == b.newConnection)
    && Sound(original, s, b.result)
  }

  predicate Polling(pc: PcCaller) {
    !pc.Returned? && !pc.CallerThrew?
  }

  /** The task has ended without a connection. */
  predicate AInVain(s: State) {
    s.a.pc.ADone? && !s.a.result.connected
  }

  predicate BInVain(s: State) {
    s.b.pc.BDone? && !s.b.result.connected
  }

  ghost predicate InvCaller(s: State) {
    && (!s.caller.pc.Waiting? ==> FailoverSync.IsDone(s.numTasks))
    && (Polling(s.caller.pc) && !s.caller.validA ==> AInVain(s))
    && (Polling(s.caller.pc) && !s.caller.validB ==> BInVain(s))
    && (s.caller.pc.Returned? ==>
          || s.caller.pc.result == NOT_CONNECTED
          || (s.caller.pc.result == s.a.result && s.a.pc.ADone? && s.a.result.connected)
          || (s.caller.pc.result == s.b.result && s.b.pc.BDone? && s.b.result.connected))
  }

  ghost predicate Inv(original: HostInfo, s: State) {
    && 0 <= s.numTasks
    && !s.fault
    && InvA(original, s)
    && InvB(original, s)
    && InvCaller(s)
  }

  /** A step of one task leaves the other task's connections as they were and never takes completion back. */
  ghost predicate Untouched(s: State, t: State, owner: Task) {
    && |s.conns| <= |t.conns|
    && (forall i | 0 <= i < |s.conns| && s.conns[i].owner == owner :: t.conns[i] == s.conns[i])
    && (forall i | 0 <= i < |t.conns| && t.conns[i].owner == owner :: i < |s.conns| && s.conns[i].owner == owner)
    && (FailoverSync.IsDone(s.numTasks) ==> FailoverSync.IsDone(t.numTasks))
  }

  lemma FrameA(original: HostInfo, s: State, t: State)
    requires InvA(original, s) && Untouched(s, t, TaskA) && t.a == s.a
    ensures InvA(original, t)
  {
  }

  lemma FrameB(original: HostInfo, s: State, t: State)
    requires InvB(original, s) && Untouched(s, t, TaskB) && t.b == s.b
    ensures InvB(original, t)
  {
  }

  lemma StepAKeeps(original: HostInfo, s: State, e: Env)
    requires 0 <= s.numTasks && !s.fault && InvA(original, s)
    ensures var t := ApplyA(original, s, e);
            InvA(original, t) && !t.fault && 0 <= t.numTasks && Untouched(s, t, TaskB) && t.b == s.b
  {
    match s.a.pc
    case ALoop =>
    case AConnect =>
    case ATopology =>
    case AReleaseAndRetry =>
    case ACheck(latest) =>
    case APublish(latest) =>
    case AMark =>
    case ARelease =>
    case ADone =>
    case AThrew =>
  }

  /** What a step of task B has to show. */
  ghost predicate KeptByB(original: HostInfo, s: State, t: State) {
    InvB(original, t) && !t.fault && 0 <= t.numTasks && Untouched(s, t, TaskA) && t.a == s.a
  }

  lemma QuietStepB(original: HostInfo, s: State, e: Env)
    requires 0 <= s.numTasks && !s.fault && InvB(original, s)
    requires s.b.pc.BLoop? || s.b.pc.BReader? || s.b.pc.BRefresh? || s.b.pc.BMark?
    ensures KeptByB(original, s, ApplyB(original, s, e))
  {
  }

  lemma AskingStepB(original: HostInfo, s: State, e: Env)
    requires 0 <= s.numTasks && !s.fault && InvB(original, s)
    requires s.b.pc.BTest? || s.b.pc.BTopology?
    ensures KeptByB(original, s, ApplyB(original, s, e))
  {
  }

  lemma GettingStepB(original: HostInfo, s: State, e: Env)
    requires 0 <= s.numTasks && !s.fault && InvB(original, s) && s.b.pc.BGetReader?
    ensures KeptByB(original, s, ApplyB(original, s, e))
  {
  }

  lemma ConnectingStepB(original: HostInfo, s: State, e: Env)
    requires 0 <= s.numTasks && !s.fault && InvB(original, s) && s.b.pc.BConnectWriter?
    ensures KeptByB(original, s, ApplyB(original, s, e))
  {
  }

  lemma ClosingStepB(original: HostInfo, s: State, e: Env)
    requires 0 <= s.numTasks && !s.fault && InvB(original, s)
    requires s.b.pc.BCleanUp? || s.b.pc.BCancelledCleanUp? || s.b.pc.BRelease? || s.b.pc.BPublish?
    ensures KeptByB(original, s, ApplyB(original, s, e))
  {
  }

  lemma StepBKeeps(original: HostInfo, s: State, e: Env)
    requires 0 <= s.numTasks && !s.fault && InvB(original, s)
    ensures KeptByB(original, s, ApplyB(original, s, e))
  {
    var pc := s.b.pc;
    if pc.BLoop? || pc.BReader? || pc.BRefresh? || pc.BMark? {
      QuietStepB(original, s, e);
    } else if pc.BTest? || pc.BTopology? {
      AskingStepB(original, s, e);
    } else if pc.BGetReader? {
      GettingStepB(original, s, e);
    } else if pc.BConnectWriter? {
      ConnectingStepB(original, s, e);
    } else if pc.BCleanUp? || pc.BCancelledCleanUp? || pc.BRelease? || pc.BPublish? {
      ClosingStepB(original, s, e);
    }
  }

  lemma ResultOfAStays(original: HostInfo, s: State, e: Env)
    requires InvCaller(s)
    ensures InvCaller(ApplyA(original, s, e))
  {
    match s.a.pc
    case ALoop =>
    case AConnect =>
    case ATopology =>
    case AReleaseAndRetry =>
    case ACheck(_) =>
    case APublish(_) =>
    case AMark =>
    case ARelease =>
    case ADone =>
    case AThrew =>
  }

  lemma ResultOfBStays(original: HostInfo, s: State, e: Env)
    requires InvCaller(s)
    ensures InvCaller(ApplyB(original, s, e))
  {
    match s.b.pc
    case BLoop =>
    case BTest =>
    case BReader =>
    case BGetReader =>
    case BRefresh =>
    case BTopology =>
    case BConnectWriter(_) =>
    case BCleanUp =>
    case BPublish =>
    case BMark =>
    case BCancelledCleanUp =>
    case BRelease =>
    case BDone =>
    case BThrew =>
  }

  lemma CallerKeeps(original: HostInfo, s: State, e: Env)
    requires Inv(original, s)
    ensures Inv(original, ApplyCaller(s, e))
  {
    var t := ApplyCaller(s, e);
    FrameA(original, s, t);
    FrameB(original, s, t);
  }

  lemma InvAfterA(original: HostInfo, s: State, e: Env)
    requires Inv(original, s)
    ensures Inv(original, ApplyA(original, s, e))
  {
    StepAKeeps(original, s, e);
    FrameB(original, s, ApplyA(original, s, e));
    ResultOfAStays(original, s, e);
  }

  lemma InvAfterB(original: HostInfo, s: State, e: Env)
    requires Inv(original, s)
    ensures Inv(original, ApplyB(original, s, e))
  {
    StepBKeeps(original, s, e);
    FrameA(original, s, ApplyB(original, s, e));
    ResultOfBStays(original, s, e);
  }

  lemma StepKeeps(original: HostInfo, s: State, step: Step)
    requires Inv(original, s)
    ensures Inv(original, Apply(original, s, step))
  {
    match step
    case StepA(e) => InvAfterA(original, s, e);
    case StepB(e) => InvAfterB(original, s, e);
    case StepCaller(e) => CallerKeeps(original, s, e);
  }

  lemma {:induction false} Reachable(original: HostInfo, s: State, steps: seq<Step>)
    requires Inv(original, s)
    ensures Inv(original, Run(original, s, steps))
  {
    if steps != [] {
      var before := Run(original, s, steps[..|steps| - 1]);
      Reachable(original, s, steps[..|steps| - 1]);
      StepKeeps(original, before, steps[|steps| - 1]);
    }
  }

  /**
   Failover is launched exactly for a topology that lists a writer, whose first one counts as the original writer; hosts
   without a writer make it throw, and without any host it is refused.
   */
  lemma LaunchedExactlyWhen(topology: Option<Topology>)
    ensures Failover(topology).Launched? <==> topology.Some? && topology.value.writers != []
    ensures Failover(topology).LaunchThrew? <==>
              topology.Some? && topology.value.writers == [] && topology.value.readers != []
    ensures Failover(topology).Refused? ==> Failover(topology).result == NOT_CONNECTED
    ensures Failover(topology).Launched? ==>
              Failover(topology) == Launched(topology.value.writers[0], Start(topology.value))
  {
  }

  // ----- results and memory safety

  /**
   In every interleaving, a connected result handed to the caller carries a published connection whose host is the
   writer of the topology returned with it; the host counts as new exactly when that writer is not the original one.
   */
  lemma ReturnedResultIsSound(topology: Topology, steps: seq<Step>)
    requires Failover(Some(topology)).Launched?
    ensures var original := topology.writers[0];
            var s := Run(original, Start(topology), steps);
            s.caller.pc.Returned? ==> Sound(original, s, s.caller.pc.result)
  {
    Reachable(topology.writers[0], Start(topology), steps);
  }

  /** No connection is used, published or released unless it is open: in particular none is released twice. */
  lemma NoConnectionIsMisused(topology: Topology, steps: seq<Step>)
    requires Failover(Some(topology)).Launched?
    ensures !Run(topology.writers[0], Start(topology), steps).fault
  {
    Reachable(topology.writers[0], Start(topology), steps);
  }

  lemma OnlyOpenChangeA(original: HostInfo, s: State, e: Env, i: nat)
    requires !s.fault && !ApplyA(original, s, e).fault
    requires i < |s.conns| && s.conns[i].status != Open
    ensures i < |ApplyA(original, s, e).conns| && ApplyA(original, s, e).conns[i] == s.conns[i]
  {
    match s.a.pc
    case ALoop =>
    case AConnect =>
    case ATopology =>
    case AReleaseAndRetry =>
    case ACheck(_) =>
    case APublish(_) =>
    case AMark =>
    case ARelease =>
    case ADone =>
    case AThrew =>
  }

  lemma OnlyOpenChangeB(original: HostInfo, s: State, e: Env, i: nat)
    requires !s.fault && !ApplyB(original, s, e).fault
    requires i < |s.conns| && s.conns[i].status != Open
    ensures i < |ApplyB(original, s, e).conns| && ApplyB(original, s, e).conns[i] == s.conns[i]
  {
    match s.b.pc
    case BLoop =>
    case BTest =>
    case BReader =>
    case BGetReader =>
    case BRefresh =>
    case BTopology =>
    case BConnectWriter(_) =>
    case BCleanUp =>
    case BPublish =>
    case BMark =>
    case BCancelledCleanUp =>
    case BRelease =>
    case BDone =>
    case BThrew =>
  }

  lemma OnlyOpenChange(original: HostInfo, s: State, step: Step, i: nat)
    requires !s.fault && !Apply(original, s, step).fault
    requires i < |s.conns| && s.conns[i].status != Open
    ensures i < |Apply(original, s, step).conns| && Apply(original, s, step).conns[i] == s.conns[i]
  {
    match step
    case StepA(e) => OnlyOpenChangeA(original, s, e, i);
    case StepB(e) => OnlyOpenChangeB(original, s, e, i);
    case StepCaller(e) =>
  }

  /** A connection that left the open state keeps its final state, so a published one is never released. */
  lemma {:induction false} FinalStatusStays(original: HostInfo, s: State, steps: seq<Step>, i: nat)
    requires Inv(original, s)
    requires i < |s.conns| && s.conns[i].status != Open
    ensures i < |Run(original, s, steps).conns| && Run(original, s, steps).conns[i] == s.conns[i]
  {
    if steps != [] {
      var init := steps[..|steps| - 1];
      FinalStatusStays(original, s, init, i);
      Reachable(original, s, init);
      StepKeeps(original, Run(original, s, init), steps[|steps| - 1]);
      OnlyOpenChange(original, Run(original, s, init), steps[|steps| - 1], i);
    }
  }

  // ----- what the caller returns

  /** The caller asks a task that has ended with a connection. */
  predicate HandsOut(s: State, step: Step, task: Task) {
    && step.StepCaller?
    && match task
       case TaskA => s.caller.pc.PollA? && s.a.pc.ADone? && s.a.result.connected
       case TaskB => s.caller.pc.PollB? && s.b.pc.BDone? && s.b.result.connected
  }

  predicate Ended(s: State, task: Task) {
    match task
    case TaskA => s.a.pc.ADone? || s.a.pc.AThrew?
    case TaskB => s.b.pc.BDone? || s.b.pc.BThrew?
  }

  /** The caller comes to a task that has ended. */
  predicate Asks(s: State, step: Step, task: Task) {
    step.StepCaller? && Ended(s, task) && if task == TaskA then s.caller.pc.PollA? else s.caller.pc.PollB?
  }

  predicate EverAsks(original: HostInfo, s: State, steps: seq<Step>, task: Task) {
    steps != [] &&
    var init := steps[..|steps| - 1];
    EverAsks(original, s, init, task) || Asks(Run(original, s, init), steps[|steps| - 1], task)
  }

  /** A future is valid until its task has been asked. */
  lemma ValidStep(original: HostInfo, s: State, step: Step)
    ensures var c := Apply(original, s, step).caller;
            && (c.validA <==> s.caller.validA && !Asks(s, step, TaskA))
            && (c.validB <==> s.caller.validB && !Asks(s, step, TaskB))
  {
    match step
    case StepA(e) => CallerUntouchedByA(original, s, e);
    case StepB(e) => CallerUntouchedByB(original, s, e);
    case StepCaller(e) =>
  }

  lemma {:induction false} ValidAlong(original: HostInfo, s: State, steps: seq<Step>)
    ensures var c := Run(original, s, steps).caller;
            && (c.validA <==> s.caller.validA && !EverAsks(original, s, steps, TaskA))
            && (c.validB <==> s.caller.validB && !EverAsks(original, s, steps, TaskB))
  {
    if steps != [] {
      ValidAlong(original, s, steps[..|steps| - 1]);
      ValidStep(original, Run(original, s, steps[..|steps| - 1]), steps[|steps| - 1]);
    }
  }

  /** Both tasks have been read in vain, or the time has run out. */
  predicate GivesUp(s: State, step: Step) {
    && step.StepCaller?
    && (|| (s.caller.pc.PollTime? && step.env.expired)
        || (s.caller.pc.PollBoth? && !s.caller.validA && AInVain(s) && !s.caller.validB && BInVain(s)))
  }

  predicate EverHandsOut(original: HostInfo, s: State, steps: seq<Step>, task: Task) {
    steps != [] &&
    var init := steps[..|steps| - 1];
    EverHandsOut(original, s, init, task) || HandsOut(Run(original, s, init), steps[|steps| - 1], task)
  }

  predicate EverGivesUp(original: HostInfo, s: State, steps: seq<Step>) {
    steps != [] &&
    var init := steps[..|steps| - 1];
    EverGivesUp(original, s, init) || GivesUp(Run(original, s, init), steps[|steps| - 1])
  }

  /** What the caller returns, once it has, is what its decisive step found, and stays so. */
  ghost predicate Decided(s: State, a: bool, b: bool, gaveUp: bool) {
    && (s.caller.pc.Returned? && s.caller.pc.result.connected <==> a || b)
    && (a ==> s.a.pc.ADone? && s.a.result.connected && s.caller.pc == Returned(s.a.result))
    && (b ==> s.b.pc.BDone? && s.b.result.connected && s.caller.pc == Returned(s.b.result))
    && (s.caller.pc == Returned(NOT_CONNECTED) <==> gaveUp)
  }

  lemma DecidedStepOfTask(original: HostInfo, s: State, step: Step, a: bool, b: bool, gaveUp: bool)
    requires Decided(s, a, b, gaveUp) && !step.StepCaller?
    ensures Decided(Apply(original, s, step), a, b, gaveUp)
  {
    match step
    case StepA(e) =>
      assert s.a.pc.ADone? ==> ApplyA(original, s, e) == s;
      CallerUntouchedByA(original, s, e);
    case StepB(e) =>
      assert s.b.pc.BDone? ==> ApplyB(original, s, e) == s;
      CallerUntouchedByB(original, s, e);
  }

  lemma CallerUntouchedByA(original: HostInfo, s: State, e: Env)
    ensures var t := ApplyA(original, s, e); t.caller == s.caller && t.b == s.b
  {
    match s.a.pc
    case ALoop =>
    case AConnect =>
    case ATopology =>
    case AReleaseAndRetry =>
    case ACheck(_) =>
    case APublish(_) =>
    case AMark =>
    case ARelease =>
    case ADone =>
    case AThrew =>
  }

  lemma CallerUntouchedByB(original: HostInfo, s: State, e: Env)
    ensures var t := ApplyB(original, s, e); t.caller == s.caller && t.a == s.a
  {
    match s.b.pc
    case BLoop =>
    case BTest =>
    case BReader =>
    case BGetReader =>
    case BRefresh =>
    case BTopology =>
    case BConnectWriter(_) =>
    case BCleanUp =>
    case BPublish =>
    case BMark =>
    case BCancelledCleanUp =>
    case BRelease =>
    case BDone =>
    case BThrew =>
  }

  lemma DecidedStepOfCaller(original: HostInfo, s: State, step: Step, a: bool, b: bool, gaveUp: bool)
    requires Inv(original, s) && Decided(s, a, b, gaveUp) && step.StepCaller?
    ensures Decided(Apply(original, s, step), a || HandsOut(s, step, TaskA), b || HandsOut(s, step, TaskB),
                    gaveUp || GivesUp(s, step))
  {
    match s.caller.pc
    case Waiting =>
    case PollA =>
    case PollB =>
    case PollBoth =>
    case PollTime =>
    case Returned(_) =>
    case CallerThrew =>
  }

  lemma {:induction false} DecidedAlong(original: HostInfo, s: State, steps: seq<Step>)
    requires Inv(original, s) && s.caller.pc.Waiting?
    ensures Decided(Run(original, s, steps), EverHandsOut(original, s, steps, TaskA), EverHandsOut(original, s, steps, TaskB),
                    EverGivesUp(original, s, steps))
  {
    if steps != [] {
      var init, last := steps[..|steps| - 1], steps[|steps| - 1];
      var a, b := EverHandsOut(original, s, init, TaskA), EverHandsOut(original, s, init, TaskB);
      DecidedAlong(original, s, init);
      Reachable(original, s, init);
      if last.StepCaller? {
        DecidedStepOfCaller(original, Run(original, s, init), last, a, b, EverGivesUp(original, s, init));
      } else {
        DecidedStepOfTask(original, Run(original, s, init), last, a, b, EverGivesUp(original, s, init));
      }
    }
  }

  /**
   Over every run: the caller has returned a connected result if and only if at some step it asked a task that had ended
   with one, and then it is that task's; it has returned "not connected" if and only if it had read both results in vain
   or its time had run out. A result counts as read exactly from the first step on that asked its task after its end.
   */
  lemma CallerReturnsExactlyWhat(topology: Topology, steps: seq<Step>)
    requires Failover(Some(topology)).Launched?
    ensures var w, s := topology.writers[0], Start(topology);
            var t, pc := Run(w, s, steps), Run(w, s, steps).caller.pc;
            && (pc.Returned? && pc.result.connected <==> EverHandsOut(w, s, steps, TaskA) || EverHandsOut(w, s, steps, TaskB))
            && (EverHandsOut(w, s, steps, TaskA) ==> pc == Returned(t.a.result))
            && (EverHandsOut(w, s, steps, TaskB) ==> pc == Returned(t.b.result))
            && (pc == Returned(NOT_CONNECTED) <==> EverGivesUp(w, s, steps))
            && (t.caller.validA <==> !EverAsks(w, s, steps, TaskA))
            && (t.caller.validB <==> !EverAsks(w, s, steps, TaskB))
  {
    DecidedAlong(topology.writers[0], Start(topology), steps);
    ValidAlong(topology.writers[0], Start(topology), steps);
  }

  // ----- the caller comes back

  function StepsOfCaller(steps: seq<Step>): nat {
    if steps == [] then 0
    else StepsOfCaller(steps[..|steps| - 1]) + (if steps[|steps| - 1].StepCaller? then 1 else 0)
  }

  /** How many more steps of its own the caller may take once the time has run out. */
  function RankExpired(pc: PcCaller): nat {
    match pc
    case Waiting => 5
    case PollA => 4
    case PollB => 3
    case PollBoth => 2
    case PollTime => 1
    case Returned(_) => 0
    case CallerThrew => 0
  }

  /** The same once both tasks have ended, whatever the clock says. */
  function RankEnded(c: Caller): nat {
    match c.pc
    case Waiting => 4
    case PollA => 3
    case PollB => if c.validA then 6 else 2
    case PollBoth => if c.validA || c.validB then 5 else 1
    case PollTime => 4
    case Returned(_) => 0
    case CallerThrew => 0
  }

  lemma CallerRanksFall(original: HostInfo, s: State, e: Env)
    ensures var c, d := s.caller, Apply(original, s, StepCaller(e)).caller;
            && (e.expired ==> RankExpired(d.pc) < RankExpired(c.pc) || RankExpired(d.pc) == 0)
            && (Ended(s, TaskA) && Ended(s, TaskB) ==> RankEnded(d) < RankEnded(c) || RankEnded(d) == 0)
  {
    match s.caller.pc
    case Waiting =>
    case PollA =>
    case PollB =>
    case PollBoth =>
    case PollTime =>
    case Returned(_) =>
    case CallerThrew =>
  }

  lemma {:induction false} ExpiredRanksFall(original: HostInfo, s: State, steps: seq<Step>)
    requires forall step | step in steps :: step.env.expired
    ensures var c, d := s.caller, Run(original, s, steps).caller;
            RankExpired(d.pc) == 0 || RankExpired(d.pc) + StepsOfCaller(steps) <= RankExpired(c.pc)
  {
    if steps != [] {
      var init, last := steps[..|steps| - 1], steps[|steps| - 1];
      ExpiredRanksFall(original, s, init);
      assert last in steps;
      match last
      case StepA(e) => CallerUntouchedByA(original, Run(original, s, init), e);
      case StepB(e) => CallerUntouchedByB(original, Run(original, s, init), e);
      case StepCaller(e) => CallerRanksFall(original, Run(original, s, init), e);
    }
  }

  lemma {:induction false} EndedRanksFall(original: HostInfo, s: State, steps: seq<Step>)
    requires Ended(s, TaskA) && Ended(s, TaskB)
    ensures var d := Run(original, s, steps);
            && Ended(d, TaskA) && Ended(d, TaskB)
            && (RankEnded(d.caller) == 0 || RankEnded(d.caller) + StepsOfCaller(steps) <= RankEnded(s.caller))
  {
    if steps != [] {
      var init, last := steps[..|steps| - 1], steps[|steps| - 1];
      EndedRanksFall(original, s, init);
      if last.StepCaller? {
        CallerRanksFall(original, Run(original, s, init), last.env);
      } else {
        EndedStays(original, Run(original, s, init), last);
      }
    }
  }

  lemma EndedStays(original: HostInfo, s: State, step: Step)
    requires Ended(s, TaskA) && Ended(s, TaskB) && !step.StepCaller?
    ensures Apply(original, s, step) == s
  {
  }

  /**
   Failover comes back: from any state, the caller has returned or thrown after five steps of its own when the time has
   run out, and after six, whatever the clock says, when both tasks have ended.
   */
  lemma CallerComesBack(original: HostInfo, s: State, steps: seq<Step>)
    ensures (forall step | step in steps :: step.env.expired) && StepsOfCaller(steps) >= 5 ==>
              !Polling(Run(original, s, steps).caller.pc)
    ensures Ended(s, TaskA) && Ended(s, TaskB) && StepsOfCaller(steps) >= 6 ==> !Polling(Run(original, s, steps).caller.pc)
  {
    if forall step | step in steps :: step.env.expired {
      ExpiredRanksFall(original, s, steps);
    }
    if Ended(s, TaskA) && Ended(s, TaskB) {
      EndedRanksFall(original, s, steps);
    }
  }

  // ----- exceptions

  predicate WithoutWriter(topology: Topology) {
    topology.TotalHosts() > 0 && topology.GetWriter().None?
  }

  /** Task B connects, which it does unless the candidate is the reader it already has, and the connect raises an exception. */
  predicate BConnectRaises(s: State, e: Env) {
    && s.b.pc.BConnectWriter? && e.connectThrows
    && s.b.readerHost.Some? && !IsHostSame(s.b.pc.candidate, s.b.readerHost.value)
  }

  /**
   The step makes its task throw: a topology with hosts but no writer, an exception of a connect, or one of the reader
   search.
   */
  predicate Throws(original: HostInfo, s: State, step: Step) {
    match step
    case StepA(e) =>
      || (s.a.pc.ATopology? && original.instanceName != "" && WithoutWriter(e.topology))
      || (s.a.pc.AConnect? && e.connectThrows)
    case StepB(e) =>
      || (s.b.pc.BTopology? && WithoutWriter(e.topology))
      || (s.b.pc.BGetReader? && e.search.Thrown?)
      || BConnectRaises(s, e)
    case StepCaller(_) => false
  }

  predicate TaskThrew(s: State) {
    s.a.pc.AThrew? || s.b.pc.BThrew?
  }

  /** The caller asks for the result of a task that threw. */
  predicate ReadsException(s: State, step: Step) {
    && step.StepCaller?
    && (|| (s.caller.pc.PollA? && s.caller.validA && s.a.pc.AThrew?)
        || (s.caller.pc.PollB? && s.caller.validB && s.b.pc.BThrew?))
  }

  lemma TaskStepThrowsExactlyWhen(original: HostInfo, s: State, step: Step)
    ensures TaskThrew(Apply(original, s, step)) <==> TaskThrew(s) || Throws(original, s, step)
  {
  }

  lemma CallerStepThrowsExactlyWhen(original: HostInfo, s: State, step: Step)
    ensures Apply(original, s, step).caller.pc.CallerThrew? <==> s.caller.pc.CallerThrew? || ReadsException(s, step)
  {
  }

  /** Some step of the run makes its task throw. */
  predicate EverThrows(original: HostInfo, s: State, steps: seq<Step>) {
    steps != [] &&
    var init := steps[..|steps| - 1];
    EverThrows(original, s, init) || Throws(original, Run(original, s, init), steps[|steps| - 1])
  }

  predicate EverReadsException(original: HostInfo, s: State, steps: seq<Step>) {
    steps != [] &&
    var init := steps[..|steps| - 1];
    EverReadsException(original, s, init) || ReadsException(Run(original, s, init), steps[|steps| - 1])
  }

  /**
   Over every run: a task has thrown if and only if some step gave it a topology with hosts and no writer or an
   exception of a connect or of its reader search, and failover() throws if and only if it asks such a task for its result.
   */
  lemma {:induction false} RunThrowsExactlyWhen(original: HostInfo, s: State, steps: seq<Step>)
    requires !TaskThrew(s) && !s.caller.pc.CallerThrew?
    ensures TaskThrew(Run(original, s, steps)) <==> EverThrows(original, s, steps)
    ensures Run(original, s, steps).caller.pc.CallerThrew? <==> EverReadsException(original, s, steps)
    ensures EverReadsException(original, s, steps) ==> EverThrows(original, s, steps)
  {
    if steps != [] {
      RunThrowsExactlyWhen(original, s, steps[..|steps| - 1]);
      TaskStepThrowsExactlyWhen(original, Run(original, s, steps[..|steps| - 1]), steps[|steps| - 1]);
      CallerStepThrowsExactlyWhen(original, Run(original, s, steps[..|steps| - 1]), steps[|steps| - 1]);
    }
  }

  predicate WriterKnown(step: Step) {
    !WithoutWriter(step.env.topology)
  }

  /** Nothing the task relies on raises an exception. */
  predicate NothingRaised(step: Step) {
    !step.env.search.Thrown? && !step.env.connectThrows
  }

  lemma {:induction false} NothingThrows(original: HostInfo, s: State, steps: seq<Step>)
    requires forall step | step in steps :: WriterKnown(step) && NothingRaised(step)
    ensures !EverThrows(original, s, steps)
  {
    if steps != [] {
      NothingThrows(original, s, steps[..|steps| - 1]);
      assert steps[|steps| - 1] in steps;
    }
  }

  /** When every topology with hosts names a writer and neither a connect nor a reader search throws, nothing does. */
  lemma {:induction false} NoThrow(original: HostInfo, s: State, steps: seq<Step>)
    requires !TaskThrew(s) && !s.caller.pc.CallerThrew?
    requires forall step | step in steps :: WriterKnown(step) && NothingRaised(step)
    ensures !TaskThrew(Run(original, s, steps)) && !Run(original, s, steps).caller.pc.CallerThrew?
  {
    RunThrowsExactlyWhen(original, s, steps);
    NothingThrows(original, s, steps);
  }

  lemma RunOneMore(original: HostInfo, s: State, steps: seq<Step>, step: Step)
    ensures Run(original, s, steps + [step]) == Apply(original, Run(original, s, steps), step)
  {
    assert (steps + [step])[..|steps|] == steps;
  }

  /**
   The exception of a reader task leaves failover() although every topology names a writer: a paired connect race can
   end in an exception, task B meets that very outcome, and the caller reads it.
   */
  lemma SearchExceptionLeavesFailover(topology: Topology, first: HostInfo, second: HostInfo)
    returns (race: Race.State, steps: seq<Step>)
    requires Failover(Some(topology)).Launched?
    ensures Race.Reaches(Race.Start(first, Some(second)), race) && race.poll == Race.Left(Race.Thrown)
    ensures forall step | step in steps ::
              WriterKnown(step) && !step.env.connectThrows && step.env.search == race.poll.outcome
    ensures Run(topology.writers[0], Start(topology), steps).caller.pc.CallerThrew?
  {
    Race.ExceptionCanHideAReader(first, second);
    race :| Race.Reaches(Race.Start(first, Some(second)), race) && race.poll == Race.Left(Race.Thrown);
    var w, s, e := topology.writers[0], Start(topology), ANY_ENV.(search := race.poll.outcome);
    steps := [];
    var i := 0;
    while i < 4
      invariant 0 <= i <= 4
      invariant forall step | step in steps :: step.env == e
      invariant var t := Run(w, s, steps);
                && t.caller == s.caller && t.a == s.a && !FailoverSync.IsDone(t.numTasks) && t.b.newConnection.None?
                && t.b.pc == if i == 0 then BLoop else if i == 1 then BTest else if i == 2 then BReader
                             else if i == 3 then BGetReader else BThrew
    {
      RunOneMore(w, s, steps, StepB(e));
      steps := steps + [StepB(e)];
      i := i + 1;
    }
    while i < 7
      invariant 4 <= i <= 7
      invariant forall step | step in steps :: step.env == e
      invariant var t := Run(w, s, steps);
                && t.b.pc.BThrew? && t.a.pc.ALoop? && (i < 7 ==> t.caller.validB)
                && if i == 4 then t.caller.pc.Waiting? else if i == 5 then t.caller.pc.PollA?
                   else if i == 6 then t.caller.pc.PollB? else t.caller.pc.CallerThrew?
    {
      RunOneMore(w, s, steps, StepCaller(e));
      steps := steps + [StepCaller(e)];
      i := i + 1;
    }
  }

  // ----- topologies

  /** Every topology a run has stored has some given property. */
  ghost predicate AllTopologies(s: State, p: Topology -> bool) {
    && (s.a.pc.ACheck? || s.a.pc.APublish? ==> p(s.a.pc.latest))
    && p(s.b.topology)
    && (s.a.result.topology.Some? ==> p(s.a.result.topology.value))
    && (s.b.result.topology.Some? ==> p(s.b.result.topology.value))
    && (s.caller.pc.Returned? && s.caller.pc.result.topology.Some? ==> p(s.caller.pc.result.topology.value))
  }

  lemma TopologySourcesOfA(original: HostInfo, s: State, e: Env)
    ensures var t := ApplyA(original, s, e);
            && t.b == s.b && t.caller == s.caller
            && (t.a.pc.ACheck? ==> t.a.pc.latest == e.topology)
            && (t.a.pc.APublish? ==> s.a.pc == ACheck(t.a.pc.latest))
            && (t.a.result == s.a.result || (s.a.pc.APublish? && t.a.result.topology == Some(s.a.pc.latest)))
  {
    match s.a.pc
    case ALoop =>
    case AConnect =>
    case ATopology =>
    case AReleaseAndRetry =>
    case ACheck(_) =>
    case APublish(_) =>
    case AMark =>
    case ARelease =>
    case ADone =>
    case AThrew =>
  }

  lemma TopologiesOfA(original: HostInfo, s: State, e: Env, p: Topology -> bool)
    requires AllTopologies(s, p) && p(e.topology)
    ensures AllTopologies(ApplyA(original, s, e), p)
  {
    TopologySourcesOfA(original, s, e);
  }

  lemma TopologySourcesOfB(original: HostInfo, s: State, e: Env)
    ensures var t := ApplyB(original, s, e);
            && t.a == s.a && t.caller == s.caller
            && (t.b.topology == s.b.topology || t.b.topology == e.topology)
            && (t.b.result == s.b.result || t.b.result.topology == Some(s.b.topology))
  {
    match s.b.pc
    case BLoop =>
    case BTest =>
    case BReader =>
    case BGetReader =>
    case BRefresh =>
    case BTopology =>
    case BConnectWriter(_) =>
    case BCleanUp =>
    case BPublish =>
    case BMark =>
    case BCancelledCleanUp =>
    case BRelease =>
    case BDone =>
    case BThrew =>
  }

  lemma TopologiesOfB(original: HostInfo, s: State, e: Env, p: Topology -> bool)
    requires AllTopologies(s, p) && p(e.topology)
    ensures AllTopologies(ApplyB(original, s, e), p)
  {
    var t := ApplyB(original, s, e);
    TopologySourcesOfB(original, s, e);
    assert t.b.result.topology.Some? && t.b.result != s.b.result ==> p(t.b.result.topology.value);
  }

  /** Topologies are only handed on: what holds of the first one and of every answer holds of every stored one. */
  lemma {:induction false} TopologiesAreHandedOn(original: HostInfo, s: State, steps: seq<Step>, p: Topology -> bool)
    requires AllTopologies(s, p)
    requires forall step | step in steps :: p(step.env.topology)
    ensures AllTopologies(Run(original, s, steps), p)
  {
    if steps != [] {
      TopologiesAreHandedOn(original, s, steps[..|steps| - 1], p);
      var t := Run(original, s, steps[..|steps| - 1]);
      match steps[|steps| - 1]
      case StepA(e) => TopologiesOfA(original, t, e, p);
      case StepB(e) => TopologiesOfB(original, t, e, p);
      case StepCaller(e) =>
    }
  }

  // ----- completion

  /** How many of its own steps a task may still take once the process is completed. */
  function RankA(pc: PcA): nat {
    match pc
    case ADone => 0
    case AThrew => 0
    case AMark => 1
    case ARelease => 1
    case ALoop => 2
    case APublish(_) => 2
    case ACheck(_) => 3
    case AReleaseAndRetry => 3
    case ATopology => 4
    case AConnect => 5
  }

  function RankB(pc: PcB): nat {
    match pc
    case BDone => 0
    case BThrew => 0
    case BMark => 1
    case BRelease => 1
    case BPublish => 2
    case BCancelledCleanUp => 2
    case BLoop => 3
    case BCleanUp => 4
    case BRefresh => 5
    case BReader => 6
    case BConnectWriter(_) => 6
    case BTopology => 7
    case BGetReader => 7
    case BTest => 7
  }

  function StepsOfA(steps: seq<Step>): nat {
    if steps == [] then 0
    else StepsOfA(steps[..|steps| - 1]) + (if steps[|steps| - 1].StepA? then 1 else 0)
  }

  function StepsOfB(steps: seq<Step>): nat {
    if steps == [] then 0
    else StepsOfB(steps[..|steps| - 1]) + (if steps[|steps| - 1].StepB? then 1 else 0)
  }

  lemma RankAFalls(original: HostInfo, s: State, e: Env)
    requires FailoverSync.IsDone(s.numTasks)
    ensures var t := ApplyA(original, s, e);
            && FailoverSync.IsDone(t.numTasks) && t.b.pc == s.b.pc
            && (RankA(t.a.pc) < RankA(s.a.pc) || RankA(t.a.pc) == 0)
  {
    match s.a.pc
    case ALoop =>
    case AConnect =>
    case ATopology =>
    case AReleaseAndRetry =>
    case ACheck(_) =>
    case APublish(_) =>
    case AMark =>
    case ARelease =>
    case ADone =>
    case AThrew =>
  }

  lemma RankBFalls(original: HostInfo, s: State, e: Env)
    requires FailoverSync.IsDone(s.numTasks)
    requires s.b.pc.BConnectWriter? ==> s.b.readerHost.Some?
    ensures var t := ApplyB(original, s, e);
            && FailoverSync.IsDone(t.numTasks) && t.a.pc == s.a.pc
            && (RankB(t.b.pc) < RankB(s.b.pc) || RankB(t.b.pc) == 0)
  {
    match s.b.pc
    case BLoop =>
    case BTest =>
    case BReader =>
    case BGetReader =>
    case BRefresh =>
    case BTopology =>
    case BConnectWriter(_) =>
    case BCleanUp =>
    case BPublish =>
    case BMark =>
    case BCancelledCleanUp =>
    case BRelease =>
    case BDone =>
    case BThrew =>
  }

  lemma RanksFall(original: HostInfo, s: State, step: Step)
    requires Inv(original, s) && FailoverSync.IsDone(s.numTasks)
    ensures var t := Apply(original, s, step);
            && FailoverSync.IsDone(t.numTasks)
            && (RankA(t.a.pc) == 0 || RankA(t.a.pc) + (if step.StepA? then 1 else 0) <= RankA(s.a.pc))
            && (RankB(t.b.pc) == 0 || RankB(t.b.pc) + (if step.StepB? then 1 else 0) <= RankB(s.b.pc))
  {
    match step
    case StepA(e) => RankAFalls(original, s, e);
    case StepB(e) => RankBFalls(original, s, e);
    case StepCaller(e) =>
  }

  lemma {:induction false} RanksFallAlong(original: HostInfo, s: State, steps: seq<Step>)
    requires Inv(original, s) && FailoverSync.IsDone(s.numTasks)
    ensures var t := Run(original, s, steps);
            && FailoverSync.IsDone(t.numTasks)
            && (RankA(t.a.pc) == 0 || RankA(t.a.pc) + StepsOfA(steps) <= RankA(s.a.pc))
            && (RankB(t.b.pc) == 0 || RankB(t.b.pc) + StepsOfB(steps) <= RankB(s.b.pc))
  {
    if steps != [] {
      var init := steps[..|steps| - 1];
      RanksFallAlong(original, s, init);
      Reachable(original, s, init);
      RanksFall(original, Run(original, s, init), steps[|steps| - 1]);
    }
  }

  /**
   Completion is permanent, and no loop of either task begins another round after it: whatever the others do,
   task A ends within five more steps of its own and task B within seven.
   */
  lemma CompletionEndsTheTasks(original: HostInfo, s: State, steps: seq<Step>)
    requires Inv(original, s) && FailoverSync.IsDone(s.numTasks)
    ensures var t := Run(original, s, steps);
            && FailoverSync.IsDone(t.numTasks)
            && (StepsOfA(steps) >= 5 ==> t.a.pc.ADone? || t.a.pc.AThrew?)
            && (StepsOfB(steps) >= 7 ==> t.b.pc.BDone? || t.b.pc.BThrew?)
  {
    RanksFallAlong(original, s, steps);
  }

  // ----- who may still publish

  ghost predicate Reaches(original: HostInfo, s: State, t: State) {
    exists steps :: Run(original, s, steps) == t
  }

  lemma ReachesItself(original: HostInfo, s: State)
    ensures Reaches(original, s, s)
  {
    assert Run(original, s, []) == s;
  }

  lemma ReachesNext(original: HostInfo, s: State, t: State, step: Step)
    requires Reaches(original, s, t)
    ensures Reaches(original, s, Apply(original, t, step))
  {
    var steps :| Run(original, s, steps) == t;
    assert (steps + [step])[..|steps + [step]| - 1] == steps;
    assert Run(original, s, steps + [step]) == Apply(original, t, step);
  }

  /** A task that has passed its last look at the counter before publishing. */
  predicate PastCheckA(a: StateA) {
    a.pc.APublish?
  }

  predicate PastCheckB(b: StateB) {
    b.pc.BPublish? || (b.pc.BTest? && b.newConnection.Some?)
  }

  /** A task that has not passed its last look after completion and has not published. */
  predicate BarredA(s: State) {
    !PastCheckA(s.a) && !s.a.result.connected
  }

  predicate BarredB(s: State) {
    !PastCheckB(s.b) && !s.b.result.connected
  }

  lemma BarredInA(original: HostInfo, s: State, e: Env)
    requires FailoverSync.IsDone(s.numTasks)
    ensures var t := ApplyA(original, s, e);
            FailoverSync.IsDone(t.numTasks) && t.b == s.b && (BarredA(s) ==> BarredA(t))
  {
  }

  lemma BarredInB(original: HostInfo, s: State, e: Env)
    requires FailoverSync.IsDone(s.numTasks)
    ensures var t := ApplyB(original, s, e);
            FailoverSync.IsDone(t.numTasks) && t.a == s.a && (BarredB(s) ==> BarredB(t))
  {
    match s.b.pc
    case BLoop =>
    case BTest =>
    case BReader =>
    case BGetReader =>
    case BRefresh =>
    case BTopology =>
    case BConnectWriter(_) =>
    case BCleanUp =>
    case BPublish =>
    case BMark =>
    case BCancelledCleanUp =>
    case BRelease =>
    case BDone =>
    case BThrew =>
  }

  lemma BarredStep(original: HostInfo, s: State, step: Step)
    requires FailoverSync.IsDone(s.numTasks)
    ensures var t := Apply(original, s, step);
            FailoverSync.IsDone(t.numTasks) && (BarredA(s) ==> BarredA(t)) && (BarredB(s) ==> BarredB(t))
  {
    match step
    case StepA(e) => BarredInA(original, s, e);
    case StepB(e) => BarredInB(original, s, e);
    case StepCaller(e) =>
  }

  lemma {:induction false} Barred(original: HostInfo, s: State, steps: seq<Step>)
    requires FailoverSync.IsDone(s.numTasks)
    ensures var t := Run(original, s, steps);
            FailoverSync.IsDone(t.numTasks) && (BarredA(s) ==> BarredA(t)) && (BarredB(s) ==> BarredB(t))
  {
    if steps != [] {
      Barred(original, s, steps[..|steps| - 1]);
      BarredStep(original, Run(original, s, steps[..|steps| - 1]), steps[|steps| - 1]);
    }
  }

  function Finds(host: HostInfo): Race.Outcome {
    Race.Connected(Race.ReaderResult(true, Some(host), Some(0)))
  }

  const ANY_ENV := Env(false, false, true, EMPTY_TOPOLOGY, Race.NotConnected, false)

  /**
   Completion bars every task from publishing except one that had already passed its last check: after completion
   a task can still publish if and only if it stands between that check and its publication.
   */
  lemma WhoMayPublishAfterCompletion(original: HostInfo, s: State)
    requires FailoverSync.IsDone(s.numTasks)
    ensures !s.a.result.connected ==>
              ((exists t :: Reaches(original, s, t) && t.a.result.connected) <==> PastCheckA(s.a))
    ensures !s.b.result.connected ==>
              ((exists t :: Reaches(original, s, t) && t.b.result.connected) <==> PastCheckB(s.b))
  {
    forall t | Reaches(original, s, t)
      ensures !s.a.result.connected && t.a.result.connected ==> PastCheckA(s.a)
      ensures !s.b.result.connected && t.b.result.connected ==> PastCheckB(s.b)
    {
      var steps :| Run(original, s, steps) == t;
      Barred(original, s, steps);
    }
    ReachesItself(original, s);
    if PastCheckA(s.a) {
      ReachesNext(original, s, s, StepA(ANY_ENV));
      assert Apply(original, s, StepA(ANY_ENV)).a.result.connected;
    }
    if PastCheckB(s.b) {
      var t := if s.b.pc.BTest? then Apply(original, s, StepB(ANY_ENV)) else s;
      ReachesNext(original, s, s, StepB(ANY_ENV));
      assert Reaches(original, s, t) && t.b.pc.BPublish?;
      ReachesNext(original, s, t, StepB(ANY_ENV));
      assert Apply(original, t, StepB(ANY_ENV)).b.result.connected;
    }
  }

  // ----- ownership

  /** Every open connection of A is the one it holds, and it holds none while it is about to connect. */
  ghost predicate AccountedA(s: State) {
    && (forall i | 0 <= i < |s.conns| && s.conns[i].owner == TaskA && s.conns[i].status == Open ::
          s.a.newConnection == Some(i) && !s.a.pc.ADone?)
    && (s.a.pc.ALoop? || s.a.pc.AConnect? ==> s.a.newConnection.None?)
  }

  ghost predicate AccountedB(s: State) {
    && (forall i | 0 <= i < |s.conns| && s.conns[i].owner == TaskB && s.conns[i].status == Open ::
          (s.b.newConnection == Some(i) || s.b.readerConnection == Some(i)) && !s.b.pc.BDone?)
    && (s.b.pc.BReader? || s.b.pc.BGetReader? ==> s.b.newConnection.None? && s.b.readerConnection.None?)
    && (s.b.pc.BRefresh? || s.b.pc.BTopology? || s.b.pc.BConnectWriter? ==> s.b.newConnection.None?)
  }

  lemma AccountsOfA(original: HostInfo, s: State, e: Env)
    requires InvA(original, s) && AccountedA(s) && e.alive
    ensures AccountedA(ApplyA(original, s, e))
  {
  }

  lemma OpeningAccounts(original: HostInfo, s: State, e: Env)
    requires InvB(original, s) && AccountedB(s) && e.alive
    requires s.b.pc.BGetReader? || s.b.pc.BConnectWriter?
    ensures AccountedB(ApplyB(original, s, e))
  {
  }

  lemma ClosingAccounts(original: HostInfo, s: State, e: Env)
    requires InvB(original, s) && AccountedB(s)
    requires s.b.pc.BCleanUp? || s.b.pc.BCancelledCleanUp? || s.b.pc.BRelease? || s.b.pc.BPublish?
    ensures AccountedB(ApplyB(original, s, e))
  {
  }

  lemma AccountsOfB(original: HostInfo, s: State, e: Env)
    requires InvB(original, s) && AccountedB(s) && e.alive
    ensures AccountedB(ApplyB(original, s, e))
  {
    if s.b.pc.BGetReader? || s.b.pc.BConnectWriter? {
      OpeningAccounts(original, s, e);
    } else if s.b.pc.BCleanUp? || s.b.pc.BCancelledCleanUp? || s.b.pc.BRelease? || s.b.pc.BPublish? {
      ClosingAccounts(original, s, e);
    }
  }

  lemma AccountsFrameA(s: State, t: State)
    requires AccountedA(s) && Untouched(s, t, TaskA) && t.a == s.a
    ensures AccountedA(t)
  {
  }

  lemma AccountsFrameB(s: State, t: State)
    requires AccountedB(s) && Untouched(s, t, TaskB) && t.b == s.b
    ensures AccountedB(t)
  {
  }

  lemma AccountsStep(original: HostInfo, s: State, step: Step)
    requires Inv(original, s) && AccountedA(s) && AccountedB(s) && step.env.alive
    ensures AccountedA(Apply(original, s, step)) && AccountedB(Apply(original, s, step))
  {
    match step
    case StepA(e) =>
      AccountsOfA(original, s, e);
      StepAKeeps(original, s, e);
      AccountsFrameB(s, ApplyA(original, s, e));
    case StepB(e) =>
      AccountsOfB(original, s, e);
      StepBKeeps(original, s, e);
      AccountsFrameA(s, ApplyB(original, s, e));
    case StepCaller(e) =>
      AccountsFrameA(s, ApplyCaller(s, e));
      AccountsFrameB(s, ApplyCaller(s, e));
  }

  lemma {:induction false} AccountsKept(original: HostInfo, s: State, steps: seq<Step>)
    requires Inv(original, s) && AccountedA(s) && AccountedB(s)
    requires forall step | step in steps :: step.env.alive
    ensures AccountedA(Run(original, s, steps)) && AccountedB(Run(original, s, steps))
  {
    if steps != [] {
      var init, last := steps[..|steps| - 1], steps[|steps| - 1];
      AccountsKept(original, s, init);
      Reachable(original, s, init);
      AccountsStep(original, Run(original, s, init), last);
    }
  }

  /**
   If every connect yields nothing or a connection that stays alive, then in every interleaving each connection
   a task received is released or published by the time the task returns.
   */
  lemma NothingIsLost(topology: Topology, steps: seq<Step>)
    requires Failover(Some(topology)).Launched?
    requires forall step | step in steps :: step.env.alive
    ensures var s := Run(topology.writers[0], Start(topology), steps);
            && (s.a.pc.ADone? ==> forall c | c in s.conns && c.owner == TaskA :: c.status != Open)
            && (s.b.pc.BDone? ==> forall c | c in s.conns && c.owner == TaskB :: c.status != Open)
  {
    AccountsKept(topology.writers[0], Start(topology), steps);
  }

  predicate IsOpen(s: State, owner: Task, i: nat) {
    i < |s.conns| && s.conns[i].owner == owner && s.conns[i].status == Open
  }

  /** A connection that task A received, is still open, and that the task does not hold any more. */
  ghost predicate LostA(s: State, i: nat) {
    IsOpen(s, TaskA, i) && s.a.newConnection != Some(i)
  }

  ghost predicate LostB(s: State, i: nat) {
    IsOpen(s, TaskB, i) && s.b.newConnection != Some(i) && s.b.readerConnection != Some(i)
  }

  /** The step overwrites the connection task A holds. */
  predicate DropsA(s: State, step: Step, i: nat) {
    step.StepA? && s.a.pc.AConnect? && !step.env.connectThrows && s.a.newConnection == Some(i)
  }

  /**
   The step overwrites a connection task B holds nowhere else: the reader connection by that to another reader, or the
   new connection by the next attempt. Or it receives a reader connection that is already dead and never stores it.
   */
  predicate DropsB(s: State, step: Step, i: nat) {
    && step.StepB?
    && (|| (s.b.pc.BGetReader? && FindsReader(step.env)
            && if step.env.alive then s.b.readerConnection == Some(i) && s.b.newConnection != Some(i) else i == |s.conns|)
        || (s.b.pc.BConnectWriter? && s.b.newConnection == Some(i) && s.b.readerConnection != Some(i)
            && !BConnectRaises(s, step.env)))
  }

  lemma LossesOfA(original: HostInfo, s: State, step: Step, i: nat)
    requires Inv(original, s)
    ensures LostA(Apply(original, s, step), i) <==> LostA(s, i) || DropsA(s, step, i)
  {
    match step
    case StepA(e) =>
    case StepB(e) => StepBKeeps(original, s, e);
    case StepCaller(e) =>
  }

  lemma LossesInOpening(original: HostInfo, s: State, e: Env, i: nat)
    requires !s.fault && InvB(original, s) && (s.b.pc.BGetReader? || s.b.pc.BConnectWriter?)
    ensures LostB(ApplyB(original, s, e), i) <==> LostB(s, i) || DropsB(s, StepB(e), i)
  {
  }

  lemma LossesInClosing(original: HostInfo, s: State, e: Env, i: nat)
    requires !s.fault && InvB(original, s)
    requires s.b.pc.BCleanUp? || s.b.pc.BCancelledCleanUp? || s.b.pc.BRelease? || s.b.pc.BPublish?
    ensures LostB(ApplyB(original, s, e), i) <==> LostB(s, i)
  {
  }

  lemma LossesInQuiet(original: HostInfo, s: State, e: Env, i: nat)
    requires !(s.b.pc.BGetReader? || s.b.pc.BConnectWriter?)
    requires !(s.b.pc.BCleanUp? || s.b.pc.BCancelledCleanUp? || s.b.pc.BRelease? || s.b.pc.BPublish?)
    ensures LostB(ApplyB(original, s, e), i) <==> LostB(s, i)
  {
    var t := ApplyB(original, s, e);
    assert t.conns == s.conns && t.b.newConnection == s.b.newConnection && t.b.readerConnection == s.b.readerConnection;
  }

  lemma LossesInB(original: HostInfo, s: State, e: Env, i: nat)
    requires Inv(original, s)
    ensures LostB(ApplyB(original, s, e), i) <==> LostB(s, i) || DropsB(s, StepB(e), i)
  {
    if s.b.pc.BGetReader? || s.b.pc.BConnectWriter? {
      LossesInOpening(original, s, e, i);
    } else if s.b.pc.BCleanUp? || s.b.pc.BCancelledCleanUp? || s.b.pc.BRelease? || s.b.pc.BPublish? {
      LossesInClosing(original, s, e, i);
    } else {
      LossesInQuiet(original, s, e, i);
    }
  }

  lemma LossesOfB(original: HostInfo, s: State, step: Step, i: nat)
    requires Inv(original, s)
    ensures LostB(Apply(original, s, step), i) <==> LostB(s, i) || DropsB(s, step, i)
  {
    match step
    case StepA(e) => StepAKeeps(original, s, e);
    case StepB(e) => LossesInB(original, s, e, i);
    case StepCaller(e) =>
  }

  predicate EverDropsA(original: HostInfo, s: State, steps: seq<Step>, i: nat) {
    steps != [] &&
    var init := steps[..|steps| - 1];
    EverDropsA(original, s, init, i) || DropsA(Run(original, s, init), steps[|steps| - 1], i)
  }

  predicate EverDropsB(original: HostInfo, s: State, steps: seq<Step>, i: nat) {
    steps != [] &&
    var init := steps[..|steps| - 1];
    EverDropsB(original, s, init, i) || DropsB(Run(original, s, init), steps[|steps| - 1], i)
  }

  lemma {:induction false} LossesAlong(original: HostInfo, s: State, steps: seq<Step>, i: nat)
    requires Inv(original, s)
    ensures LostA(Run(original, s, steps), i) <==> LostA(s, i) || EverDropsA(original, s, steps, i)
    ensures LostB(Run(original, s, steps), i) <==> LostB(s, i) || EverDropsB(original, s, steps, i)
  {
    if steps != [] {
      var init := steps[..|steps| - 1];
      LossesAlong(original, s, init, i);
      Reachable(original, s, init);
      LossesOfA(original, Run(original, s, init), steps[|steps| - 1], i);
      LossesOfB(original, Run(original, s, init), steps[|steps| - 1], i);
    }
  }

  /**
   Over every run, without any assumption on connections: when a task has returned, the connections it received and
   left open are exactly those that it overwrote or never stored. One that threw leaves what it holds open as well.
   */
  lemma LeftOpenExactlyWhenDropped(topology: Topology, steps: seq<Step>, i: nat)
    requires Failover(Some(topology)).Launched?
    ensures var w, s := topology.writers[0], Start(topology);
            var t := Run(w, s, steps);
            && (t.a.pc.ADone? ==> (IsOpen(t, TaskA, i) <==> EverDropsA(w, s, steps, i)))
            && (t.b.pc.BDone? ==> (IsOpen(t, TaskB, i) <==> EverDropsB(w, s, steps, i)))
            && (t.a.pc.AThrew? ==> (IsOpen(t, TaskA, i) <==> EverDropsA(w, s, steps, i) || t.a.newConnection == Some(i)))
            && (t.b.pc.BThrew? ==>
                  (IsOpen(t, TaskB, i) <==>
                   EverDropsB(w, s, steps, i) || t.b.newConnection == Some(i) || t.b.readerConnection == Some(i)))
  {
    LossesAlong(topology.writers[0], Start(topology), steps, i);
    Reachable(topology.writers[0], Start(topology), steps);
  }

  // ----- the counter of the machine

  /** The operation a step carries out on the counter, if it does. */
  function CounterOp(s: State, step: Step): seq<FailoverSync.Op> {
    match step
    case StepA(_) => if s.a.pc.AMark? then [FailoverSync.Mark(true)] else []
    case StepB(_) => if s.b.pc.BMark? then [FailoverSync.Mark(true)] else []
    case StepCaller(_) => if s.caller.pc.Waiting? then [FailoverSync.WaitAndComplete] else []
  }

  function CounterOps(original: HostInfo, s: State, steps: seq<Step>): seq<FailoverSync.Op> {
    if steps == [] then []
    else
      var init := steps[..|steps| - 1];
      CounterOps(original, s, init) + CounterOp(Run(original, s, init), steps[|steps| - 1])
  }

  lemma CounterStep(original: HostInfo, s: State, step: Step)
    ensures var n, op := Apply(original, s, step).numTasks, CounterOp(s, step);
            n == if op == [] then s.numTasks else FailoverSync.After(s.numTasks, op[0])
  {
  }

  /** The machine's counter runs as the shared counter does: what holds of every sequence of operations holds of it. */
  lemma {:induction false} CounterRunsAsShared(original: HostInfo, s: State, steps: seq<Step>)
    ensures Run(original, s, steps).numTasks == FailoverSync.AfterAll(s.numTasks, CounterOps(original, s, steps))
  {
    if steps != [] {
      var init, last := steps[..|steps| - 1], steps[|steps| - 1];
      CounterRunsAsShared(original, s, init);
      CounterStep(original, Run(original, s, init), last);
      FailoverSync.AfterOneMore(s.numTasks, CounterOps(original, s, init), CounterOp(Run(original, s, init), last));
    }
  }

  lemma OnlyCancels(ops: seq<FailoverSync.Op>, more: seq<FailoverSync.Op>)
    requires |more| <= 1 && (forall op | op in ops :: FailoverSync.Cancels(op)) && FailoverSync.Marks(ops) == 0
    requires more != [] ==> FailoverSync.Cancels(more[0])
    ensures (forall op | op in ops + more :: FailoverSync.Cancels(op)) && FailoverSync.Marks(ops + more) == 0
  {
    if more == [] {
      assert ops + more == ops;
    } else {
      assert more == [more[0]];
      assert (ops + more)[..|ops + more| - 1] == ops;
    }
  }

  lemma {:induction false} AllCancel(original: HostInfo, s: State, steps: seq<Step>)
    ensures forall op | op in CounterOps(original, s, steps) :: FailoverSync.Cancels(op)
    ensures FailoverSync.Marks(CounterOps(original, s, steps)) == 0
  {
    if steps != [] {
      var init := steps[..|steps| - 1];
      AllCancel(original, s, init);
      OnlyCancels(CounterOps(original, s, init), CounterOp(Run(original, s, init), steps[|steps| - 1]));
    }
  }

  /** So the process is completed exactly from the first of these operations on. */
  lemma CompletedExactlyWhen(topology: Topology, steps: seq<Step>)
    requires Failover(Some(topology)).Launched?
    ensures var w, s := topology.writers[0], Start(topology);
            FailoverSync.IsDone(Run(w, s, steps).numTasks) <==> CounterOps(w, s, steps) != []
  {
    var w, s := topology.writers[0], Start(topology);
    var ops := CounterOps(w, s, steps);
    CounterRunsAsShared(w, s, steps);
    FailoverSync.DoneExactlyWhen(2, ops);
    AllCancel(w, s, steps);
    if ops != [] {
      assert ops[0] in ops && FailoverSync.Cancels(ops[0]);
    }
  }

  // ----- a connection is handed out

  /** The step gives a task connection i, which is alive: a connect of A or B, or the reader search of B. */
  predicate ReceivesAlive(s: State, step: Step, task: Task, i: nat) {
    && step.env.alive && i == |s.conns|
    && match task
       case TaskA => step.StepA? && s.a.pc.AConnect? && !step.env.connectThrows && step.env.connects
       case TaskB =>
         && step.StepB?
         && (|| (s.b.pc.BGetReader? && FindsReader(step.env))
             || (s.b.pc.BConnectWriter? && !step.env.connectThrows && step.env.connects
                 && s.b.readerHost.Some? && !IsHostSame(s.b.pc.candidate, s.b.readerHost.value)))
  }

  predicate EverReceivesAlive(original: HostInfo, s: State, steps: seq<Step>, task: Task, i: nat) {
    steps != [] &&
    var init := steps[..|steps| - 1];
    EverReceivesAlive(original, s, init, task, i) || ReceivesAlive(Run(original, s, init), steps[|steps| - 1], task, i)
  }

  /** Task B finds its new connection i alive at its last test. */
  predicate TestsAlive(s: State, step: Step, i: nat) {
    step.StepB? && s.b.pc.BTest? && s.b.newConnection == Some(i) && step.env.alive
  }

  predicate EverTestsAlive(original: HostInfo, s: State, steps: seq<Step>, i: nat) {
    steps != [] &&
    var init := steps[..|steps| - 1];
    EverTestsAlive(original, s, init, i) || TestsAlive(Run(original, s, init), steps[|steps| - 1], i)
  }

  predicate HeldA(s: State, i: nat) {
    && s.a.newConnection == Some(i)
    && (s.a.pc.ATopology? || s.a.pc.ACheck? || s.a.pc.APublish? || s.a.result.connected)
  }

  /** Task B holds the connection as its reader's, or as one it may go on to publish. */
  predicate HeldB(s: State, i: nat) {
    || s.b.readerConnection == Some(i)
    || (s.b.newConnection == Some(i)
        && (|| s.b.result.connected
            || (MayPublish(s.b.pc) && !(FailoverSync.IsDone(s.numTasks) && (s.b.pc.BCleanUp? || s.b.pc.BLoop?)))))
  }

  predicate TestedB(s: State, i: nat) {
    s.b.newConnection == Some(i) && (s.b.pc.BPublish? || s.b.result.connected)
  }

  lemma HeldStepA(original: HostInfo, s: State, e: Env, i: nat)
    requires InvA(original, s) && HeldA(ApplyA(original, s, e), i)
    ensures HeldA(s, i) || ReceivesAlive(s, StepA(e), TaskA, i)
  {
    match s.a.pc
    case ALoop =>
    case AConnect =>
    case ATopology =>
    case AReleaseAndRetry =>
    case ACheck(_) =>
    case APublish(_) =>
    case AMark =>
    case ARelease =>
    case ADone =>
    case AThrew =>
  }

  lemma HeldStepB(original: HostInfo, s: State, e: Env, i: nat)
    requires !s.b.result.connected && HeldB(ApplyB(original, s, e), i)
    requires s.b.pc.BConnectWriter? ==> s.b.readerHost.Some?
    ensures HeldB(s, i) || ReceivesAlive(s, StepB(e), TaskB, i)
  {
    match s.b.pc
    case BLoop =>
    case BTest =>
    case BReader =>
    case BGetReader =>
    case BRefresh =>
    case BTopology =>
    case BConnectWriter(_) =>
    case BCleanUp =>
    case BPublish =>
    case BMark =>
    case BCancelledCleanUp =>
    case BRelease =>
    case BDone =>
    case BThrew =>
  }

  lemma PublishedStays(original: HostInfo, s: State, e: Env)
    requires InvB(original, s) && s.b.result.connected
    ensures ApplyB(original, s, e).b.(pc := s.b.pc) == s.b
  {
  }

  lemma TestedStepB(original: HostInfo, s: State, e: Env, i: nat)
    requires InvB(original, s) && TestedB(ApplyB(original, s, e), i)
    ensures TestedB(s, i) || TestsAlive(s, StepB(e), i)
  {
    match s.b.pc
    case BLoop =>
    case BTest =>
    case BReader =>
    case BGetReader =>
    case BRefresh =>
    case BTopology =>
    case BConnectWriter(_) =>
    case BCleanUp =>
    case BPublish =>
    case BMark =>
    case BCancelledCleanUp =>
    case BRelease =>
    case BDone =>
    case BThrew =>
  }

  lemma {:induction false} HeldAlong(original: HostInfo, s: State, steps: seq<Step>, i: nat)
    requires Inv(original, s)
    ensures HeldA(Run(original, s, steps), i) ==> HeldA(s, i) || EverReceivesAlive(original, s, steps, TaskA, i)
    ensures HeldB(Run(original, s, steps), i) ==> HeldB(s, i) || EverReceivesAlive(original, s, steps, TaskB, i)
    ensures TestedB(Run(original, s, steps), i) ==> TestedB(s, i) || EverTestsAlive(original, s, steps, i)
  {
    if steps != [] {
      var init, last := steps[..|steps| - 1], steps[|steps| - 1];
      var before := Run(original, s, init);
      HeldAlong(original, s, init, i);
      Reachable(original, s, init);
      HeldStep(original, before, last, i);
    }
  }

  lemma HeldStep(original: HostInfo, s: State, step: Step, i: nat)
    requires Inv(original, s)
    ensures HeldA(Apply(original, s, step), i) ==> HeldA(s, i) || ReceivesAlive(s, step, TaskA, i)
    ensures HeldB(Apply(original, s, step), i) ==> HeldB(s, i) || ReceivesAlive(s, step, TaskB, i)
    ensures TestedB(Apply(original, s, step), i) ==> TestedB(s, i) || TestsAlive(s, step, i)
  {
    if FailoverSync.IsDone(s.numTasks) {
      RanksFall(original, s, step);
    }
    match step
    case StepA(e) =>
      CallerUntouchedByA(original, s, e);
      if HeldA(ApplyA(original, s, e), i) {
        HeldStepA(original, s, e, i);
      }
    case StepB(e) =>
      CallerUntouchedByB(original, s, e);
      if TestedB(ApplyB(original, s, e), i) {
        TestedStepB(original, s, e, i);
      }
      if HeldB(ApplyB(original, s, e), i) {
        if s.b.result.connected {
          PublishedStays(original, s, e);
        } else {
          HeldStepB(original, s, e, i);
        }
      }
    case StepCaller(e) =>
  }

  /**
   A task only publishes a connection that was alive when it received it, from a connect or from the reader search, and
   task B only one that was still alive at the test right before its publication.
   */
  lemma PublishedWasAlive(topology: Topology, steps: seq<Step>)
    requires Failover(Some(topology)).Launched?
    ensures var w, s := topology.writers[0], Start(topology);
            var t := Run(w, s, steps);
            && (t.a.result.connected ==>
                  t.a.result.connection.Some? && EverReceivesAlive(w, s, steps, TaskA, t.a.result.connection.value))
            && (t.b.result.connected ==>
                  && t.b.result.connection.Some?
                  && EverReceivesAlive(w, s, steps, TaskB, t.b.result.connection.value)
                  && EverTestsAlive(w, s, steps, t.b.result.connection.value))
  {
    var w, s := topology.writers[0], Start(topology);
    var t := Run(w, s, steps);
    Reachable(w, s, steps);
    if t.a.result.connected {
      HeldAlong(w, s, steps, t.a.result.connection.value);
    }
    if t.b.result.connected {
      HeldAlong(w, s, steps, t.b.result.connection.value);
    }
  }

  // ----- what the protocol does not promise

  /** One more step of a run that is being built. */
  lemma Advance(original: HostInfo, s: State, t: State, step: Step) returns (u: State)
    requires Reaches(original, s, t)
    ensures u == Apply(original, t, step) && Reaches(original, s, u)
  {
    u := Apply(original, t, step);
    ReachesNext(original, s, t, step);
  }

  /** Once cancelled, a task A that holds no connection ends and leaves the connections as they are. */
  lemma EndA(w: HostInfo, s: State, t: State) returns (u: State)
    requires Reaches(w, s, t) && t.caller.pc.Waiting? && t.a.pc.ALoop? && t.a.newConnection.None?
    ensures Reaches(w, s, u) && u.a.pc.ADone? && u.conns == t.conns
  {
    u := Advance(w, s, t, StepCaller(ANY_ENV));
    u := Advance(w, s, u, StepA(ANY_ENV));
    u := Advance(w, s, u, StepA(ANY_ENV));
  }

  /** Without that assumption a connection can be lost: A overwrites one that came back dead. */
  lemma DeadConnectionsCanBeLost(topology: Topology)
    requires Failover(Some(topology)).Launched?
    ensures exists t :: Reaches(topology.writers[0], Start(topology), t)
                        && t.a.pc.ADone? && |t.conns| == 1 && t.conns[0].owner == TaskA && t.conns[0].status == Open
  {
    var w, s := topology.writers[0], Start(topology);
    var none := StepA(ANY_ENV);
    ReachesItself(w, s);
    var t := Advance(w, s, s, none);
    t := Advance(w, s, t, StepA(ANY_ENV.(connects := true, alive := false)));
    t := Advance(w, s, t, none);
    t := Advance(w, s, t, none);
    assert t.a == StateA(ALoop, None, NOT_CONNECTED) && t.conns == [Connection(w, TaskA, Open)];
    t := EndA(w, s, t);
  }

  lemma PublishB(w: HostInfo, s: State, t: State, b: Step) returns (u: State)
    requires Reaches(w, s, t) && t.b.pc.BPublish? && b.StepB?
    ensures Reaches(w, s, u) && u.a == t.a && u.caller == t.caller && u.b.pc.BMark?
    ensures u.b.result == WriterResult(true, true, Some(t.b.topology), t.b.newConnection)
    ensures u.conns == SetStatus(t.conns, t.b.newConnection, Published)
  {
    u := Advance(w, s, t, b);
  }

  lemma FindReader(w: HostInfo, elected: HostInfo, s: State, b: Step) returns (t: State)
    requires s.b.pc.BLoop? && s.b.newConnection.None? && !FailoverSync.IsDone(s.numTasks) && s.conns == []
    requires b == StepB(ANY_ENV.(search := Finds(elected), topology := Topology([elected], [])))
    ensures Reaches(w, s, t) && t.a == s.a && t.caller == s.caller && t.numTasks == s.numTasks
    ensures t.b.pc.BRefresh? && t.b.readerHost == Some(elected) && t.b.readerConnection == Some(0)
    ensures t.conns == [Connection(elected, TaskB, Open)]
  {
    ReachesItself(w, s);
    t := Advance(w, s, s, b);
    t := Advance(w, s, t, b);
    t := Advance(w, s, t, b);
    t := Advance(w, s, t, b);
  }

  /** The reader turns out to be the new writer, so its connection is taken over. */
  lemma AliasReader(w: HostInfo, elected: HostInfo, s: State, r: State, b: Step) returns (t: State)
    requires !IsHostSame(elected, w) && Reaches(w, s, r) && !FailoverSync.IsDone(r.numTasks)
    requires r.b.pc.BRefresh? && r.b.readerHost == Some(elected) && r.b.readerConnection == Some(0)
    requires b == StepB(ANY_ENV.(search := Finds(elected), topology := Topology([elected], [])))
    ensures Reaches(w, s, t) && t.a == r.a && t.caller == r.caller && t.numTasks == r.numTasks && t.conns == r.conns
    ensures t.b.pc.BPublish? && t.b.newConnection == Some(0) && t.b.topology == Topology([elected], [])
  {
    t := Advance(w, s, r, b);
    t := Advance(w, s, t, b);
    assert t.b.pc == BConnectWriter(elected);
    t := Advance(w, s, t, b);
    assert t.b.pc.BCleanUp? && t.b.newConnection == Some(0) && t.b.readerConnection == Some(0);
    t := Advance(w, s, t, b);
    t := Advance(w, s, t, b);
    t := Advance(w, s, t, b);
  }

  lemma PublishA(w: HostInfo, topology: Topology, s: State, t: State, a: Step) returns (u: State)
    requires Reaches(w, s, t) && t.a.pc.ALoop? && !FailoverSync.IsDone(t.numTasks)
    requires w.instanceName != "" && topology.GetWriter() == Some(w)
    requires a == StepA(ANY_ENV.(connects := true, topology := topology))
    ensures Reaches(w, s, u) && u.b == t.b && u.caller == t.caller && u.a.pc.ADone?
    ensures u.a.result == WriterResult(true, false, Some(topology), Some(|t.conns|))
  {
    u := Advance(w, s, t, a);
    u := Advance(w, s, u, a);
    assert u.a.pc.ATopology? && u.a.newConnection == Some(|t.conns|) && u.b == t.b;
    u := Advance(w, s, u, a);
    u := Advance(w, s, u, a);
    assert u.a.pc == APublish(topology) && u.b == t.b;
    u := Advance(w, s, u, a);
    u := Advance(w, s, u, a);
  }

  /**
   Two publications are possible: B passes its check, A publishes and completes the process, then B publishes a
   connection to another host. The counter does not elect a single winner.
   */
  lemma BothTasksMayPublish(topology: Topology, elected: HostInfo)
    requires Failover(Some(topology)).Launched?
    requires topology.writers[0].instanceName != ""
    requires !IsHostSame(elected, topology.writers[0])
    ensures exists t :: Reaches(topology.writers[0], Start(topology), t)
                        && t.a.result.connected && t.b.result.connected
                        && t.a.result.connection != t.b.result.connection
  {
    var w, s := topology.writers[0], Start(topology);
    var b := StepB(ANY_ENV.(search := Finds(elected), topology := Topology([elected], [])));
    var t := FindReader(w, elected, s, b);
    t := AliasReader(w, elected, s, t, b);
    t := PublishA(w, topology, s, t, StepA(ANY_ENV.(connects := true, topology := topology)));
    t := PublishB(w, s, t, b);
  }

  // ----- runs in which a writer is found

  /** A reader that is not the writer names one, and task B connects to that. */
  lemma ConnectToElected(w: HostInfo, reader: HostInfo, elected: HostInfo, s: State, r: State, b: Step)
    returns (t: State)
    requires !IsHostSame(elected, w) && !IsHostSame(elected, reader) && Reaches(w, s, r) && !FailoverSync.IsDone(r.numTasks)
    requires r.b.pc.BRefresh? && r.b.readerHost == Some(reader) && r.b.readerConnection == Some(0)
    requires r.conns == [Connection(reader, TaskB, Open)]
    requires b == StepB(ANY_ENV.(connects := true, topology := Topology([elected], [reader])))
    ensures Reaches(w, s, t) && t.a == r.a && t.caller == r.caller && t.numTasks == r.numTasks
    ensures t.b.pc.BPublish? && t.b.newConnection == Some(1) && t.b.topology == Topology([elected], [reader])
    ensures t.conns == [Connection(reader, TaskB, Released), Connection(elected, TaskB, Open)]
  {
    t := Advance(w, s, r, b);
    t := Advance(w, s, t, b);
    assert t.b.pc == BConnectWriter(elected);
    t := Advance(w, s, t, b);
    assert t.b.pc.BCleanUp? && t.b.newConnection == Some(1) && t.b.readerConnection == Some(0);
    assert t.conns == [Connection(reader, TaskB, Open), Connection(elected, TaskB, Open)];
    t := Advance(w, s, t, b);
    assert t.b.pc.BLoop? && t.b.newConnection == Some(1) && t.a == r.a && t.caller == r.caller;
    t := Advance(w, s, t, b);
    t := Advance(w, s, t, b);
  }

  /** Once task A has ended with a connection, a caller that still waits returns it. */
  lemma CallerTakesA(w: HostInfo, s: State, t: State) returns (u: State)
    requires Reaches(w, s, t) && t.caller == Caller(Waiting, true, true) && t.a.pc.ADone? && t.a.result.connected
    ensures Reaches(w, s, u) && u.caller.pc == Returned(t.a.result) && u.conns == t.conns
  {
    u := Advance(w, s, t, StepCaller(ANY_ENV));
    u := Advance(w, s, u, StepCaller(ANY_ENV));
  }

  /** Once task B has published and A still tries, the caller returns B's result. */
  lemma CallerTakesB(w: HostInfo, s: State, t: State) returns (u: State)
    requires Reaches(w, s, t) && t.caller == Caller(Waiting, true, true) && t.a.pc.ALoop? && t.b.pc.BMark?
    requires t.b.result.connected
    ensures Reaches(w, s, u) && u.caller.pc == Returned(t.b.result) && u.conns == t.conns
  {
    u := Advance(w, s, t, StepB(ANY_ENV));
    assert u.b == t.b.(pc := BDone) && u.a == t.a && u.caller == t.caller && u.conns == t.conns;
    u := Advance(w, s, u, StepCaller(ANY_ENV));
    u := Advance(w, s, u, StepCaller(ANY_ENV));
    assert u.caller == Caller(PollB, true, true);
    u := Advance(w, s, u, StepCaller(ANY_ENV));
  }

  /** The old writer comes back: task A reconnects to it and the caller gets that connection. */
  lemma OldWriterIsHandedOut(topology: Topology)
    requires Failover(Some(topology)).Launched? && topology.writers[0].instanceName != ""
    ensures exists t :: Reaches(topology.writers[0], Start(topology), t)
                        && t.caller.pc == Returned(WriterResult(true, false, Some(topology), Some(0)))
  {
    var w, s := topology.writers[0], Start(topology);
    ReachesItself(w, s);
    var t := PublishA(w, topology, s, s, StepA(ANY_ENV.(connects := true, topology := topology)));
    t := CallerTakesA(w, s, t);
  }

  /**
   A new writer is elected: the reader task B found turns out to be it and the caller gets that very connection, or the
   reader names it and the caller gets the connection task B opens to it, the reader's being released.
   */
  lemma NewWriterIsHandedOut(topology: Topology, reader: HostInfo, elected: HostInfo)
    requires Failover(Some(topology)).Launched? && !IsHostSame(elected, topology.writers[0])
    ensures exists t :: Reaches(topology.writers[0], Start(topology), t)
                        && t.caller.pc == Returned(WriterResult(true, true, Some(Topology([elected], [])), Some(0)))
                        && t.conns == [Connection(elected, TaskB, Published)]
    ensures !IsHostSame(elected, reader) ==>
              exists t :: Reaches(topology.writers[0], Start(topology), t)
                          && t.caller.pc == Returned(WriterResult(true, true, Some(Topology([elected], [reader])), Some(1)))
                          && t.conns == [Connection(reader, TaskB, Released), Connection(elected, TaskB, Published)]
  {
    var w, s := topology.writers[0], Start(topology);
    var b := StepB(ANY_ENV.(search := Finds(elected), topology := Topology([elected], [])));
    var t := FindReader(w, elected, s, b);
    t := AliasReader(w, elected, s, t, b);
    t := PublishB(w, s, t, b);
    t := CallerTakesB(w, s, t);
    if !IsHostSame(elected, reader) {
      ElectedIsHandedOut(topology, reader, elected);
    }
  }

  lemma ElectedIsHandedOut(topology: Topology, reader: HostInfo, elected: HostInfo)
    requires Failover(Some(topology)).Launched? && !IsHostSame(elected, topology.writers[0]) && !IsHostSame(elected, reader)
    ensures exists t :: Reaches(topology.writers[0], Start(topology), t)
                        && t.caller.pc == Returned(WriterResult(true, true, Some(Topology([elected], [reader])), Some(1)))
                        && t.conns == [Connection(reader, TaskB, Released), Connection(elected, TaskB, Published)]
  {
    var w, s := topology.writers[0], Start(topology);
    var b := StepB(ANY_ENV.(search := Finds(reader), topology := Topology([reader], [])));
    var t := FindReader(w, reader, s, b);
    b := StepB(ANY_ENV.(connects := true, topology := Topology([elected], [reader])));
    t := ConnectToElected(w, reader, elected, s, t, b);
    t := PublishB(w, s, t, b);
    t := CallerTakesB(w, s, t);
  }

  // ----- neither task gets stuck

  /** An environment in which everything goes well for a host: connects succeed, and it is the reader found and the writer. */
  function Favours(host: HostInfo): Env {
    ANY_ENV.(connects := true, search := Finds(host), topology := Topology([host], []))
  }

  /** How many steps task A needs for a publication when all goes well. */
  function AwayA(a: StateA): nat {
    match a.pc
    case AReleaseAndRetry => 6
    case ALoop => 5
    case AConnect => 4
    case ATopology => 3
    case ACheck(_) => 2
    case APublish(_) => 1
    case _ => 0
  }

  /** The connection was received before the table had grown to this size. */
  predicate IsOld(h: Handle, size: nat) {
    h.Some? && h.value < size
  }

  /** The same for task B, when all goes well but for the connections of old, which are dead at the next test. */
  function AwayB(b: StateB, size: nat): nat {
    match b.pc
    case BLoop => if b.newConnection.None? || IsOld(b.newConnection, size) then 11 else 3
    case BTest => if b.newConnection.None? || IsOld(b.newConnection, size) then 10 else 2
    case BReader => 9
    case BGetReader => 8
    case BRefresh => if IsOld(b.readerConnection, size) then 15 else 7
    case BTopology => if IsOld(b.readerConnection, size) then 14 else 6
    case BConnectWriter(_) => if IsOld(b.readerConnection, size) then 13 else 5
    case BCleanUp => if IsOld(b.newConnection, size) then 12 else 4
    case BPublish => 1
    case _ => 0
  }

  /** Task B has neither thrown nor passed its last check with a connection of old. */
  predicate MayRenew(b: StateB, size: nat) {
    !b.pc.BThrew? && !b.result.connected && !(b.pc.BPublish? && IsOld(b.newConnection, size))
  }

  function Renews(s: State, host: HostInfo, size: nat): Env {
    Favours(host).(alive := !(s.b.pc.BTest? && IsOld(s.b.newConnection, size)))
  }

  lemma NearerA(w: HostInfo, s: State)
    requires InvA(w, s) && !FailoverSync.IsDone(s.numTasks) && !s.a.pc.AThrew? && !s.a.result.connected
    requires w.instanceName != ""
    ensures var t := ApplyA(w, s, Favours(w));
            || t.a.result.connected
            || (!FailoverSync.IsDone(t.numTasks) && !t.a.pc.AThrew? && AwayA(t.a) < AwayA(s.a))
  {
    match s.a.pc
    case ALoop =>
    case AConnect =>
    case ATopology =>
    case AReleaseAndRetry =>
    case ACheck(_) =>
    case APublish(_) =>
    case AMark =>
    case ARelease =>
    case ADone =>
    case AThrew =>
  }

  lemma NearerB(w: HostInfo, elected: HostInfo, s: State, size: nat)
    requires InvB(w, s) && !FailoverSync.IsDone(s.numTasks) && MayRenew(s.b, size) && size <= |s.conns|
    requires !IsHostSame(elected, w)
    ensures var t := ApplyB(w, s, Renews(s, elected, size));
            && size <= |t.conns| && !FailoverSync.IsDone(t.numTasks)
            && if t.b.result.connected then t.b.result.connection.Some? && !IsOld(t.b.result.connection, size)
               else MayRenew(t.b, size) && AwayB(t.b, size) < AwayB(s.b, size)
  {
    match s.b.pc
    case BLoop =>
    case BTest =>
    case BReader =>
    case BGetReader =>
    case BRefresh =>
    case BTopology =>
    case BConnectWriter(_) =>
    case BCleanUp =>
    case BPublish =>
    case BMark =>
    case BCancelledCleanUp =>
    case BRelease =>
    case BDone =>
    case BThrew =>
  }

  lemma {:induction false} FinishA(w: HostInfo, s: State, t: State) returns (u: State)
    requires Reaches(w, s, t) && Inv(w, t) && !FailoverSync.IsDone(t.numTasks) && !t.a.pc.AThrew? && w.instanceName != ""
    ensures Reaches(w, s, u) && u.a.result.connected
    decreases AwayA(t.a)
  {
    u := t;
    if !t.a.result.connected {
      u := Advance(w, s, t, StepA(Favours(w)));
      NearerA(w, t);
      if !u.a.result.connected {
        StepKeeps(w, t, StepA(Favours(w)));
        u := FinishA(w, s, u);
      }
    }
  }

  lemma {:induction false} FinishB(w: HostInfo, elected: HostInfo, s: State, t: State, size: nat) returns (u: State)
    requires Reaches(w, s, t) && Inv(w, t) && !FailoverSync.IsDone(t.numTasks) && !IsHostSame(elected, w)
    requires MayRenew(t.b, size) && size <= |t.conns|
    ensures Reaches(w, s, u) && u.b.result.connected
    ensures u.b.result.connection.Some? && u.b.result.connection.value >= size
    decreases AwayB(t.b, size)
  {
    var step := StepB(Renews(t, elected, size));
    u := Advance(w, s, t, step);
    NearerB(w, elected, t, size);
    if !u.b.result.connected {
      StepKeeps(w, t, step);
      u := FinishB(w, elected, s, u, size);
    }
  }

  /** Task B can still publish a connection that is not in the table yet. */
  ghost predicate CanRenew(original: HostInfo, t: State) {
    exists u :: Reaches(original, t, u) && u.b.result.connected
                && u.b.result.connection.Some? && u.b.result.connection.value >= |t.conns|
  }

  /**
   No task gives up or gets stuck by itself: from every state a run can reach before completion, whatever has gone wrong
   until then, a task that has not thrown can still publish - task A for an original writer with a name, task B for any
   other host that is elected. Task B can do so over a new connection, should all that it has turn out to be dead, unless
   it is already about to publish.
   */
  lemma EitherTaskCanStillSucceed(topology: Topology, steps: seq<Step>, elected: HostInfo)
    requires Failover(Some(topology)).Launched?
    ensures var w, t := topology.writers[0], Run(topology.writers[0], Start(topology), steps);
            !FailoverSync.IsDone(t.numTasks) ==>
              && !t.a.pc.ADone? && !t.b.pc.BDone?
              && (!t.a.pc.AThrew? && w.instanceName != "" ==> exists u :: Reaches(w, t, u) && u.a.result.connected)
              && (!t.b.pc.BThrew? && !IsHostSame(elected, w) ==>
                    CanRenew(w, t) || t.b.pc.BPublish? || t.b.result.connected)
  {
    var w, t := topology.writers[0], Run(topology.writers[0], Start(topology), steps);
    Reachable(w, Start(topology), steps);
    ReachesItself(w, t);
    if !FailoverSync.IsDone(t.numTasks) {
      if !t.a.pc.AThrew? && w.instanceName != "" {
        var u := FinishA(w, t, t);
      }
      if MayRenew(t.b, |t.conns|) && !IsHostSame(elected, w) {
        var u := FinishB(w, elected, t, t, |t.conns|);
      }
    }
  }
}
