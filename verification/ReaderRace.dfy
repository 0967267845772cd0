/**
 The paired reader-connect race: one or two tasks each try one host under a counter of their own while the search
 waits for them and polls. As in writer failover every step is one atomic operation and the environment chooses the
 outcomes and the interleaving.
 */
module ReaderRace {

  import opened Wrappers
  import opened Hosts
  import opened Connections
  import FailoverSync

  datatype Who = First | Second

  datatype ReaderResult = ReaderResult(connected: bool, host: Option<HostInfo>, connection: Handle)

  const NO_READER := ReaderResult(false, None, None)

  datatype Pc =
    | Begin
    | Connecting
    | Check
    | Publish
    | MarkConnected
    | CheckFailed
    | MarkFailed
    | Release
    | Done
    | Threw

  datatype Racer = Racer(pc: Pc, host: HostInfo, newConnection: Handle, result: ReaderResult)

  /** How the search leaves the pair: with a reader, without one, or with an exception from a task. */
  datatype Outcome = Connected(result: ReaderResult) | NotConnected | Thrown

  datatype PollPc = Waiting | PollFirst | PollSecond | PollBoth | PollTime | Left(outcome: Outcome)

  datatype Shared = Shared(numTasks: int, conns: seq<Connection<Who>>, fault: bool)

  /** With an odd number of hosts the last pair has no second task. */
  datatype State = State(
    shared: Shared,
    first: Racer,
    second: Option<Racer>,
    poll: PollPc,
    validFirst: bool,
    validSecond: bool)

  datatype Env = Env(connects: bool, connectThrows: bool, alive: bool, expired: bool)

  datatype Step = StepFirst(env: Env) | StepSecond(env: Env) | StepPoll(env: Env)

  // ----- one task

  function Drop(sh: Shared, h: Handle): Shared {
    if h.None? then sh
    else sh.(conns := SetStatus(sh.conns, h, Released), fault := sh.fault || !Usable(sh.conns, h))
  }

  function Race(sh: Shared, r: Racer, who: Who, e: Env): (Shared, Racer) {
    match r.pc
    case Begin =>
      (sh, r.(pc := if FailoverSync.IsDone(sh.numTasks) then Release else Connecting))
    case Connecting =>
      if e.connectThrows then
        (sh, r.(pc := Threw))
      else if e.connects then
        (sh.(conns := sh.conns + [Connection(r.host, who, Open)]),
        r.(newConnection := Some(|sh.conns|), pc := if e.alive then Check else CheckFailed))
      else
        (sh, r.(newConnection := None, pc := CheckFailed))
    case Check =>
      (sh, r.(pc := if FailoverSync.IsDone(sh.numTasks) then Release else Publish))
    case Publish =>
      (sh.(conns := SetStatus(sh.conns, r.newConnection, Published), fault := sh.fault || !Usable(sh.conns, r.newConnection)),
      r.(result := ReaderResult(true, Some(r.host), r.newConnection), pc := MarkConnected))
    case MarkConnected =>
      (sh.(numTasks := FailoverSync.After(sh.numTasks, FailoverSync.Mark(true))), r.(pc := Done))
    case CheckFailed =>
      (sh, r.(pc := if FailoverSync.IsDone(sh.numTasks) then Release else MarkFailed))
    case MarkFailed =>
      (match FailoverSync.Marked(sh.numTasks, false)
       case None => (sh, r.(pc := Threw))
       case Some(n) => (sh.(numTasks := n), r.(pc := Release)))
    case Release =>
      (Drop(sh, r.newConnection), r.(newConnection := None, pc := Done))
    case Done => (sh, r)
    case Threw => (sh, r)
  }

  // ----- the search's side

  function Poll(s: State, e: Env): State {
    match s.poll
    case Waiting =>
      s.(shared := s.shared.(numTasks := FailoverSync.After(s.shared.numTasks, FailoverSync.WaitAndComplete)), poll := PollFirst)
    case PollFirst =>
      if s.validFirst && s.first.pc.Threw? then s.(validFirst := false, poll := Left(Thrown))
      else if s.validFirst && s.first.pc.Done? then
        s.(validFirst := false, poll := if s.first.result.connected then Left(Connected(s.first.result)) else PollSecond)
      else s.(poll := PollSecond)
    case PollSecond =>
      if s.second.None? || !s.validSecond then s.(poll := PollBoth)
      else if s.second.value.pc.Threw? then s.(validSecond := false, poll := Left(Thrown))
      else if s.second.value.pc.Done? then
        s.(validSecond := false,
        poll := if s.second.value.result.connected then Left(Connected(s.second.value.result)) else PollBoth)
      else s.(poll := PollBoth)
    case PollBoth =>
      s.(poll := if !s.validFirst && (s.second.None? || !s.validSecond) then Left(NotConnected) else PollTime)
    case PollTime =>
      s.(poll := if e.expired then Left(NotConnected) else PollFirst)
    case Left(_) => s
  }

  function Apply(s: State, step: Step): State {
    match step
    case StepFirst(e) =>
      var (sh, r) := Race(s.shared, s.first, First, e);
      s.(shared := sh, first := r)
    case StepSecond(e) =>
      if s.second.None? then s
      else
        var (sh, r) := Race(s.shared, s.second.value, Second, e);
        s.(shared := sh, second := Some(r))
    case StepPoll(e) => Poll(s, e)
  }

  function Run(s: State, steps: seq<Step>): State {
    if steps == [] then s else Apply(Run(s, steps[..|steps| - 1]), steps[|steps| - 1])
  }

  function Start(first: HostInfo, second: Option<HostInfo>): State {
    State(
      Shared(if second.None? then 1 else FailoverSync.Incremented(1), [], false),
      Racer(Begin, first, None, NO_READER),
      if second.None? then None else Some(Racer(Begin, second.value, None, NO_READER)),
      Waiting,
      true,
      second.Some?)
  }

  // ----- what holds in every reachable state

  ghost predicate SoundFor(sh: Shared, host: HostInfo, r: ReaderResult) {
    r.connected ==>
      && r.host == Some(host)
      && r.connection.Some? && r.connection.value < |sh.conns|
      && sh.conns[r.connection.value].host == host
      && sh.conns[r.connection.value].status == Published
  }

  ghost predicate InvRacer(sh: Shared, r: Racer, who: Who) {
    && (r.newConnection.Some? ==>
          && r.newConnection.value < |sh.conns|
          && sh.conns[r.newConnection.value] ==
             Connection(r.host, who, if r.result.connected then Published else Open))
    && (r.pc.Check? || r.pc.Publish? ==> r.newConnection.Some?)
    && (r.pc.Begin? || r.pc.Connecting? ==> r.newConnection.None?)
    && (r.pc.MarkConnected? ==> r.result.connected)
    && (r.result.connected ==> (r.pc.MarkConnected? || r.pc.Done?) && r.result.connection == r.newConnection)
    && (forall i | 0 <= i < |sh.conns| && sh.conns[i].owner == who && sh.conns[i].status == Open ::
          r.newConnection == Some(i) && !r.pc.Done?)
    && SoundFor(sh, r.host, r.result)
  }

  /** The task has ended without a reader. */
  predicate ReadInVain(r: Racer) {
    r.pc.Done? && !r.result.connected
  }

  ghost predicate Inv(s: State) {
    && 0 <= s.shared.numTasks
    && !s.shared.fault
    && InvRacer(s.shared, s.first, First)
    && (s.second.Some? ==> InvRacer(s.shared, s.second.value, Second))
    && (!s.poll.Left? && !s.validFirst ==> ReadInVain(s.first))
    && (!s.poll.Left? && s.second.Some? && !s.validSecond ==> ReadInVain(s.second.value))
    && (s.poll.Left? && s.poll.outcome.Connected? ==>
          || (s.poll.outcome.result == s.first.result && s.first.pc.Done? && s.first.result.connected)
          || (s.second.Some? && s.poll.outcome.result == s.second.value.result
              && s.second.value.pc.Done? && s.second.value.result.connected))
  }

  ghost predicate Untouched(sh: Shared, sh': Shared, who: Who) {
    && |sh.conns| <= |sh'.conns|
    && (forall i | 0 <= i < |sh.conns| && sh.conns[i].owner == who :: sh'.conns[i] == sh.conns[i])
    && (forall i | 0 <= i < |sh'.conns| && sh'.conns[i].owner == who :: i < |sh.conns| && sh.conns[i].owner == who)
  }

  lemma Frame(sh: Shared, sh': Shared, r: Racer, who: Who)
    requires InvRacer(sh, r, who) && Untouched(sh, sh', who)
    ensures InvRacer(sh', r, who)
  {
  }

  lemma RaceKeeps(sh: Shared, r: Racer, who: Who, other: Who, e: Env)
    requires 0 <= sh.numTasks && !sh.fault && InvRacer(sh, r, who) && who != other
    ensures var (sh', r') := Race(sh, r, who, e);
            && 0 <= sh'.numTasks && !sh'.fault && InvRacer(sh', r', who) && Untouched(sh, sh', other)
            && r'.host == r.host && (r.result.connected && r.pc.Done? ==> r' == r)
  {
  }

  lemma PollKeeps(s: State, e: Env)
    requires Inv(s)
    ensures Inv(Poll(s, e))
  {
    Frame(s.shared, Poll(s, e).shared, s.first, First);
    if s.second.Some? {
      Frame(s.shared, Poll(s, e).shared, s.second.value, Second);
    }
    match s.poll
    case Waiting =>
    case PollFirst =>
    case PollSecond =>
    case PollBoth =>
    case PollTime =>
    case Left(_) =>
  }

  lemma StepKeeps(s: State, step: Step)
    requires Inv(s)
    ensures Inv(Apply(s, step))
  {
    match step
    case StepFirst(e) =>
      RaceKeeps(s.shared, s.first, First, Second, e);
      if s.second.Some? {
        Frame(s.shared, Race(s.shared, s.first, First, e).0, s.second.value, Second);
      }
    case StepSecond(e) =>
      if s.second.Some? {
        RaceKeeps(s.shared, s.second.value, Second, First, e);
        Frame(s.shared, Race(s.shared, s.second.value, Second, e).0, s.first, First);
      }
    case StepPoll(e) =>
      PollKeeps(s, e);
  }

  lemma {:induction false} Reachable(s: State, steps: seq<Step>)
    requires Inv(s)
    ensures Inv(Run(s, steps))
  {
    if steps != [] {
      Reachable(s, steps[..|steps| - 1]);
      StepKeeps(Run(s, steps[..|steps| - 1]), steps[|steps| - 1]);
    }
  }

  lemma HostStays(s: State, step: Step)
    ensures var t := Apply(s, step);
            && t.first.host == s.first.host && (t.second.Some? <==> s.second.Some?)
            && (s.second.Some? ==> t.second.value.host == s.second.value.host)
  {
  }

  lemma {:induction false} HostsStay(s: State, steps: seq<Step>)
    ensures var t := Run(s, steps);
            && t.first.host == s.first.host && (t.second.Some? <==> s.second.Some?)
            && (s.second.Some? ==> t.second.value.host == s.second.value.host)
  {
    if steps != [] {
      HostsStay(s, steps[..|steps| - 1]);
      HostStays(Run(s, steps[..|steps| - 1]), steps[|steps| - 1]);
    }
  }

  /**
   In every interleaving the reader a pair yields is one of its two hosts, together with a published connection
   to exactly that host.
   */
  lemma WinnerIsOneOfThePair(first: HostInfo, second: Option<HostInfo>, steps: seq<Step>)
    ensures var t := Run(Start(first, second), steps);
            t.poll.Left? && t.poll.outcome.Connected? ==>
              || SoundFor(t.shared, first, t.poll.outcome.result)
              || (second.Some? && SoundFor(t.shared, second.value, t.poll.outcome.result))
    ensures var t := Run(Start(first, second), steps);
            t.poll.Left? && t.poll.outcome.Connected? ==> t.poll.outcome.result.connected
  {
    Reachable(Start(first, second), steps);
    HostsStay(Start(first, second), steps);
  }

  /**
   Per task: no connection is misused, and when a task ends normally each connection it received is released or
   published, dead ones included.
   */
  lemma RacersLoseNothing(first: HostInfo, second: Option<HostInfo>, steps: seq<Step>)
    ensures var t := Run(Start(first, second), steps);
            && !t.shared.fault
            && (t.first.pc.Done? ==> forall c | c in t.shared.conns && c.owner == First :: c.status != Open)
            && (t.second.Some? && t.second.value.pc.Done? ==>
                  forall c | c in t.shared.conns && c.owner == Second :: c.status != Open)
  {
    Reachable(Start(first, second), steps);
    HostsStay(Start(first, second), steps);
  }

  // ----- what the search leaves with

  /** The search asks a task that has ended with a reader. */
  predicate HandsOut(s: State, step: Step, who: Who) {
    && step.StepPoll?
    && if who == First then s.poll.PollFirst? && s.first.pc.Done? && s.first.result.connected
       else
         && s.poll.PollSecond? && s.second.Some? && s.second.value.pc.Done? && s.second.value.result.connected
  }

  predicate Ended(s: State, who: Who) {
    if who == First then s.first.pc.Done? || s.first.pc.Threw?
    else s.second.Some? ==> s.second.value.pc.Done? || s.second.value.pc.Threw?
  }

  /** The search comes to a task that has ended. */
  predicate Asks(s: State, step: Step, who: Who) {
    step.StepPoll? && Ended(s, who) && if who == First then s.poll.PollFirst? else s.poll.PollSecond? && s.second.Some?
  }

  predicate EverAsks(s: State, steps: seq<Step>, who: Who) {
    steps != [] &&
    var init := steps[..|steps| - 1];
    EverAsks(s, init, who) || Asks(Run(s, init), steps[|steps| - 1], who)
  }

  /** A future is valid until its task has been asked. */
  lemma {:induction false} ValidAlong(s: State, steps: seq<Step>)
    ensures var t := Run(s, steps);
            && (t.validFirst <==> s.validFirst && !EverAsks(s, steps, First))
            && (t.validSecond <==> s.validSecond && !EverAsks(s, steps, Second))
  {
    if steps != [] {
      ValidAlong(s, steps[..|steps| - 1]);
    }
  }

  /** Every task of the pair has been read in vain, or the time has run out. */
  predicate GivesUp(s: State, step: Step) {
    && step.StepPoll?
    && (|| (s.poll.PollTime? && step.env.expired)
        || (s.poll.PollBoth? && !s.validFirst && ReadInVain(s.first)
            && (s.second.Some? ==> !s.validSecond && ReadInVain(s.second.value))))
  }

  predicate EverHandsOut(s: State, steps: seq<Step>, who: Who) {
    steps != [] &&
    var init := steps[..|steps| - 1];
    EverHandsOut(s, init, who) || HandsOut(Run(s, init), steps[|steps| - 1], who)
  }

  predicate EverGivesUp(s: State, steps: seq<Step>) {
    steps != [] &&
    var init := steps[..|steps| - 1];
    EverGivesUp(s, init) || GivesUp(Run(s, init), steps[|steps| - 1])
  }

  /** What the search leaves with, once it has, is what its decisive step found, and stays so. */
  ghost predicate Decided(s: State, first: bool, second: bool, gaveUp: bool) {
    && ((s.poll.Left? && s.poll.outcome.Connected?) <==> first || second)
    && (first ==> s.first.pc.Done? && s.first.result.connected && s.poll == Left(Connected(s.first.result)))
    && (second ==> s.second.Some? && s.second.value.pc.Done? && s.second.value.result.connected
                   && s.poll == Left(Connected(s.second.value.result)))
    && (s.poll == Left(NotConnected) <==> gaveUp)
  }

  lemma DecidedStep(s: State, step: Step, first: bool, second: bool, gaveUp: bool)
    requires Inv(s) && Decided(s, first, second, gaveUp)
    ensures Decided(Apply(s, step), first || HandsOut(s, step, First), second || HandsOut(s, step, Second),
                    gaveUp || GivesUp(s, step))
  {
    match step
    case StepFirst(e) =>
    case StepSecond(e) =>
    case StepPoll(e) =>
      match s.poll
      case Waiting =>
      case PollFirst =>
      case PollSecond =>
      case PollBoth =>
      case PollTime =>
      case Left(_) =>
  }

  lemma {:induction false} DecidedAlong(s: State, steps: seq<Step>)
    requires Inv(s) && !s.poll.Left?
    ensures Decided(Run(s, steps), EverHandsOut(s, steps, First), EverHandsOut(s, steps, Second), EverGivesUp(s, steps))
  {
    if steps != [] {
      var init := steps[..|steps| - 1];
      DecidedAlong(s, init);
      Reachable(s, init);
      DecidedStep(Run(s, init), steps[|steps| - 1], EverHandsOut(s, init, First), EverHandsOut(s, init, Second),
                  EverGivesUp(s, init));
    }
  }

  /**
   Over every run: the search leaves with a reader if and only if at some step it asked a task that had ended with one,
   and then it is that task's; it leaves without one if and only if it had read every task of the pair in vain or the
   time had run out. A result counts as read exactly from the first step on that asked its task after its end.
   */
  lemma SearchLeavesExactlyWith(first: HostInfo, second: Option<HostInfo>, steps: seq<Step>)
    ensures var s := Start(first, second);
            var t := Run(s, steps);
            && ((exists r :: t.poll == Left(Connected(r))) <==> EverHandsOut(s, steps, First) || EverHandsOut(s, steps, Second))
            && (EverHandsOut(s, steps, First) ==> t.poll == Left(Connected(t.first.result)))
            && (EverHandsOut(s, steps, Second) ==> t.second.Some? && t.poll == Left(Connected(t.second.value.result)))
            && (t.poll == Left(NotConnected) <==> EverGivesUp(s, steps))
            && (t.validFirst <==> !EverAsks(s, steps, First))
            && (second.Some? ==> (t.validSecond <==> !EverAsks(s, steps, Second)))
  {
    DecidedAlong(Start(first, second), steps);
    ValidAlong(Start(first, second), steps);
    var t := Run(Start(first, second), steps);
    if t.poll.Left? && t.poll.outcome.Connected? {
      assert t.poll == Left(Connected(t.poll.outcome.result));
    }
  }

  // ----- the counter of the pair

  function OpOf(r: Racer): seq<FailoverSync.Op> {
    match r.pc
    case MarkConnected => [FailoverSync.Mark(true)]
    case MarkFailed => [FailoverSync.Mark(false)]
    case _ => []
  }

  /** The operation a step carries out on the counter, if it does. */
  function CounterOp(s: State, step: Step): seq<FailoverSync.Op> {
    match step
    case StepFirst(_) => OpOf(s.first)
    case StepSecond(_) => if s.second.Some? then OpOf(s.second.value) else []
    case StepPoll(_) => if s.poll.Waiting? then [FailoverSync.WaitAndComplete] else []
  }

  function CounterOps(s: State, steps: seq<Step>): seq<FailoverSync.Op> {
    if steps == [] then []
    else
      var init := steps[..|steps| - 1];
      CounterOps(s, init) + CounterOp(Run(s, init), steps[|steps| - 1])
  }

  lemma CounterStep(s: State, step: Step)
    ensures var n, op := Apply(s, step).shared.numTasks, CounterOp(s, step);
            |op| <= 1 && n == if op == [] then s.shared.numTasks else FailoverSync.After(s.shared.numTasks, op[0])
  {
  }

  /** The counter of the pair runs as the shared counter does. */
  lemma {:induction false} CounterRunsAsShared(s: State, steps: seq<Step>)
    ensures Run(s, steps).shared.numTasks == FailoverSync.AfterAll(s.shared.numTasks, CounterOps(s, steps))
  {
    if steps != [] {
      var init, last := steps[..|steps| - 1], steps[|steps| - 1];
      CounterRunsAsShared(s, init);
      CounterStep(Run(s, init), last);
      FailoverSync.AfterOneMore(s.shared.numTasks, CounterOps(s, init), CounterOp(Run(s, init), last));
    }
  }

  /**
   So a pair is completed exactly when the search has stopped waiting, a task has reported a reader, or each of its tasks
   has reported a failure: two of them, or one when the host is alone.
   */
  lemma CompletedExactlyWhen(first: HostInfo, second: Option<HostInfo>, steps: seq<Step>)
    ensures var s := Start(first, second);
            var ops := CounterOps(s, steps);
            FailoverSync.IsDone(Run(s, steps).shared.numTasks) <==>
            || FailoverSync.WaitAndComplete in ops || FailoverSync.Mark(true) in ops
            || FailoverSync.Marks(ops) >= if second.Some? then 2 else 1
  {
    var s := Start(first, second);
    var ops := CounterOps(s, steps);
    CounterRunsAsShared(s, steps);
    FailoverSync.DoneExactlyWhen(if second.Some? then 2 else 1, ops);
    assert FailoverSync.Cancels(FailoverSync.WaitAndComplete) && FailoverSync.Cancels(FailoverSync.Mark(true));
    assert forall op | op in ops && FailoverSync.Cancels(op) :: op == FailoverSync.WaitAndComplete || op == FailoverSync.Mark(true);
  }

  // ----- the pair comes to an end

  function StepsOf(steps: seq<Step>, mine: Step -> bool): nat {
    if steps == [] then 0
    else StepsOf(steps[..|steps| - 1], mine) + (if mine(steps[|steps| - 1]) then 1 else 0)
  }

  /** How many more steps of its own a task may take. */
  function RankRacer(pc: Pc): nat {
    match pc
    case Begin => 5
    case Connecting => 4
    case Check => 3
    case CheckFailed => 3
    case Publish => 2
    case MarkFailed => 2
    case MarkConnected => 1
    case Release => 1
    case Done => 0
    case Threw => 0
  }

  function RankOf(s: State, who: Who): nat {
    if who == First then RankRacer(s.first.pc) else if s.second.Some? then RankRacer(s.second.value.pc) else 0
  }

  /** How many more steps of its own the search may take once the time has run out. */
  function RankExpired(pc: PollPc): nat {
    match pc
    case Waiting => 5
    case PollFirst => 4
    case PollSecond => 3
    case PollBoth => 2
    case PollTime => 1
    case Left(_) => 0
  }

  /** The same once every task of the pair has ended, whatever the clock says. */
  function RankEnded(s: State): nat {
    match s.poll
    case Waiting => 4
    case PollFirst => 3
    case PollSecond => if s.validFirst then 6 else 2
    case PollBoth => if s.validFirst || (s.second.Some? && s.validSecond) then 5 else 1
    case PollTime => 4
    case Left(_) => 0
  }

  predicate IsOf(step: Step, who: Who) {
    if who == First then step.StepFirst? else step.StepSecond?
  }

  lemma RacerRankFalls(s: State, step: Step, who: Who)
    ensures var t := Apply(s, step);
            if IsOf(step, who) then RankOf(t, who) < RankOf(s, who) || RankOf(t, who) == 0 else RankOf(t, who) == RankOf(s, who)
  {
    match step
    case StepFirst(e) =>
    case StepSecond(e) =>
    case StepPoll(e) =>
  }

  lemma SearchRanksFall(s: State, e: Env)
    ensures var t := Poll(s, e);
            && t.first == s.first && t.second == s.second
            && (e.expired ==> RankExpired(t.poll) < RankExpired(s.poll) || RankExpired(t.poll) == 0)
            && (Ended(s, First) && Ended(s, Second) ==> RankEnded(t) < RankEnded(s) || RankEnded(t) == 0)
  {
    match s.poll
    case Waiting =>
    case PollFirst =>
    case PollSecond =>
    case PollBoth =>
    case PollTime =>
    case Left(_) =>
  }

  lemma {:induction false} RacerRanksFall(s: State, steps: seq<Step>, who: Who)
    ensures var t, n := Run(s, steps), StepsOf(steps, (step: Step) => IsOf(step, who));
            RankOf(t, who) == 0 || RankOf(t, who) + n <= RankOf(s, who)
  {
    if steps != [] {
      RacerRanksFall(s, steps[..|steps| - 1], who);
      RacerRankFalls(Run(s, steps[..|steps| - 1]), steps[|steps| - 1], who);
    }
  }

  lemma {:induction false} ExpiredRanksFall(s: State, steps: seq<Step>)
    requires forall step | step in steps :: step.env.expired
    ensures var t, n := Run(s, steps), StepsOf(steps, (step: Step) => step.StepPoll?);
            RankExpired(t.poll) == 0 || RankExpired(t.poll) + n <= RankExpired(s.poll)
  {
    if steps != [] {
      var init, last := steps[..|steps| - 1], steps[|steps| - 1];
      ExpiredRanksFall(s, init);
      assert last in steps;
      if last.StepPoll? {
        SearchRanksFall(Run(s, init), last.env);
      }
    }
  }

  lemma EndedStays(s: State, step: Step)
    requires Ended(s, First) && Ended(s, Second) && !step.StepPoll?
    ensures Apply(s, step) == s
  {
  }

  lemma {:induction false} EndedRanksFall(s: State, steps: seq<Step>)
    requires Ended(s, First) && Ended(s, Second)
    ensures var t, n := Run(s, steps), StepsOf(steps, (step: Step) => step.StepPoll?);
            Ended(t, First) && Ended(t, Second) && (RankEnded(t) == 0 || RankEnded(t) + n <= RankEnded(s))
  {
    if steps != [] {
      var init, last := steps[..|steps| - 1], steps[|steps| - 1];
      EndedRanksFall(s, init);
      if last.StepPoll? {
        SearchRanksFall(Run(s, init), last.env);
      } else {
        EndedStays(Run(s, init), last);
      }
    }
  }

  /**
   A pair comes to an end: each task within five steps of its own, and the search within five of its own when the time
   has run out, or within six, whatever the clock says, when the tasks have ended.
   */
  lemma PairComesToAnEnd(s: State, steps: seq<Step>)
    ensures forall who :: StepsOf(steps, (step: Step) => IsOf(step, who)) >= 5 ==> Ended(Run(s, steps), who)
    ensures (forall step | step in steps :: step.env.expired) && StepsOf(steps, (step: Step) => step.StepPoll?) >= 5 ==>
              Run(s, steps).poll.Left?
    ensures Ended(s, First) && Ended(s, Second) && StepsOf(steps, (step: Step) => step.StepPoll?) >= 6 ==>
              Run(s, steps).poll.Left?
  {
    forall who
      ensures StepsOf(steps, (step: Step) => IsOf(step, who)) >= 5 ==> Ended(Run(s, steps), who)
    {
      RacerRanksFall(s, steps, who);
    }
    if forall step | step in steps :: step.env.expired {
      ExpiredRanksFall(s, steps);
    }
    if Ended(s, First) && Ended(s, Second) {
      EndedRanksFall(s, steps);
    }
  }

  // ----- the exception

  /** A task throws exactly when its connect does or it reports its failure to a counter that is done. */
  lemma RacerThrowsExactlyWhen(sh: Shared, r: Racer, who: Who, e: Env)
    ensures Race(sh, r, who, e).1.pc.Threw? <==>
            r.pc.Threw? || (r.pc.MarkFailed? && FailoverSync.IsDone(sh.numTasks)) || (r.pc.Connecting? && e.connectThrows)
  {
  }

  /** The task's report comes too late. */
  predicate ReportsLate(s: State, step: Step, who: Who) {
    && FailoverSync.IsDone(s.shared.numTasks)
    && if who == First then step.StepFirst? && s.first.pc.MarkFailed?
       else step.StepSecond? && s.second.Some? && s.second.value.pc.MarkFailed?
  }

  /** The connect of the task raises an exception. */
  predicate ConnectRaises(s: State, step: Step, who: Who) {
    && step.env.connectThrows
    && if who == First then step.StepFirst? && s.first.pc.Connecting?
       else step.StepSecond? && s.second.Some? && s.second.value.pc.Connecting?
  }

  predicate HasThrown(s: State, who: Who) {
    if who == First then s.first.pc.Threw? else s.second.Some? && s.second.value.pc.Threw?
  }

  /** The search asks for the result of a task that threw. */
  predicate ReadsException(s: State, step: Step) {
    && step.StepPoll?
    && (|| (s.poll.PollFirst? && s.validFirst && HasThrown(s, First))
        || (s.poll.PollSecond? && s.validSecond && HasThrown(s, Second)))
  }

  lemma StepThrowsExactlyWhen(s: State, step: Step, who: Who)
    ensures HasThrown(Apply(s, step), who) <==> HasThrown(s, who) || ReportsLate(s, step, who) || ConnectRaises(s, step, who)
  {
    match step
    case StepFirst(e) => RacerThrowsExactlyWhen(s.shared, s.first, First, e);
    case StepSecond(e) =>
      if s.second.Some? {
        RacerThrowsExactlyWhen(s.shared, s.second.value, Second, e);
      }
    case StepPoll(e) =>
  }

  /** Some step of the run is a late report, or a connect that raises an exception. */
  predicate EverThrows(s: State, steps: seq<Step>, who: Who) {
    steps != [] &&
    var init, last := steps[..|steps| - 1], steps[|steps| - 1];
    EverThrows(s, init, who) || ReportsLate(Run(s, init), last, who) || ConnectRaises(Run(s, init), last, who)
  }

  /**
   Over every run: a task has thrown if and only if at some step its connect did or it reported its failure too late.
   */
  lemma {:induction false} RunThrowsExactlyWhen(s: State, steps: seq<Step>, who: Who)
    requires !HasThrown(s, who)
    ensures HasThrown(Run(s, steps), who) <==> EverThrows(s, steps, who)
  {
    if steps != [] {
      RunThrowsExactlyWhen(s, steps[..|steps| - 1], who);
      StepThrowsExactlyWhen(Run(s, steps[..|steps| - 1]), steps[|steps| - 1], who);
    }
  }

  predicate LeavesThrown(s: State) {
    s.poll == Left(Thrown)
  }

  lemma SearchStepThrowsExactlyWhen(s: State, step: Step)
    ensures LeavesThrown(Apply(s, step)) <==> LeavesThrown(s) || ReadsException(s, step)
  {
  }

  /** Some step of the run asks for the result of a task that threw. */
  predicate EverReadsException(s: State, steps: seq<Step>) {
    steps != [] &&
    var init := steps[..|steps| - 1];
    EverReadsException(s, init) || ReadsException(Run(s, init), steps[|steps| - 1])
  }

  /** Over every run: the search leaves with an exception if and only if it polled a task that had thrown. */
  lemma {:induction false} SearchThrowsExactlyWhen(s: State, steps: seq<Step>)
    requires !LeavesThrown(s)
    ensures LeavesThrown(Run(s, steps)) <==> EverReadsException(s, steps)
  {
    if steps != [] {
      SearchThrowsExactlyWhen(s, steps[..|steps| - 1]);
      SearchStepThrowsExactlyWhen(Run(s, steps[..|steps| - 1]), steps[|steps| - 1]);
    }
  }

  ghost predicate Reaches(s: State, t: State) {
    exists steps :: Run(s, steps) == t
  }

  lemma Advance(s: State, t: State, step: Step) returns (u: State)
    requires Reaches(s, t)
    ensures u == Apply(t, step) && Reaches(s, u)
  {
    u := Apply(t, step);
    var steps :| Run(s, steps) == t;
    assert (steps + [step])[..|steps + [step]| - 1] == steps;
    assert Run(s, steps + [step]) == u;
  }

  const PLAIN := Env(false, false, true, false)

  /** The task has failed, has looked at the counter and has not reported. */
  predicate AtReport(s: State, who: Who) {
    if who == First then s.first.pc.MarkFailed? else s.second.Some? && s.second.value.pc.MarkFailed?
  }

  predicate AtConnect(s: State, who: Who) {
    if who == First then s.first.pc.Connecting? else s.second.Some? && s.second.value.pc.Connecting?
  }

  predicate MayThrow(s: State, who: Who) {
    AtReport(s, who) || AtConnect(s, who)
  }

  /** After completion no further task comes to connect or to report a failure. */
  lemma BarredStep(s: State, step: Step, who: Who)
    requires FailoverSync.IsDone(s.shared.numTasks)
    ensures FailoverSync.IsDone(Apply(s, step).shared.numTasks)
    ensures !MayThrow(s, who) && !HasThrown(s, who) ==> !MayThrow(Apply(s, step), who) && !HasThrown(Apply(s, step), who)
  {
  }

  lemma {:induction false} Barred(s: State, steps: seq<Step>, who: Who)
    requires FailoverSync.IsDone(s.shared.numTasks)
    ensures FailoverSync.IsDone(Run(s, steps).shared.numTasks)
    ensures !MayThrow(s, who) && !HasThrown(s, who) ==> !MayThrow(Run(s, steps), who) && !HasThrown(Run(s, steps), who)
  {
    if steps != [] {
      Barred(s, steps[..|steps| - 1], who);
      BarredStep(Run(s, steps[..|steps| - 1]), steps[|steps| - 1], who);
    }
  }

  /**
   Once the pair is completed, a task can still throw if and only if it has passed its look at the counter: it is about to
   connect, or has failed and not reported yet.
   */
  lemma WhoMayThrowAfterCompletion(s: State, who: Who)
    requires FailoverSync.IsDone(s.shared.numTasks) && !HasThrown(s, who)
    ensures (exists t :: Reaches(s, t) && HasThrown(t, who)) <==> MayThrow(s, who)
  {
    forall t | Reaches(s, t) && HasThrown(t, who)
      ensures MayThrow(s, who)
    {
      var steps :| Run(s, steps) == t;
      Barred(s, steps, who);
    }
    if MayThrow(s, who) {
      assert Run(s, []) == s;
      var e := PLAIN.(connectThrows := true);
      var t := Advance(s, s, if who == First then StepFirst(e) else StepSecond(e));
      assert HasThrown(t, who);
    }
  }

  lemma PublishAndThrow(s: State, t: State) returns (u: State)
    requires Reaches(s, t) && t.second.Some? && t.second.value.pc.Publish? && t.first.pc.MarkFailed?
    requires t.validFirst && t.poll.Waiting?
    ensures Reaches(s, u) && u.poll == Left(Thrown) && u.second.Some? && u.second.value.pc.Done?
    ensures u.second.value.result.connected
  {
    u := Advance(s, t, StepSecond(PLAIN));
    u := Advance(s, u, StepSecond(PLAIN));
    u := Advance(s, u, StepFirst(PLAIN));
    assert u.first.pc.Threw? && u.second.value.pc.Done?;
    u := Advance(s, u, StepPoll(PLAIN));
    u := Advance(s, u, StepPoll(PLAIN));
  }

  /**
   A failed task looks at the counter and then reports in a second operation; when its partner succeeds in between,
   the report throws. The search reads the failed task first, so the exception hides a connected, published reader.
   */
  lemma ExceptionCanHideAReader(first: HostInfo, second: HostInfo)
    ensures exists t :: Reaches(Start(first, Some(second)), t)
                        && t.poll == Left(Thrown) && t.second.Some? && t.second.value.pc.Done?
                        && t.second.value.result.connected
  {
    var s := Start(first, Some(second));
    assert Run(s, []) == s;
    var t := Advance(s, s, StepFirst(PLAIN));
    t := Advance(s, t, StepFirst(PLAIN));
    t := Advance(s, t, StepFirst(PLAIN));
    assert t == s.(first := t.first) && t.first.pc.MarkFailed?;
    var winner := StepSecond(PLAIN.(connects := true));
    t := Advance(s, t, winner);
    t := Advance(s, t, winner);
    t := Advance(s, t, winner);
    assert t.second.value.pc.Publish? && t.first.pc.MarkFailed? && t.validFirst && t.poll.Waiting?;
    t := PublishAndThrow(s, t);
  }

  // ----- a reader is found

  /** An undisturbed task whose connect succeeds publishes it and completes the pair. */
  lemma FirstPublishes(s: State) returns (t: State)
    requires s.first.pc.Begin? && !FailoverSync.IsDone(s.shared.numTasks)
    ensures Reaches(s, t) && t.first.pc.Done? && t.poll == s.poll && t.second == s.second && t.validFirst == s.validFirst
    ensures t.first.result == ReaderResult(true, Some(s.first.host), Some(|s.shared.conns|))
  {
    assert Run(s, []) == s;
    var good := StepFirst(PLAIN.(connects := true));
    t := Advance(s, s, good);
    t := Advance(s, t, good);
    t := Advance(s, t, good);
    assert t.first.pc.Publish? && t.first.newConnection == Some(|s.shared.conns|);
    t := Advance(s, t, good);
    t := Advance(s, t, good);
  }

  lemma SecondPublishes(s: State) returns (t: State)
    requires s.second.Some? && s.second.value.pc.Begin? && !FailoverSync.IsDone(s.shared.numTasks)
    ensures Reaches(s, t) && t.second.Some? && t.second.value.pc.Done? && t.poll == s.poll && t.first == s.first
    ensures t.validFirst == s.validFirst && t.validSecond == s.validSecond
    ensures t.second.value.result == ReaderResult(true, Some(s.second.value.host), Some(|s.shared.conns|))
  {
    assert Run(s, []) == s;
    var good := StepSecond(PLAIN.(connects := true));
    t := Advance(s, s, good);
    t := Advance(s, t, good);
    t := Advance(s, t, good);
    assert t.second.Some? && t.second.value.pc.Publish? && t.second.value.newConnection == Some(|s.shared.conns|);
    t := Advance(s, t, good);
    t := Advance(s, t, good);
  }

  /** A host that connects is handed out: the first of any pair, alone or not, and the second when the first is slower. */
  lemma ConnectedHostIsHandedOut(first: HostInfo, second: Option<HostInfo>)
    ensures exists t :: Reaches(Start(first, second), t)
                        && t.poll == Left(Connected(ReaderResult(true, Some(first), Some(0))))
    ensures second.Some? ==> exists t :: Reaches(Start(first, second), t)
                                         && t.poll == Left(Connected(ReaderResult(true, second, Some(0))))
  {
    var s := Start(first, second);
    var t := FirstPublishes(s);
    t := Advance(s, t, StepPoll(PLAIN));
    t := Advance(s, t, StepPoll(PLAIN));
    assert t.poll == Left(Connected(ReaderResult(true, Some(first), Some(0))));
    if second.Some? {
      var u := SecondPublishes(s);
      u := Advance(s, u, StepPoll(PLAIN));
      u := Advance(s, u, StepPoll(PLAIN));
      u := Advance(s, u, StepPoll(PLAIN));
      assert u.poll == Left(Connected(ReaderResult(true, second, Some(0))));
    }
  }

  // ----- what a published reader has gone through

  /** The task's connect yields connection i, and the connection is alive. */
  predicate ConnectsAlive(s: State, step: Step, who: Who, i: nat) {
    && !step.env.connectThrows && step.env.connects && step.env.alive && i == |s.shared.conns|
    && if who == First then step.StepFirst? && s.first.pc.Connecting?
       else step.StepSecond? && s.second.Some? && s.second.value.pc.Connecting?
  }

  predicate EverConnectsAlive(s: State, steps: seq<Step>, who: Who, i: nat) {
    steps != [] &&
    var init := steps[..|steps| - 1];
    EverConnectsAlive(s, init, who, i) || ConnectsAlive(Run(s, init), steps[|steps| - 1], who, i)
  }

  /** Where a task stands between its connect and the end, with a connection that was alive. */
  predicate HoldsAlive(r: Racer) {
    r.pc.Check? || r.pc.Publish? || r.result.connected
  }

  predicate Holds(s: State, who: Who, i: nat) {
    if who == First then HoldsAlive(s.first) && s.first.newConnection == Some(i)
    else s.second.Some? && HoldsAlive(s.second.value) && s.second.value.newConnection == Some(i)
  }

  lemma HoldsStep(s: State, step: Step, who: Who, i: nat)
    requires Inv(s) && Holds(Apply(s, step), who, i)
    ensures Holds(s, who, i) || ConnectsAlive(s, step, who, i)
  {
  }

  lemma {:induction false} HeldWasAlive(s: State, steps: seq<Step>, who: Who, i: nat)
    requires Inv(s) && Holds(Run(s, steps), who, i)
    ensures Holds(s, who, i) || EverConnectsAlive(s, steps, who, i)
  {
    if steps != [] {
      var init := steps[..|steps| - 1];
      Reachable(s, init);
      HoldsStep(Run(s, init), steps[|steps| - 1], who, i);
      if Holds(Run(s, init), who, i) {
        HeldWasAlive(s, init, who, i);
      }
    }
  }

  /** A reader is only published over a connection that was alive when the task received it. */
  lemma PublishedReaderWasAlive(first: HostInfo, second: Option<HostInfo>, steps: seq<Step>)
    ensures var s := Start(first, second);
            var t := Run(s, steps);
            && (t.first.result.connected ==>
                  t.first.result.connection.Some? && EverConnectsAlive(s, steps, First, t.first.result.connection.value))
            && (t.second.Some? && t.second.value.result.connected ==>
                  && t.second.value.result.connection.Some?
                  && EverConnectsAlive(s, steps, Second, t.second.value.result.connection.value))
  {
    var s := Start(first, second);
    var t := Run(s, steps);
    Reachable(s, steps);
    if t.first.result.connected {
      HeldWasAlive(s, steps, First, t.first.result.connection.value);
    }
    if t.second.Some? && t.second.value.result.connected {
      HeldWasAlive(s, steps, Second, t.second.value.result.connection.value);
    }
  }

  predicate AtPublish(s: State, who: Who) {
    if who == First then s.first.pc.Publish? else s.second.Some? && s.second.value.pc.Publish?
  }

  predicate HasPublished(s: State, who: Who) {
    if who == First then s.first.result.connected else s.second.Some? && s.second.value.result.connected
  }

  lemma NoLatePublication(s: State, step: Step, who: Who)
    requires FailoverSync.IsDone(s.shared.numTasks)
    ensures FailoverSync.IsDone(Apply(s, step).shared.numTasks)
    ensures !AtPublish(s, who) && !HasPublished(s, who) ==>
              !AtPublish(Apply(s, step), who) && !HasPublished(Apply(s, step), who)
  {
  }

  lemma {:induction false} NoLatePublications(s: State, steps: seq<Step>, who: Who)
    requires FailoverSync.IsDone(s.shared.numTasks)
    ensures FailoverSync.IsDone(Run(s, steps).shared.numTasks)
    ensures !AtPublish(s, who) && !HasPublished(s, who) ==>
              !AtPublish(Run(s, steps), who) && !HasPublished(Run(s, steps), who)
  {
    if steps != [] {
      NoLatePublications(s, steps[..|steps| - 1], who);
      NoLatePublication(Run(s, steps[..|steps| - 1]), steps[|steps| - 1], who);
    }
  }

  /** Once the pair is completed, a task can still publish if and only if it stands between its last check and that. */
  lemma WhoMayPublishAfterCompletion(s: State, who: Who)
    requires FailoverSync.IsDone(s.shared.numTasks) && !HasPublished(s, who)
    ensures (exists t :: Reaches(s, t) && HasPublished(t, who)) <==> AtPublish(s, who)
  {
    forall t | Reaches(s, t) && HasPublished(t, who)
      ensures AtPublish(s, who)
    {
      var steps :| Run(s, steps) == t;
      NoLatePublications(s, steps, who);
    }
    if AtPublish(s, who) {
      assert Run(s, []) == s;
      var t := Advance(s, s, if who == First then StepFirst(PLAIN) else StepSecond(PLAIN));
      assert HasPublished(t, who);
    }
  }
}
