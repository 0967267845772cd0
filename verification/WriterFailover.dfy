/**
 Writer failover: task A reconnects to the old writer, task B looks for a new one through a reader, and the caller
 waits and polls. The three run interleaved; every step below is one operation on the shared counter, one connect,
 one topology query, one release or one publication, and the environment chooses every outcome and the interleaving.
 */
module WriterFailover {

  import opened Wrappers
  import opened Hosts
  import opened Connections
  import FailoverSync
  import Race = ReaderRace

  datatype Task = TaskA | TaskB

  datatype WriterResult = WriterResult(connected: bool, isNewHost: bool, topology: Option<Topology>, connection: Handle)

  const NOT_CONNECTED := WriterResult(false, false, None, None)

  datatype PcA =
    | ALoop
    | AConnect
    | ATopology
    | AReleaseAndRetry
    | ACheck(latest: Topology)
    | APublish(latest: Topology)
    | AMark
    | ARelease
    | ADone
    | AThrew

  datatype StateA = StateA(pc: PcA, newConnection: Handle, result: WriterResult)

  datatype PcB =
    | BLoop
    | BTest
    | BReader
    | BGetReader
    | BRefresh
    | BTopology
    | BConnectWriter(candidate: HostInfo)
    | BCleanUp
    | BPublish
    | BMark
    | BCancelledCleanUp
    | BRelease
    | BDone
    | BThrew

  datatype StateB = StateB(
    pc: PcB,
    newConnection: Handle,
    readerConnection: Handle,
    readerHost: Option<HostInfo>,
    topology: Topology,
    result: WriterResult)

  datatype PcCaller =
    | Waiting
    | PollA
    | PollB
    | PollBoth
    | PollTime
    | Returned(result: WriterResult)
    | CallerThrew

  datatype Caller = Caller(pc: PcCaller, validA: bool, validB: bool)

  /** `fault` is raised by a use or a release of a connection that is missing, released or published. */
  datatype State = State(numTasks: int, conns: seq<Connection<Task>>, a: StateA, b: StateB, caller: Caller, fault: bool)

  /** The environment's answers to whatever the next step asks. */
  datatype Env = Env(
    connects: bool,        // the connect attempt yields a connection
    connectThrows: bool,   // it raises an exception, for want of a connection handle
    alive: bool,           // what is_connected says
    topology: Topology,    // the answer to a topology query
    search: Race.Outcome,  // how the search for a reader ends, exceptions of its tasks included
    expired: bool)         // the failover timeout has passed

  datatype Step = StepA(env: Env) | StepB(env: Env) | StepCaller(env: Env)

  // ----- operations on the connection table

  /** Deleting a connection faults unless it is open. */
  function Delete(s: State, h: Handle): State {
    s.(conns := SetStatus(s.conns, h, Released), fault := s.fault || !Usable(s.conns, h))
  }

  function Use(s: State, h: Handle): State {
    s.(fault := s.fault || !Usable(s.conns, h))
  }

  // ----- task A

  function ReleaseA(s: State): State {
    if s.a.newConnection.None? then s
    else
      var t := Delete(s, s.a.newConnection);
      t.(a := t.a.(newConnection := None))
  }

  /** Whether the writer of a topology is the original one; an original writer without a name never is. */
  predicate IsOriginalWriter(original: HostInfo, latest: HostInfo) {
    original.instanceName != "" && latest.instanceName == original.instanceName
  }

  function ApplyA(original: HostInfo, s: State, e: Env): State {
    match s.a.pc
    case ALoop =>
      s.(a := s.a.(pc := if FailoverSync.IsDone(s.numTasks) then ARelease else AConnect))
    case AConnect =>
      if e.connectThrows then
        s.(a := s.a.(pc := AThrew))
      else if e.connects then
        var grown := s.(conns := s.conns + [Connection(original, TaskA, Open)]);
        grown.(a := s.a.(newConnection := Some(|s.conns|), pc := if e.alive then ATopology else ALoop))
      else
        s.(a := s.a.(newConnection := None, pc := ALoop))
    case ATopology =>
      var used := Use(s, s.a.newConnection);
      if e.topology.TotalHosts() == 0 || original.instanceName == "" then
        used.(a := s.a.(pc := AReleaseAndRetry))
      else
        (match e.topology.GetWriter()
         case None => used.(a := s.a.(pc := AThrew))
         case Some(latest) =>
           used.(a := s.a.(pc := if IsOriginalWriter(original, latest) then ACheck(e.topology) else AReleaseAndRetry)))
    case AReleaseAndRetry =>
      var t := ReleaseA(s);
      t.(a := t.a.(pc := ALoop))
    case ACheck(latest) =>
      s.(a := s.a.(pc := if FailoverSync.IsDone(s.numTasks) then ARelease else APublish(latest)))
    case APublish(latest) =>
      var used := Use(s, s.a.newConnection);
      used.(
      conns := SetStatus(s.conns, s.a.newConnection, Published),
      a := s.a.(result := WriterResult(true, false, Some(latest), s.a.newConnection), pc := AMark))
    case AMark =>
      s.(numTasks := FailoverSync.After(s.numTasks, FailoverSync.Mark(true)), a := s.a.(pc := ADone))
    case ARelease =>
      var t := ReleaseA(s);
      t.(a := t.a.(pc := ADone))
    case ADone => s
    case AThrew => s
  }

  // ----- task B

  function ReleaseB(s: State): State {
    if s.b.newConnection.None? then s
    else
      var t := Delete(s, s.b.newConnection);
      t.(b := t.b.(newConnection := None))
  }

  /** The reader connection is closed unless it became the new connection. */
  function CleanUpReader(s: State): State {
    if s.b.readerConnection.Some? && s.b.newConnection != s.b.readerConnection then
      var t := Delete(s, s.b.readerConnection);
      t.(b := t.b.(readerConnection := None))
    else s
  }

  predicate FindsReader(e: Env) {
    e.search.Connected? && e.search.result.connected && e.search.result.host.Some?
  }

  function ApplyB(original: HostInfo, s: State, e: Env): State {
    match s.b.pc
    case BLoop =>
      s.(b := s.b.(pc := if FailoverSync.IsDone(s.numTasks) then BCancelledCleanUp else BTest))
    case BTest =>
      if s.b.newConnection.None? then s.(b := s.b.(pc := BReader))
      else Use(s, s.b.newConnection).(b := s.b.(pc := if e.alive then BPublish else BReader))
    case BReader =>
      s.(b := s.b.(pc := if FailoverSync.IsDone(s.numTasks) then BRefresh else BGetReader))
    case BGetReader =>
      if e.search.Thrown? then
        s.(b := s.b.(pc := BThrew))
      else if FindsReader(e) then
        var host := e.search.result.host;
        var grown := s.(conns := s.conns + [Connection(host.value, TaskB, Open)]);
        if e.alive then
          grown.(b := s.b.(readerConnection := Some(|s.conns|), readerHost := host, pc := BRefresh))
        else
          grown.(b := s.b.(pc := BReader))
      else
        s.(b := s.b.(pc := BReader))
    case BRefresh =>
      s.(b := s.b.(pc := if FailoverSync.IsDone(s.numTasks) then BCleanUp else BTopology))
    case BTopology =>
      var used := Use(s, s.b.readerConnection);
      if e.topology.TotalHosts() == 0 then
        used.(b := s.b.(pc := BRefresh))
      else
        (match e.topology.GetWriter()
         case None => used.(b := s.b.(topology := e.topology, pc := BThrew))
         case Some(candidate) =>
           used.(b := s.b.(topology := e.topology,
                           pc := if IsHostSame(candidate, original) then BRefresh else BConnectWriter(candidate))))
    case BConnectWriter(candidate) =>
      if s.b.readerHost.None? then
        s.(fault := true)  // the reader host is looked at without a check
      else if IsHostSame(candidate, s.b.readerHost.value) then
        s.(b := s.b.(newConnection := s.b.readerConnection, pc := BCleanUp))
      else if e.connectThrows then
        s.(b := s.b.(pc := BThrew))
      else if e.connects then
        var grown := s.(conns := s.conns + [Connection(candidate, TaskB, Open)]);
        grown.(b := s.b.(newConnection := Some(|s.conns|), pc := if e.alive then BCleanUp else BRefresh))
      else
        s.(b := s.b.(newConnection := None, pc := BRefresh))
    case BCleanUp =>
      var t := CleanUpReader(s);
      t.(b := t.b.(pc := BLoop))
    case BPublish =>
      var used := Use(s, s.b.newConnection);
      used.(
      conns := SetStatus(s.conns, s.b.newConnection, Published),
      b := s.b.(result := WriterResult(true, true, Some(s.b.topology), s.b.newConnection), pc := BMark))
    case BMark =>
      s.(numTasks := FailoverSync.After(s.numTasks, FailoverSync.Mark(true)), b := s.b.(pc := BDone))
    case BCancelledCleanUp =>
      var t := CleanUpReader(s);
      t.(b := t.b.(pc := BRelease))
    case BRelease =>
      var t := ReleaseB(s);
      t.(b := t.b.(pc := BDone))
    case BDone => s
    case BThrew => s
  }

  // ----- the caller

  /** A future can be read once its task has ended; reading one whose task threw throws again. */
  function ApplyCaller(s: State, e: Env): State {
    var c := s.caller;
    match c.pc
    case Waiting =>
      s.(numTasks := FailoverSync.After(s.numTasks, FailoverSync.WaitAndComplete), caller := c.(pc := PollA))
    case PollA =>
      if c.validA && s.a.pc.AThrew? then s.(caller := c.(validA := false, pc := CallerThrew))
      else if c.validA && s.a.pc.ADone? then
        s.(caller := c.(validA := false, pc := if s.a.result.connected then Returned(s.a.result) else PollB))
      else s.(caller := c.(pc := PollB))
    case PollB =>
      if c.validB && s.b.pc.BThrew? then s.(caller := c.(validB := false, pc := CallerThrew))
      else if c.validB && s.b.pc.BDone? then
        s.(caller := c.(validB := false, pc := if s.b.result.connected then Returned(s.b.result) else PollBoth))
      else s.(caller := c.(pc := PollBoth))
    case PollBoth =>
      s.(caller := c.(pc := if !c.validA && !c.validB then Returned(NOT_CONNECTED) else PollTime))
    case PollTime =>
      s.(caller := c.(pc := if e.expired then Returned(NOT_CONNECTED) else PollA))
    case Returned(_) => s
    case CallerThrew => s
  }

  function Apply(original: HostInfo, s: State, step: Step): State {
    match step
    case StepA(e) => ApplyA(original, s, e)
    case StepB(e) => ApplyB(original, s, e)
    case StepCaller(e) => ApplyCaller(s, e)
  }

  function Run(original: HostInfo, s: State, steps: seq<Step>): State {
    if steps == [] then s
    else Apply(original, Run(original, s, steps[..|steps| - 1]), steps[|steps| - 1])
  }

  function Start(topology: Topology): State {
    State(
      2,
      [],
      StateA(ALoop, None, NOT_CONNECTED),
      StateB(BLoop, None, None, None, topology, NOT_CONNECTED),
      Caller(Waiting, true, true),
      false)
  }

  /** How a call of failover begins: a missing or empty topology ends it, one without a writer throws. */
  datatype Launch = Refused(result: WriterResult) | LaunchThrew | Launched(original: HostInfo, start: State)

  function Failover(topology: Option<Topology>): Launch {
    if topology.None? || topology.value.TotalHosts() == 0 then Refused(NOT_CONNECTED)
    else
      match topology.value.GetWriter()
      case None => LaunchThrew
      case Some(writer) => Launched(writer, Start(topology.value))
  }
}
