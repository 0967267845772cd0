/**
 The failover entry point of a session: whether a connection error starts failover, whether it goes to a reader or to
 the writer, which host the session ends on and which SQLSTATE the application sees. The searches it starts are the
 ones of ReaderSearch and WriterFailover, under whatever schedule the environment chooses.
 */
module FailoverHandler {

  import opened Wrappers
  import opened Hosts
  import Race = ReaderRace
  import Search = ReaderSearch
  import Writer = WriterFailover
  import Safety = WriterFailoverSafety

  datatype Mode = StrictWriter | StrictReader | ReaderOrWriter

  datatype Outcome = NotTriggered | Triggered | Threw

  /** Everything the environment decides during one failover. */
  datatype Env = Env(
    completed: nat -> bool,
    rounds: nat -> Search.Round,
    expired: bool,
    writerSteps: seq<Writer.Step>,
    alive: bool)  // what is_connected says when the session takes the new connection over

  /** The searches come to an end, and topologies list hosts under their own roles. */
  ghost predicate Ends(e: Env, completedAt: nat, topology: Option<Topology>) {
    && e.completed(completedAt)
    && (forall k: nat :: Search.RoundEnds(e.rounds(k)))
    && (forall step | step in e.writerSteps :: step.env.topology.RolesAgree())
    && (Writer.Failover(topology).Launched? ==>
          var end := WriterEnd(topology, e).caller.pc;
          end.Returned? || end.CallerThrew?)
    && (topology.Some? ==> topology.value.RolesAgree())
  }

  function WriterEnd(topology: Option<Topology>, e: Env): Writer.State
    requires Writer.Failover(topology).Launched?
  {
    var launch := Writer.Failover(topology);
    Writer.Run(launch.original, launch.start, e.writerSteps)
  }

  /** The connected result writer failover comes back with, if it does. */
  function WriterFound(topology: Option<Topology>, e: Env): Option<Writer.WriterResult> {
    if !Writer.Failover(topology).Launched? then None
    else
      var pc := WriterEnd(topology, e).caller.pc;
      if pc.Returned? && pc.result.connected then Some(pc.result) else None
  }

  /** Writer failover throws: at once for want of a writer, or with the exception of a task. */
  predicate WriterThrows(topology: Option<Topology>, e: Env) {
    || Writer.Failover(topology).LaunchThrew?
    || (Writer.Failover(topology).Launched? && WriterEnd(topology, e).caller.pc.CallerThrew?)
  }

  /** Writer failover found a writer, and the filter allows the writer of the topology that comes with it. */
  predicate WriterTaken(topology: Option<Topology>, filter: HostFilter, e: Env) {
    && WriterFound(topology, e).Some?
    && var found := WriterFound(topology, e).value.topology;
       found.Some? && found.value.writers != [] && Allows(filter, found.value.writers[0])
  }

  /** The host is the writer of the topology that comes with the result of writer failover. */
  predicate IsWriterFound(topology: Option<Topology>, e: Env, host: Option<HostInfo>) {
    && WriterFound(topology, e).Some? && WriterFound(topology, e).value.topology.Some?
    && host == WriterFound(topology, e).value.topology.value.GetWriter()
  }

  /**
   How reader failover over the allowed hosts ends: there are none, or after some empty rounds, each over its own list,
   the failover is completed or the next round finds a reader or throws.
   */
  ghost predicate ReaderSearchEnds(topology: Topology, filter: HostFilter, strict: bool, e: Env,
                                   lists: seq<seq<HostInfo>>, last: seq<HostInfo>, found: Race.Outcome)
  {
    var allowed := Through(filter, topology);
    if allowed.TotalHosts() == 0 then found.NotConnected?
    else
      && Search.EmptyRounds(allowed, strict, e.completed, e.rounds, lists)
      && Search.LastRound(allowed, strict, e.completed, e.rounds, |lists|, last, found)
  }

  predicate StartsWith08(code: string)
    ensures StartsWith08(code) <==> |code| >= 2 && code[0] == '0' && code[1] == '8'
  {
    |code| >= 2 && code[..2] == "08"
  }

  /** Reader failover needs more than one host and a mode other than strict writer. */
  predicate TakesReaderPath(topology: Option<Topology>, mode: Mode)
    ensures TakesReaderPath(topology, mode) <==>
              && (mode == StrictReader || mode == ReaderOrWriter)
              && topology.Some? && |topology.value.writers| + |topology.value.readers| >= 2
  {
    topology.Some? && topology.value.TotalHosts() > 1 && mode != StrictWriter
  }

  lemma HostOfFiltered(topology: Topology, filter: HostFilter, host: HostInfo)
    requires topology.RolesAgree()
    ensures host in Through(filter, topology).Instances() <==> host in topology.Instances() && Allows(filter, host)
    ensures host in Through(filter, topology).readers ==> !host.isWriter
  {
    FilterKeepsAllowed(topology, filter);
  }

  /** Reader failover throws, or chooses the host it finds, if it comes back before the caller stops waiting. */
  ghost predicate ReaderPathEnds(topology: Topology, filter: HostFilter, strict: bool, e: Env, lists: seq<seq<HostInfo>>,
                                 last: seq<HostInfo>, found: Race.Outcome, threw: bool, chosen: Option<HostInfo>)
  {
    && ReaderSearchEnds(topology, filter, strict, e, lists, last, found)
    && (threw <==> !e.expired && found.Thrown?)
    && chosen == if !e.expired && found.Connected? then found.result.host else None
  }

  /** Writer failover throws, or chooses the writer it finds if the filter allows it. */
  ghost predicate WriterPathEnds(topology: Option<Topology>, filter: HostFilter, e: Env, threw: bool,
                                 chosen: Option<HostInfo>)
  {
    && (threw <==> WriterThrows(topology, e))
    && (chosen.Some? <==> WriterTaken(topology, filter, e))
    && (chosen.Some? ==> IsWriterFound(topology, e, chosen))
  }

  /**
   Writer failover finds a writer exactly when its caller asks a task that has ended with one, and the writer is taken
   exactly when the filter allows the first writer of the topology of that task; it throws exactly when the known topology
   has hosts but no writer, or the caller asks a task that threw.
   */
  lemma WriterPathExactlyWhen(topology: Topology, filter: HostFilter, e: Env)
    ensures topology.writers == [] ==>
              && !WriterTaken(Some(topology), filter, e)
              && (WriterThrows(Some(topology), e) <==> topology.readers != [])
    ensures topology.writers != [] ==>
              var w, s := topology.writers[0], Writer.Start(topology);
              var a := Safety.EverHandsOut(w, s, e.writerSteps, Writer.TaskA);
              var b := Safety.EverHandsOut(w, s, e.writerSteps, Writer.TaskB);
              var end := Writer.Run(w, s, e.writerSteps);
              && WriterFound(Some(topology), e) == (if a then Some(end.a.result) else if b then Some(end.b.result) else None)
              && (WriterTaken(Some(topology), filter, e) <==>
                    (a && Names(end.a.result, filter)) || (b && Names(end.b.result, filter)))
              && (WriterThrows(Some(topology), e) <==> Safety.EverReadsException(w, s, e.writerSteps))
  {
    if topology.writers != [] {
      var w, s := topology.writers[0], Writer.Start(topology);
      Safety.CallerReturnsExactlyWhat(topology, e.writerSteps);
      Safety.RunThrowsExactlyWhen(w, s, e.writerSteps);
    }
  }

  /** The first writer of the result's topology passes the filter. */
  predicate Names(r: Writer.WriterResult, filter: HostFilter) {
    r.topology.Some? && r.topology.value.writers != [] && Allows(filter, r.topology.value.writers[0])
  }

  /**
   Reader failover that neither throws nor chooses a host has met an expired caller, or no allowed host, or a completed
   failover, and then every list but the last was tried to its end. Otherwise the search came back in time.
   */
  lemma ReaderMissedExactlyWhen(topology: Topology, filter: HostFilter, strict: bool, e: Env, lists: seq<seq<HostInfo>>,
                                last: seq<HostInfo>, found: Race.Outcome, threw: bool, chosen: Option<HostInfo>)
    requires ReaderPathEnds(topology, filter, strict, e, lists, last, found, threw, chosen)
    requires Search.Permanent(e.completed, e.rounds) && topology.RolesAgree()
    requires exists h :: h in topology.Instances() && Allows(filter, h)
    ensures chosen.None? && !threw && !e.expired ==> e.completed(|lists|)
    ensures chosen.Some? || threw ==> !e.expired && !e.completed(|lists|)
    ensures forall j | 0 <= j < |lists| && (j + 1 < |lists| || !e.completed(|lists|)) :: Search.Exhausted(lists[j], e.rounds(j))
  {
    var allowed := Through(filter, topology);
    var h :| h in topology.Instances() && Allows(filter, h);
    HostOfFiltered(topology, filter, h);
    assert h in allowed.Instances();
    if found.Connected? {
      var host :| Search.Walked(last, e.rounds(|lists|), found, host);
      FoundHasHost(last, e.rounds(|lists|), found, host);
    }
    forall j | 0 <= j < |lists| && (j + 1 < |lists| || !e.completed(|lists|))
      ensures Search.Exhausted(lists[j], e.rounds(j))
    {
      Search.EarlierRoundsAreExhausted(allowed, strict, e.completed, e.rounds, lists, j);
    }
  }

  lemma FoundHasHost(hosts: seq<HostInfo>, round: Search.Round, found: Race.Outcome, host: Option<HostInfo>)
    requires Search.Walked(hosts, round, found, host) && found.Connected?
    ensures found.result.host.Some?
  {
    var pairs: nat :| Search.WalkEnds(hosts, round.cancelled, round.schedules, pairs, found, host);
    Search.WalkReachesItsHost(hosts, round.cancelled, round.schedules, pairs, found, host);
  }

  class Handler {
    const mode: Mode
    const filter: HostFilter
    var enabled: bool                      // cluster failover on, topology available, no proxy in between
    var currentTopology: Option<Topology>
    var currentHost: Option<HostInfo>
    var session: HostInfo                  // where the session's connection leads
    var server: string                     // the server name recorded for the session
    var failureDetection: bool
    var autocommit: bool
    var transactionOpen: bool

    constructor (mode: Mode, filter: HostFilter, topology: Option<Topology>, session: HostInfo)
      ensures this.mode == mode && this.filter == filter && currentTopology == topology && this.session == session
    {
      this.mode, this.filter, this.enabled := mode, filter, true;
      this.currentTopology, this.currentHost := topology, Some(session);
      this.session, this.server := session, session.host;
      this.failureDetection, this.autocommit, this.transactionOpen := true, true, false;
    }

    /** The session takes a new connection over only if that connection is still alive. */
    method UpdateConnection(to: HostInfo, name: string, alive: bool)
      modifies this`session, this`server
      ensures session == (if alive then to else old(session))
      ensures server == (if alive then name else old(server))
    {
      if alive {
        session := to;
        server := name;
      }
    }

    /**
     Succeeds exactly when the search over the allowed hosts found a reader before the caller stopped waiting, and throws
     exactly when it threw before that.
     */
    method FailoverToReader(e: Env, ghost completedAt: nat)
      returns (threw: bool, success: bool, code: string,
               ghost lists: seq<seq<HostInfo>>, ghost last: seq<HostInfo>, ghost found: Race.Outcome)
      requires currentTopology.Some? && Ends(e, completedAt, currentTopology)
      modifies this`currentHost, this`session, this`server
      ensures success <==> !e.expired && found.Connected?
      ensures ReaderPathEnds(currentTopology.value, filter, mode == StrictReader, e, lists, last, found,
                             threw, if success then currentHost else None)
      ensures !threw ==> code == if success then "08S02" else "08S01"
      ensures success ==>
                && currentHost.Some? && currentHost.value in currentTopology.value.Instances() && Allows(filter, currentHost.value)
                && (mode == StrictReader ==> !currentHost.value.isWriter)
                && session == (if e.alive then currentHost.value else old(session))
                && server == (if e.alive then currentHost.value.host else old(server))
      ensures !success ==> session == old(session) && server == old(server) && currentHost == old(currentHost)
    {
      var filtered := GetFilteredTopology(currentTopology.value, filter);
      var outcome, reached;
      outcome, reached, lists, last, found :=
        Search.Failover(Some(filtered), mode == StrictReader, e.expired, e.completed, e.rounds, completedAt);
      match outcome {
        case Thrown =>
          threw, success, code := true, false, "";
        case NotConnected =>
          threw, success, code := false, false, "08S01";
        case Connected(result) =>
          HostOfFiltered(currentTopology.value, filter, reached.value);
          currentHost := result.host;
          UpdateConnection(reached.value, currentHost.value.host, e.alive);
          threw, success, code := false, true, "08S02";
      }
    }

    /**
     The new writer is taken over only if the filter of its own topology allows it. The known topology and host
     change before that test, and the host stays unset when the old writer came back.
     */
    method FailoverToWriter(e: Env, ghost completedAt: nat)
      returns (threw: bool, success: bool, code: string, newHost: Option<HostInfo>)
      requires Ends(e, completedAt, currentTopology)
      modifies this`currentTopology, this`currentHost, this`session, this`server
      ensures newHost.Some? <==> success
      ensures WriterPathEnds(old(currentTopology), filter, e, threw, newHost)
      ensures !threw ==> code == if success then "08S02" else "08S01"
      ensures success ==>
                && newHost.value.isWriter && Allows(filter, newHost.value)
                && (if e.alive then session.instanceName == newHost.value.instanceName && server == newHost.value.host
                    else session == old(session) && server == old(server))
      ensures !success ==> session == old(session) && server == old(server)
      ensures var r := WriterFound(old(currentTopology), e);
              if r.None? || r.value.topology.None? || r.value.topology.value.writers == []
                 || IsHostSame(r.value.topology.value.writers[0], Writer.Failover(old(currentTopology)).original) then
                currentTopology == old(currentTopology) && currentHost == old(currentHost)
              else
                currentTopology == r.value.topology && currentHost == Some(r.value.topology.value.writers[0])
    {
      threw, success, code, newHost := false, false, "08S01", None;
      match Writer.Failover(currentTopology) {
        case Refused(_) => return;
        case LaunchThrew =>
          threw := true;
        case Launched(original, start) =>
          var end := WriterEnd(currentTopology, e);
          Safety.ReturnedResultIsSound(currentTopology.value, e.writerSteps);
          Safety.TopologiesAreHandedOn(original, start, e.writerSteps, (t: Topology) => t.RolesAgree());
          if end.caller.pc.CallerThrew? {
            threw := true;
            return;
          }
          var result := end.caller.pc.result;
          if !result.connected {
            return;
          }
          var newTopology := result.topology.value;
          var host := newTopology.GetWriter().value;
          assert host in newTopology.writers;
          if result.isNewHost {
            currentTopology := Some(newTopology);
            currentHost := Some(host);
          }
          var filtered := GetFilteredTopology(newTopology, filter);
          HostOfFiltered(newTopology, filter, host);
          if host !in filtered.Instances() {
            return;
          }
          UpdateConnection(end.conns[result.connection.value].host, host.host, e.alive);
          success, code, newHost := true, "08S02", Some(host);
      }
    }

    /** The path the session's topology and mode lead to: a known topology of two hosts or more and a mode that takes readers. */
    method FailoverOnPath(e: Env, ghost completedAt: nat)
      returns (threw: bool, success: bool, code: string, chosen: Option<HostInfo>,
               ghost lists: seq<seq<HostInfo>>, ghost last: seq<HostInfo>, ghost found: Race.Outcome)
      requires Ends(e, completedAt, currentTopology)
      modifies this`currentTopology, this`currentHost, this`session, this`server
      ensures success <==> chosen.Some?
      ensures threw ==> !success
      ensures !threw ==> code == if success then "08S02" else "08S01"
      ensures TakesReaderPath(old(currentTopology), mode) ==>
                && ReaderPathEnds(old(currentTopology).value, filter, mode == StrictReader, e, lists, last, found, threw, chosen)
                && (success ==> chosen.value in old(currentTopology).value.Instances())
      ensures !TakesReaderPath(old(currentTopology), mode) ==> WriterPathEnds(old(currentTopology), filter, e, threw, chosen)
      ensures success ==>
                && Allows(filter, chosen.value)
                && (mode == StrictReader ==> (chosen.value.isWriter <==> !TakesReaderPath(old(currentTopology), mode)))
                && (if e.alive then session.instanceName == chosen.value.instanceName && server == chosen.value.host
                    else session == old(session) && server == old(server))
      ensures !success ==> session == old(session) && server == old(server)
    {
      chosen, lists, last, found := None, [], [], Race.NotConnected;
      if TakesReaderPath(currentTopology, mode) {
        threw, success, code, lists, last, found := FailoverToReader(e, completedAt);
        if success {
          chosen := currentHost;
        }
      } else {
        threw, success, code, chosen := FailoverToWriter(e, completedAt);
      }
    }

    /**
     The error code the application sees and the host chosen for it. A host is chosen exactly when the search of its path
     found one in time, or its writer failover a writer the filter allows; the method throws exactly when that path does.
     08S02 and 08007 are reported exactly when a host was chosen, 08007 exactly when a transaction was open at the
     failure. The chosen host passes the filter, and in strict-reader mode it is a writer exactly when the known topology
     had at most one host. The session itself moves to it exactly when the new connection is still alive at the
     hand-over: the code is reported either way.
     */
    method TriggerFailoverIfNeeded(errorCode: Option<string>, e: Env, ghost completedAt: nat)
      returns (outcome: Outcome, code: Option<string>, chosen: Option<HostInfo>,
               ghost lists: seq<seq<HostInfo>>, ghost last: seq<HostInfo>, ghost found: Race.Outcome)
      requires Ends(e, completedAt, currentTopology)
      modifies this
      ensures outcome.NotTriggered? <==> !old(enabled) || errorCode.None? || !StartsWith08(errorCode.value)
      ensures outcome.NotTriggered? ==> code == errorCode && chosen.None? && unchanged(this)
      ensures outcome.Triggered? ==>
                code == Some(if chosen.None? then "08S01"
                             else if !old(autocommit) || old(transactionOpen) then "08007" else "08S02")
      ensures !outcome.NotTriggered? && TakesReaderPath(old(currentTopology), mode) ==>
                ReaderPathEnds(old(currentTopology).value, filter, mode == StrictReader, e, lists, last, found,
                               outcome.Threw?, chosen)
      ensures !outcome.NotTriggered? && !TakesReaderPath(old(currentTopology), mode) ==>
                WriterPathEnds(old(currentTopology), filter, e, outcome.Threw?, chosen)
      ensures chosen.Some? ==>
                && outcome.Triggered?
                && Allows(filter, chosen.value)
                && (TakesReaderPath(old(currentTopology), mode) ==> chosen.value in old(currentTopology).value.Instances())
                && (mode == StrictReader ==> (chosen.value.isWriter <==> !TakesReaderPath(old(currentTopology), mode)))
                && (if e.alive then session.instanceName == chosen.value.instanceName && server == chosen.value.host
                    else session == old(session) && server == old(server))
      ensures chosen.None? ==> session == old(session) && server == old(server)
      ensures failureDetection == (old(failureDetection) && !outcome.Threw?)
      ensures enabled == old(enabled) && autocommit == old(autocommit) && transactionOpen == old(transactionOpen)
    {
      code, chosen, lists, last, found := errorCode, None, [], [], Race.NotConnected;
      if !enabled || errorCode.None? || !StartsWith08(errorCode.value) {
        outcome := NotTriggered;
        return;
      }
      var inTransaction, oldState := !autocommit || transactionOpen, failureDetection;
      failureDetection := false;
      currentHost := None;
      var threw, success, newCode;
      threw, success, newCode, chosen, lists, last, found := FailoverOnPath(e, completedAt);
      outcome := if threw then Threw else Triggered;
      code := if threw then errorCode else Some(if success && inTransaction then "08007" else newCode);
      failureDetection := oldState && !threw;
    }
  }
}
