/**
 The reader search: the prioritized list of hosts, the walk over it two hosts at a time, and the two loops that
 repeat the walk. Each pair is raced as in ReaderRace under a schedule the environment chooses.
 */
module ReaderSearch {

  import opened Wrappers
  import opened Hosts
  import Race = ReaderRace

  // ----- the list of hosts

  /** std::shuffle over a random source: each position is exchanged with one not after it. */
  method Shuffle(hosts: array<HostInfo>, pick: nat -> nat)
    modifies hosts
    ensures multiset(hosts[..]) == multiset(old(hosts[..]))
  {
    var i := 1;
    while i < hosts.Length
      invariant 1 <= i
      invariant multiset(hosts[..]) == multiset(old(hosts[..]))
    {
      var j := pick(i) % (i + 1);
      hosts[i], hosts[j] := hosts[j], hosts[i];
      i := i + 1;
    }
  }

  method Shuffled(hosts: seq<HostInfo>, pick: nat -> nat) returns (r: seq<HostInfo>)
    ensures multiset(r) == multiset(hosts)
  {
    var a := new HostInfo[|hosts|](i requires 0 <= i < |hosts| => hosts[i]);
    assert a[..] == hosts;
    Shuffle(a, pick);
    r := a[..];
  }

  /** Readers that are up come before readers that are down. */
  ghost predicate UpFirst(hosts: seq<HostInfo>, down: set<HostInfo>) {
    forall i, j | 0 <= i < j < |hosts| :: hosts[i] in down ==> hosts[j] in down
  }

  lemma SameMembers(xs: seq<HostInfo>, ys: seq<HostInfo>)
    requires multiset(xs) == multiset(ys)
    ensures |xs| == |ys|
    ensures forall h :: h in xs <==> h in ys
  {
    assert |multiset(xs)| == |xs| && |multiset(ys)| == |ys|;
    forall h
      ensures h in xs <==> h in ys
    {
      assert h in xs <==> h in multiset(xs);
      assert h in ys <==> h in multiset(ys);
    }
  }

  /** The readers in some order, up before down, and behind them the writers in some order, when these are wanted. */
  ghost predicate IsSearchList(topology: Topology, down: set<HostInfo>, includeWriters: bool, hosts: seq<HostInfo>) {
    && |topology.readers| <= |hosts|
    && multiset(hosts[..|topology.readers|]) == multiset(topology.readers)
    && multiset(hosts[|topology.readers|..]) == (if includeWriters then multiset(topology.writers) else multiset{})
    && UpFirst(hosts[..|topology.readers|], down)
  }

  /**
   The search list is a permutation of the readers, up before down, followed by a permutation of the writers when
   these are wanted.
   */
  method BuildHostsList(topology: Topology, down: set<HostInfo>, includeWriters: bool, pick: nat -> nat)
    returns (hosts: seq<HostInfo>)
    ensures IsSearchList(topology, down, includeWriters, hosts)
  {
    var readersUp, readersDown := [], [];
    var i := 0;
    while i < |topology.readers|
      invariant 0 <= i <= |topology.readers|
      invariant multiset(readersUp) + multiset(readersDown) == multiset(topology.readers[..i])
      invariant forall h | h in readersUp :: h !in down
      invariant forall h | h in readersDown :: h in down
    {
      var reader := topology.readers[i];
      assert topology.readers[..i + 1] == topology.readers[..i] + [reader];
      if reader in down {
        readersDown := readersDown + [reader];
      } else {
        readersUp := readersUp + [reader];
      }
      i := i + 1;
    }
    assert topology.readers[..i] == topology.readers;

    var up := Shuffled(readersUp, pick);
    var dn := Shuffled(readersDown, pick);
    SameMembers(up, readersUp);
    SameMembers(dn, readersDown);
    hosts := up + dn;
    assert multiset(hosts) == multiset(topology.readers);
    SameMembers(hosts, topology.readers);
    assert hosts[..|topology.readers|] == hosts;
    assert UpFirst(hosts, down);
    ghost var readers := hosts;

    if includeWriters {
      var writers := Shuffled(topology.writers, pick);
      hosts := hosts + writers;
      assert hosts[|topology.readers|..] == writers;
    }
    assert hosts[..|topology.readers|] == readers;
  }

  // ----- one walk over the list

  /** The race of the pair that starts at index i. */
  function PairRun(hosts: seq<HostInfo>, i: nat, schedule: seq<Race.Step>): Race.State
    requires i < |hosts|
  {
    Race.Run(Race.Start(hosts[i], if i + 1 == |hosts| then None else Some(hosts[i + 1])), schedule)
  }

  predicate PairEnds(hosts: seq<HostInfo>, i: nat, schedule: seq<Race.Step>) {
    i < |hosts| ==> PairRun(hosts, i, schedule).poll.Left?
  }

  function PairOutcome(hosts: seq<HostInfo>, i: nat, schedule: seq<Race.Step>): Race.Outcome
    requires i < |hosts| && PairEnds(hosts, i, schedule)
  {
    PairRun(hosts, i, schedule).poll.outcome
  }

  /** A reader some pair of the list yielded: one of its hosts with a published connection to it. */
  ghost predicate YieldedBy(hosts: seq<HostInfo>, i: nat, schedule: seq<Race.Step>, r: Race.ReaderResult)
    requires i < |hosts|
  {
    && r.connected
    && (|| Race.SoundFor(PairRun(hosts, i, schedule).shared, hosts[i], r)
        || (i + 1 < |hosts| && Race.SoundFor(PairRun(hosts, i, schedule).shared, hosts[i + 1], r)))
  }

  lemma PairYields(hosts: seq<HostInfo>, i: nat, schedule: seq<Race.Step>)
    requires i < |hosts| && PairEnds(hosts, i, schedule) && PairOutcome(hosts, i, schedule).Connected?
    ensures YieldedBy(hosts, i, schedule, PairOutcome(hosts, i, schedule).result)
  {
    Race.WinnerIsOneOfThePair(hosts[i], if i + 1 == |hosts| then None else Some(hosts[i + 1]), schedule);
  }

  /** Every pair that starts before index n came back empty. */
  ghost predicate EmptyBefore(hosts: seq<HostInfo>, schedules: nat -> seq<Race.Step>, n: nat)
    requires forall i: nat :: PairEnds(hosts, i, schedules(i))
  {
    forall i: nat | i < n && i < |hosts| && i % 2 == 0 :: PairOutcome(hosts, i, schedules(i)).NotConnected?
  }

  ghost predicate NotCancelledBefore(cancelled: nat -> bool, looks: nat) {
    forall k: nat | k < looks :: !cancelled(k)
  }

  /** The host the connection of a pair's result leads to. */
  function Reached(hosts: seq<HostInfo>, i: nat, schedule: seq<Race.Step>, outcome: Race.Outcome): Option<HostInfo>
    requires i < |hosts|
  {
    if !outcome.Connected? then None
    else
      var conns, h := PairRun(hosts, i, schedule).shared.conns, outcome.result.connection;
      if h.Some? && h.value < |conns| then Some(conns[h.value].host) else None
  }

  /** The walk ends at the pair that starts at index i: with a reader of that pair, or with its exception. */
  ghost predicate EndsAt(hosts: seq<HostInfo>, schedules: nat -> seq<Race.Step>, i: nat, outcome: Race.Outcome,
                         reached: Option<HostInfo>)
    requires forall i: nat :: PairEnds(hosts, i, schedules(i))
  {
    && i < |hosts| && i % 2 == 0
    && PairOutcome(hosts, i, schedules(i)) == outcome
    && reached == Reached(hosts, i, schedules(i), outcome)
    && (outcome.Connected? ==> YieldedBy(hosts, i, schedules(i), outcome.result))
    && EmptyBefore(hosts, schedules, i)
  }

  /**
   A walk of so many pairs: it was not cancelled before, and either every pair was empty and the list exhausted or the
   search cancelled, or the last pair ended it.
   */
  ghost predicate WalkEnds(hosts: seq<HostInfo>, cancelled: nat -> bool, schedules: nat -> seq<Race.Step>, pairs: nat,
                           outcome: Race.Outcome, reached: Option<HostInfo>)
    requires forall i: nat :: PairEnds(hosts, i, schedules(i))
  {
    && NotCancelledBefore(cancelled, pairs)
    && if outcome.NotConnected? then
         EmptyBefore(hosts, schedules, 2 * pairs) && (2 * pairs >= |hosts| || cancelled(pairs)) && reached.None?
       else
         pairs > 0 && EndsAt(hosts, schedules, 2 * pairs - 2, outcome, reached)
  }

  lemma EmptyPair(hosts: seq<HostInfo>, schedules: nat -> seq<Race.Step>, i: nat)
    requires forall i: nat :: PairEnds(hosts, i, schedules(i))
    requires i < |hosts| && i % 2 == 0 && EmptyBefore(hosts, schedules, i)
    ensures var outcome := PairOutcome(hosts, i, schedules(i));
            if outcome.NotConnected? then EmptyBefore(hosts, schedules, i + 2)
            else EndsAt(hosts, schedules, i, outcome, Reached(hosts, i, schedules(i), outcome))
  {
    if PairOutcome(hosts, i, schedules(i)).Connected? {
      PairYields(hosts, i, schedules(i));
    }
  }

  /** The reader a walk ends with is a host of the list, and the connection leads to the host the result names. */
  lemma WalkReachesItsHost(hosts: seq<HostInfo>, cancelled: nat -> bool, schedules: nat -> seq<Race.Step>, pairs: nat,
                           outcome: Race.Outcome, reached: Option<HostInfo>)
    requires forall i: nat :: PairEnds(hosts, i, schedules(i))
    requires WalkEnds(hosts, cancelled, schedules, pairs, outcome, reached) && outcome.Connected?
    ensures outcome.result.connected && reached.Some? && reached == outcome.result.host && reached.value in hosts
  {
  }

  /**
   Walks over the list in pairs until one yields a reader, throws, or the search is cancelled. `submitted` lists the
   indices handed to a connect task, in order, and `reached` is the host the connection found leads to.

   Whatever the schedules, an index is submitted at most once and never before a smaller one. Without a reader and
   without an exception, either every index was submitted, an odd last one included, or the search was found
   cancelled. A reader found at the pair that ends the submitted prefix means that every earlier pair came back empty.
   */
  method GetConnectionFromHosts(hosts: seq<HostInfo>, cancelled: nat -> bool, schedules: nat -> seq<Race.Step>)
    returns (outcome: Race.Outcome, reached: Option<HostInfo>, submitted: seq<nat>, ghost pairs: nat)
    requires forall i: nat :: PairEnds(hosts, i, schedules(i))
    ensures |submitted| == (if 2 * pairs <= |hosts| then 2 * pairs else |hosts|)
    ensures forall k | 0 <= k < |submitted| :: submitted[k] == k
    ensures WalkEnds(hosts, cancelled, schedules, pairs, outcome, reached)
    ensures outcome.Connected? ==> outcome.result.connected && reached.Some? && reached == outcome.result.host && reached.value in hosts
  {
    var i, looks := 0, 0;
    submitted, pairs, reached := [], 0, None;
    while !cancelled(looks) && i < |hosts|
      invariant i == 2 * looks && looks == pairs && reached.None?
      invariant |submitted| == (if i <= |hosts| then i else |hosts|)
      invariant forall k | 0 <= k < |submitted| :: submitted[k] == k
      invariant NotCancelledBefore(cancelled, looks) && EmptyBefore(hosts, schedules, i)
      decreases |hosts| - i
    {
      var odd := i + 1 == |hosts|;
      EmptyPair(hosts, schedules, i);
      submitted := submitted + [i];
      if !odd {
        submitted := submitted + [i + 1];
      }
      pairs := pairs + 1;
      assert PairEnds(hosts, i, schedules(i));
      outcome := PairOutcome(hosts, i, schedules(i));
      if !outcome.NotConnected? {
        reached := Reached(hosts, i, schedules(i), outcome);
        if outcome.Connected? {
          WalkReachesItsHost(hosts, cancelled, schedules, pairs, outcome, reached);
        }
        return;
      }
      i, looks := i + 2, looks + 1;
    }
    outcome := Race.NotConnected;
  }

  lemma InTheList(hosts: seq<HostInfo>, topology: Topology, down: set<HostInfo>, includeWriters: bool)
    requires IsSearchList(topology, down, includeWriters, hosts)
    ensures forall h :: h in hosts <==> h in topology.readers || (includeWriters && h in topology.writers)
  {
    var n := |topology.readers|;
    SameMembers(hosts[..n], topology.readers);
    SameMembers(hosts[n..], if includeWriters then topology.writers else []);
    assert hosts == hosts[..n] + hosts[n..];
  }

  // ----- repeating the walk

  /** What the environment decides in one round of the repeated search. */
  datatype Round = Round(down: set<HostInfo>, pick: nat -> nat, cancelled: nat -> bool, schedules: nat -> seq<Race.Step>)

  ghost predicate RoundEnds(round: Round) {
    forall hosts: seq<HostInfo>, i: nat :: PairEnds(hosts, i, round.schedules(i))
  }

  /** A round walked over a list ends in this way. */
  ghost predicate Walked(hosts: seq<HostInfo>, round: Round, outcome: Race.Outcome, reached: Option<HostInfo>) {
    && RoundEnds(round)
    && exists pairs: nat :: WalkEnds(hosts, round.cancelled, round.schedules, pairs, outcome, reached)
  }

  /**
   Searches one fixed list of readers until one connects or the failover is found completed, which happens in round
   `completedAt` at the latest. Writers are never tried. `k` rounds found the failover not completed and no reader;
   the search ends with round k, or gives up because the failover is completed then.
   */
  method GetReaderConnection(topology: Topology, down: set<HostInfo>, pick: nat -> nat,
                             completed: nat -> bool, rounds: nat -> Round, ghost completedAt: nat)
    returns (outcome: Race.Outcome, reached: Option<HostInfo>, ghost hosts: seq<HostInfo>, ghost k: nat)
    requires completed(completedAt)
    requires forall k: nat :: RoundEnds(rounds(k))
    ensures IsSearchList(topology, down, false, hosts)
    ensures forall j: nat | j < k :: !completed(j) && Walked(hosts, rounds(j), Race.NotConnected, None)
    ensures if outcome.NotConnected? then completed(k)
            else !completed(k) && Walked(hosts, rounds(k), outcome, reached)
    ensures outcome.Connected? ==>
              outcome.result.connected && reached.Some? && reached == outcome.result.host && reached.value in topology.readers
  {
    var list := BuildHostsList(topology, down, false, pick);
    InTheList(list, topology, down, false);
    hosts, k := list, 0;
    var round := 0;
    while !completed(round)
      invariant 0 <= round <= completedAt && round == k
      invariant forall j: nat | j < k :: !completed(j) && Walked(hosts, rounds(j), Race.NotConnected, None)
      decreases completedAt - round
    {
      assert RoundEnds(rounds(round));
      ghost var pairs;
      var submitted;
      outcome, reached, submitted, pairs := GetConnectionFromHosts(list, rounds(round).cancelled, rounds(round).schedules);
      assert Walked(hosts, rounds(round), outcome, reached);
      if !outcome.NotConnected? {
        return;
      }
      round, k := round + 1, k + 1;
    }
    outcome, reached := Race.NotConnected, None;
  }

  /** Every round of a reader failover built its own list, found the failover not completed and no reader. */
  ghost predicate EmptyRounds(topology: Topology, strictReader: bool, completed: nat -> bool, rounds: nat -> Round,
                              lists: seq<seq<HostInfo>>)
  {
    forall j: nat | j < |lists| ::
      && !completed(j)
      && IsSearchList(topology, rounds(j).down, !strictReader, lists[j])
      && Walked(lists[j], rounds(j), Race.NotConnected, None)
  }

  /** Completion is permanent: a walk that found itself cancelled is followed by a completed failover. */
  ghost predicate Permanent(completed: nat -> bool, rounds: nat -> Round) {
    forall j: nat, looks: nat | rounds(j).cancelled(looks) :: completed(j + 1)
  }

  /** A walk over the whole list, every host of which was tried in vain. */
  ghost predicate Exhausted(hosts: seq<HostInfo>, round: Round) {
    RoundEnds(round) && EmptyBefore(hosts, round.schedules, |hosts|)
  }

  /** A round without a reader that is not the last has tried its whole list. */
  lemma EmptyRoundIsExhausted(hosts: seq<HostInfo>, completed: nat -> bool, rounds: nat -> Round, j: nat)
    requires Permanent(completed, rounds) && !completed(j + 1)
    requires Walked(hosts, rounds(j), Race.NotConnected, None)
    ensures Exhausted(hosts, rounds(j))
  {
    var round := rounds(j);
    var pairs: nat :| WalkEnds(hosts, round.cancelled, round.schedules, pairs, Race.NotConnected, None);
    assert !rounds(j).cancelled(pairs);
  }

  /** In a reader failover every round but the last has tried every host of its list. */
  lemma EarlierRoundsAreExhausted(topology: Topology, strictReader: bool, completed: nat -> bool, rounds: nat -> Round,
                                  lists: seq<seq<HostInfo>>, j: nat)
    requires Permanent(completed, rounds) && EmptyRounds(topology, strictReader, completed, rounds, lists)
    requires j < |lists| && (j + 1 < |lists| || !completed(|lists|))
    ensures Exhausted(lists[j], rounds(j))
  {
    assert !completed(j + 1);
    EmptyRoundIsExhausted(lists[j], completed, rounds, j);
  }

  /** Round k finds the failover completed, or ends with a reader or an exception. */
  ghost predicate LastRound(topology: Topology, strictReader: bool, completed: nat -> bool, rounds: nat -> Round,
                            k: nat, last: seq<HostInfo>, found: Race.Outcome)
  {
    if found.NotConnected? then completed(k)
    else
      && !completed(k)
      && IsSearchList(topology, rounds(k).down, !strictReader, last)
      && exists host :: Walked(last, rounds(k), found, host)
  }

  /**
   Reader failover: every round builds the list anew, with writers at its end unless only readers are allowed.
   `expired` says that the caller stopped waiting before the task ended.

   After some empty rounds the search either gives up, and then the failover is completed, or the next round ends with
   a reader or an exception, which the caller gets unless it has stopped waiting.
   */
  method Failover(topology: Option<Topology>, strictReader: bool, expired: bool,
                  completed: nat -> bool, rounds: nat -> Round, ghost completedAt: nat)
    returns (outcome: Race.Outcome, reached: Option<HostInfo>, ghost lists: seq<seq<HostInfo>>, ghost last: seq<HostInfo>,
             ghost found: Race.Outcome)
    requires completed(completedAt)
    requires forall k: nat :: RoundEnds(rounds(k))
    ensures outcome.Connected? ==>
              && topology.Some? && outcome.result.connected && reached.Some? && reached == outcome.result.host
              && reached.value in topology.value.Instances()
              && (strictReader ==> reached.value in topology.value.readers)
    ensures topology.None? || topology.value.TotalHosts() == 0 ==> found.NotConnected? && lists == []
    ensures outcome == if expired then Race.NotConnected else found
    ensures topology.Some? && topology.value.TotalHosts() > 0 ==>
              && EmptyRounds(topology.value, strictReader, completed, rounds, lists)
              && LastRound(topology.value, strictReader, completed, rounds, |lists|, last, found)
  {
    lists, last, found, reached := [], [], Race.NotConnected, None;
    if topology.None? || topology.value.TotalHosts() == 0 {
      outcome := Race.NotConnected;
      return;
    }
    var k := 0;
    while !completed(k)
      invariant 0 <= k <= completedAt && k == |lists| && found.NotConnected? && reached.None?
      invariant EmptyRounds(topology.value, strictReader, completed, rounds, lists)
      decreases completedAt - k
    {
      assert RoundEnds(rounds(k));
      var hosts := BuildHostsList(topology.value, rounds(k).down, !strictReader, rounds(k).pick);
      InTheList(hosts, topology.value, rounds(k).down, !strictReader);
      ghost var pairs;
      var submitted, host;
      outcome, host, submitted, pairs := GetConnectionFromHosts(hosts, rounds(k).cancelled, rounds(k).schedules);
      assert Walked(hosts, rounds(k), outcome, host);
      if !outcome.NotConnected? {
        last, found := hosts, outcome;
        if expired {
          outcome := Race.NotConnected;
        } else {
          reached := host;
        }
        return;
      }
      lists := lists + [hosts];
      k := k + 1;
    }
    outcome := Race.NotConnected;
  }
}
