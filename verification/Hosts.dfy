/**
 Hosts and cluster topologies, and the allow/block filter put on a topology
 before a session is allowed to move to one of its hosts.
 */
module Hosts {

  import opened Wrappers

  datatype HostInfo = HostInfo(
    host: string,
    hostId: string,
    port: int,
    instanceName: string,
    isWriter: bool)

  /** Two host records denote the same instance when their instance names agree. */
  predicate IsHostSame(h1: HostInfo, h2: HostInfo) {
    h1.instanceName == h2.instanceName
  }

  datatype Topology = Topology(writers: seq<HostInfo>, readers: seq<HostInfo>) {

    function TotalHosts(): nat {
      |writers| + |readers|
    }

    /** None stands for the exception thrown when no writer is known. */
    function GetWriter(): Option<HostInfo> {
      if writers == [] then None else Some(writers[0])
    }

    function Instances(): seq<HostInfo> {
      writers + readers
    }

    function AddHost(h: HostInfo): Topology {
      if h.isWriter then this.(writers := writers + [h]) else this.(readers := readers + [h])
    }

    /** What AddHost keeps: each host is listed under its own role. */
    ghost predicate RolesAgree() {
      && (forall h | h in writers :: h.isWriter)
      && (forall h | h in readers :: !h.isWriter)
    }
  }

  const EMPTY_TOPOLOGY := Topology([], [])

  /** The optional pair of host-id lists attached to the topology service. */
  datatype HostFilter = NoFilter | Lists(allowed: set<string>, blocked: set<string>)

  predicate Allows(filter: HostFilter, h: HostInfo) {
    filter.Lists? ==> h.hostId in filter.allowed && h.hostId !in filter.blocked
  }

  /** The rule the class comment of the list pair promises: an empty allow list does not restrict. */
  predicate DocumentedAllows(filter: HostFilter, h: HostInfo) {
    filter.Lists? ==> (filter.allowed == {} || h.hostId in filter.allowed) && h.hostId !in filter.blocked
  }

  /** The hosts of a list that pass the filter, in their order. */
  function Kept(filter: HostFilter, hosts: seq<HostInfo>): seq<HostInfo> {
    if hosts == [] then []
    else
      var rest := Kept(filter, hosts[..|hosts| - 1]);
      if Allows(filter, hosts[|hosts| - 1]) then rest + [hosts[|hosts| - 1]] else rest
  }

  lemma {:induction false} KeptMembers(filter: HostFilter, hosts: seq<HostInfo>)
    ensures forall h :: h in Kept(filter, hosts) <==> h in hosts && Allows(filter, h)
  {
    if hosts != [] {
      KeptMembers(filter, hosts[..|hosts| - 1]);
      assert hosts == hosts[..|hosts| - 1] + [hosts[|hosts| - 1]];
    }
  }

  /** The filtered topology: both role lists filtered in place. */
  function Filtered(topology: Topology, filter: HostFilter): Topology {
    Topology(Kept(filter, topology.writers), Kept(filter, topology.readers))
  }

  /** A topology as a session sees it: without lists the topology itself. */
  function Through(filter: HostFilter, topology: Topology): Topology {
    if filter.NoFilter? then topology else Filtered(topology, filter)
  }

  /** The same for the first n instances of a topology. */
  function FilteredSoFar(topology: Topology, filter: HostFilter, n: nat): Topology
    requires n <= |topology.Instances()|
  {
    var w := |topology.writers|;
    var (seenWriters, seenReaders) := if n <= w then (n, 0) else (w, n - w);
    Topology(Kept(filter, topology.writers[..seenWriters]), Kept(filter, topology.readers[..seenReaders]))
  }

  lemma KeptSnoc(filter: HostFilter, xs: seq<HostInfo>, x: HostInfo)
    ensures Kept(filter, xs + [x]) == if Allows(filter, x) then Kept(filter, xs) + [x] else Kept(filter, xs)
  {
    assert (xs + [x])[..|xs|] == xs;
  }

  lemma FilteredNext(topology: Topology, filter: HostFilter, n: nat)
    requires topology.RolesAgree() && n < |topology.Instances()|
    ensures var host, soFar := topology.Instances()[n], FilteredSoFar(topology, filter, n);
            FilteredSoFar(topology, filter, n + 1) == if Allows(filter, host) then soFar.AddHost(host) else soFar
  {
    var w, host := |topology.writers|, topology.Instances()[n];
    if n < w {
      assert host in topology.writers;
      assert topology.writers[..n + 1] == topology.writers[..n] + [host];
      KeptSnoc(filter, topology.writers[..n], host);
    } else {
      assert host in topology.readers;
      assert topology.readers[..n - w + 1] == topology.readers[..n - w] + [host];
      KeptSnoc(filter, topology.readers[..n - w], host);
    }
  }

  /**
   Walks over the instances of the topology and re-adds those that pass; without lists the
   topology itself is handed back.
   */
  method GetFilteredTopology(topology: Topology, filter: HostFilter) returns (filtered: Topology)
    requires topology.RolesAgree()
    ensures filtered == Through(filter, topology)
  {
    if filter.NoFilter? {
      return topology;
    }
    filtered := EMPTY_TOPOLOGY;
    var instances := topology.Instances();
    var i := 0;
    while i < |instances|
      invariant 0 <= i <= |instances|
      invariant filtered == FilteredSoFar(topology, filter, i)
    {
      FilteredNext(topology, filter, i);
      if Allows(filter, instances[i]) {
        filtered := filtered.AddHost(instances[i]);
      }
      i := i + 1;
    }
    assert topology.writers[..|topology.writers|] == topology.writers;
    assert topology.readers[..|topology.readers|] == topology.readers;
  }

  /**
   The filter works host by host and keeps the order: it keeps of a list what it keeps of the parts, and of a single host
   that host when it is allowed.
   */
  lemma {:induction false} KeptHostByHost(filter: HostFilter, xs: seq<HostInfo>, ys: seq<HostInfo>, h: HostInfo)
    ensures Kept(filter, xs + ys) == Kept(filter, xs) + Kept(filter, ys)
    ensures Kept(filter, [h]) == if Allows(filter, h) then [h] else []
  {
    if ys == [] {
      assert xs + ys == xs;
    } else {
      var init, last := ys[..|ys| - 1], ys[|ys| - 1];
      KeptHostByHost(filter, xs, init, h);
      KeptSnoc(filter, xs + init, last);
      assert xs + ys == xs + init + [last];
    }
  }

  /** Filtering only removes hosts, keeps exactly the allowed ones, and keeps every host in its role. */
  lemma FilterKeepsAllowed(topology: Topology, filter: HostFilter)
    requires topology.RolesAgree()
    ensures Through(filter, topology).RolesAgree()
    ensures forall h :: h in Through(filter, topology).Instances() <==> h in topology.Instances() && Allows(filter, h)
  {
    KeptMembers(filter, topology.writers);
    KeptMembers(filter, topology.readers);
  }

  lemma {:induction false} NothingKept(filter: HostFilter, hosts: seq<HostInfo>)
    requires forall h | h in hosts :: !Allows(filter, h)
    ensures Kept(filter, hosts) == []
  {
    if hosts != [] {
      NothingKept(filter, hosts[..|hosts| - 1]);
    }
  }

  /**
   The code agrees with the documented rule on a topology exactly when the allow list is not empty or every
   host is blocked anyway: an empty allow list, documented as "no restriction", removes every host.
   */
  lemma DocumentedFilterCondition(topology: Topology, allowed: set<string>, blocked: set<string>)
    ensures var f := Lists(allowed, blocked);
            (forall h | h in topology.Instances() :: Allows(f, h) <==> DocumentedAllows(f, h))
            <==>
            (allowed != {} || forall h | h in topology.Instances() :: h.hostId in blocked)
    ensures allowed == {} ==> Filtered(topology, Lists(allowed, blocked)) == EMPTY_TOPOLOGY
  {
    if allowed == {} {
      var f := Lists(allowed, blocked);
      NothingKept(f, topology.writers);
      NothingKept(f, topology.readers);
    }
  }
}
