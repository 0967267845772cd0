/**
 The table of connections the failover tasks open: the host each leads to, the task that received it, and whether it
 is open, released or published in a result. A handle is an index into the table; None is the null pointer.
 */
module Connections {

  import opened Wrappers
  import opened Hosts

  datatype Status = Open | Released | Published

  datatype Connection<Owner> = Connection(host: HostInfo, owner: Owner, status: Status)

  type Handle = Option<nat>

  predicate Usable<Owner>(conns: seq<Connection<Owner>>, h: Handle) {
    h.Some? && h.value < |conns| && conns[h.value].status == Open
  }

  function SetStatus<Owner>(conns: seq<Connection<Owner>>, h: Handle, status: Status): seq<Connection<Owner>> {
    if h.Some? && h.value < |conns| then conns[h.value := conns[h.value].(status := status)] else conns
  }
}
