/**
 Parameters whose data comes at execution time: a call asks for data, SQLParamData names one parameter after the other,
 SQLPutData fills the one named last, and the SQLParamData after the last one executes.
 */
module DataAtExec {

  import opened Wrappers

  datatype Kind = NoDae | Normal | SetPosInsert | SetPosUpdate | SetPosDone

  /** A record of a descriptor: bound for data-at-exec or not, and what has been put so far. */
  datatype Record = Record(dae: bool, data: string, isDae: bool)

  // ----- the protocol on values

  /** What the calls work on: the descriptor in use, and where the search for the next parameter goes on. */
  datatype Session = Session(kind: Kind, current: nat, records: seq<Record>, count: nat)

  datatype Reply = Requested(index: nat) | Executed(kind: Kind, records: seq<Record>) | Rejected

  predicate Active(kind: Kind) {
    kind == Normal || kind == SetPosInsert || kind == SetPosUpdate
  }

  predicate Fits(s: Session) {
    s.count <= |s.records| && s.current <= |s.records|
  }

  /** The parameters still to be asked for, in order. */
  function Pending(records: seq<Record>, from: nat, count: nat): seq<nat>
    requires count <= |records|
    decreases count - from
  {
    if from >= count then []
    else if records[from].dae then [from] + Pending(records, from + 1, count)
    else Pending(records, from + 1, count)
  }

  predicate Increasing(s: seq<nat>) {
    forall k: nat, m: nat | k < m < |s| :: s[k] < s[m]
  }

  /** Exactly the data-at-exec positions are pending, in increasing order. */
  lemma {:induction false} PendingAreDae(records: seq<Record>, from: nat, count: nat)
    requires count <= |records|
    ensures forall i :: i in Pending(records, from, count) <==> from <= i < count && records[i].dae
    ensures Increasing(Pending(records, from, count))
    decreases count - from
  {
    if from < count {
      PendingAreDae(records, from + 1, count);
      var pending, rest := Pending(records, from, count), Pending(records, from + 1, count);
      if records[from].dae {
        assert pending == [from] + rest;
        forall k: nat, m: nat | k < m < |pending|
          ensures pending[k] < pending[m]
        {
          assert pending[m] == rest[m - 1] && rest[m - 1] in rest;
          assert k > 0 ==> pending[k] == rest[k - 1];
        }
      }
    }
  }

  function Ask(s: Session): (r: (Session, Reply))
    requires Fits(s)
    ensures Fits(r.0)
  {
    if !Active(s.kind) then (s, Rejected)
    else
      var pending := Pending(s.records, s.current, s.count);
      if pending == [] then (s.(kind := NoDae), Executed(s.kind, s.records))
      else
        PendingAreDae(s.records, s.current, s.count);
        assert pending[0] in pending;
        var i := pending[0];
        (s.(current := i + 1, records := s.records[i := Record(true, "", true)]), Requested(i))
  }

  /** A chunk goes to the record before the current position, None stands for the null value. */
  function Filled(s: Session, chunk: Option<string>): Session
    requires Fits(s) && s.current > 0
  {
    var was := s.records[s.current - 1];
    var now := match chunk
      case Some(text) => was.(data := was.data + text)
      case None => was.(data := "", isDae := false);
    s.(records := s.records[s.current - 1 := now])
  }

  /** Only the marks matter for what is pending, and what lies behind does not. */
  lemma {:induction false} SamePending(a: seq<Record>, b: seq<Record>, from: nat, count: nat)
    requires count <= |a| == |b| && forall i: nat | from <= i < count :: a[i].dae == b[i].dae
    ensures Pending(a, from, count) == Pending(b, from, count)
    decreases count - from
  {
    if from < count {
      SamePending(a, b, from + 1, count);
    }
  }

  lemma {:induction false} NextPending(records: seq<Record>, from: nat, count: nat)
    requires count <= |records| && Pending(records, from, count) != []
    ensures Pending(records, Pending(records, from, count)[0] + 1, count) == Pending(records, from, count)[1..]
    decreases count - from
  {
    if from < count && !records[from].dae {
      NextPending(records, from + 1, count);
    }
  }

  // ----- runs of calls

  datatype Call = Next | Put(chunk: Option<string>)

  /** A put that finds no record fails and changes nothing. */
  function After(s: Session, call: Call): (t: Session)
    requires Fits(s)
    ensures Fits(t)
  {
    match call
    case Next => Ask(s).0
    case Put(chunk) => if Active(s.kind) && s.current > 0 then Filled(s, chunk) else s
  }

  /** The replies to the calls of SQLParamData. */
  function Replies(s: Session, calls: seq<Call>): seq<Reply>
    requires Fits(s)
    decreases |calls|
  {
    if calls == [] then []
    else (if calls[0].Next? then [Ask(s).1] else []) + Replies(After(s, calls[0]), calls[1..])
  }

  predicate IsExpected(reply: Reply, kind: Kind, pending: seq<nat>, k: nat) {
    if k < |pending| then reply == Requested(pending[k])
    else if k == |pending| then reply.Executed? && reply.kind == kind
    else reply == Rejected
  }

  /** A parameter data-at-exec session, or one of either positioned operation. */
  predicate Asking(s: Session) {
    s.kind in {Normal, SetPosInsert, SetPosUpdate}
  }

  function Nexts(calls: seq<Call>): nat {
    if calls == [] then 0 else (if calls[0].Next? then 1 else 0) + Nexts(calls[1..])
  }

  lemma PendingAfterNext(s: Session, t: Session)
    requires Fits(s) && Active(s.kind) && Pending(s.records, s.current, s.count) != []
    requires t == After(s, Next)
    ensures var pending := Pending(s.records, s.current, s.count);
            && s.current <= pending[0] < |s.records| && pending[0] in pending && s.current - 1 !in pending[1..]
            && Pending(t.records, t.current, t.count) == pending[1..]
  {
    var pending := Pending(s.records, s.current, s.count);
    PendingAreDae(s.records, s.current, s.count);
    NextPending(s.records, s.current, s.count);
    assert pending[0] in pending;
    SamePending(s.records, t.records, t.current, t.count);
    assert forall i | i in pending[1..] :: i in pending;
  }

  lemma {:induction false} RejectedForEver(s: Session, calls: seq<Call>)
    requires Fits(s) && !Active(s.kind)
    ensures |Replies(s, calls)| == Nexts(calls)
    ensures forall k: nat | k < |Replies(s, calls)| :: Replies(s, calls)[k] == Rejected
    decreases |calls|
  {
    if calls != [] {
      RejectedForEver(After(s, calls[0]), calls[1..]);
    }
  }

  /**
   Over every run: the calls of SQLParamData name each pending parameter once and in increasing order, whatever is put
   in between, then one call executes the operation the session was begun for, and every further call is rejected.
   */
  lemma {:induction false} EachIsRequestedOnceThenExecuted(s: Session, calls: seq<Call>)
    requires Fits(s) && Asking(s)
    ensures |Replies(s, calls)| == Nexts(calls)
    ensures forall k: nat | k < |Replies(s, calls)| ::
              IsExpected(Replies(s, calls)[k], s.kind, Pending(s.records, s.current, s.count), k)
    decreases |calls|
  {
    if calls != [] {
      var t, rest, pending := After(s, calls[0]), calls[1..], Pending(s.records, s.current, s.count);
      if calls[0].Put? {
        SamePending(s.records, t.records, s.current, s.count);
        EachIsRequestedOnceThenExecuted(t, rest);
      } else if pending != [] {
        PendingAfterNext(s, t);
        EachIsRequestedOnceThenExecuted(t, rest);
        forall k: nat | 0 < k < |Replies(s, calls)|
          ensures IsExpected(Replies(s, calls)[k], s.kind, pending, k)
        {
          assert IsExpected(Replies(t, rest)[k - 1], t.kind, pending[1..], k - 1);
        }
      } else {
        RejectedForEver(t, rest);
      }
    }
  }

  // ----- where the data goes

  /** What a record holds when the next call of SQLParamData comes, from what it holds now. */
  function Collected(record: Record, calls: seq<Call>): Record
    decreases |calls|
  {
    if calls == [] || calls[0].Next? then record
    else
      match calls[0].chunk
      case Some(text) => Collected(record.(data := record.data + text), calls[1..])
      case None => Collected(record.(data := "", isDae := false), calls[1..])
  }

  /**
   What an emptied parameter holds after the puts between the k-th call of SQLParamData and the one after it, counted
   from 0. A null value takes the mark from it, which an empty chunk does not.
   */
  function PutAfter(calls: seq<Call>, k: nat): Record
    decreases |calls|
  {
    if calls == [] then Record(true, "", true)
    else if calls[0].Put? then PutAfter(calls[1..], k)
    else if k == 0 then Collected(Record(true, "", true), calls[1..])
    else PutAfter(calls[1..], k - 1)
  }

  /** The records at the execution, when the run gets to it. */
  function AtExecution(s: Session, calls: seq<Call>): Option<seq<Record>>
    requires Fits(s)
    decreases |calls|
  {
    if calls == [] then None
    else if calls[0].Next? && Ask(s).1.Executed? then Some(s.records)
    else AtExecution(After(s, calls[0]), calls[1..])
  }

  /**
   The k-th parameter asked for holds what was put between the call that named it and the next one, the record before
   the first position what was put before any call, and no other record has changed.
   */
  ghost predicate Delivered(s: Session, calls: seq<Call>, records: seq<Record>)
    requires Fits(s)
  {
    var pending := Pending(s.records, s.current, s.count);
    && |records| == |s.records|
    && (forall k: nat | k < |pending| :: pending[k] < |records| && records[pending[k]] == PutAfter(calls, k))
    && (s.current > 0 ==> records[s.current - 1] == Collected(s.records[s.current - 1], calls))
    && (forall i: nat | i < |records| && i !in pending && i != s.current - 1 :: records[i] == s.records[i])
  }

  lemma DeliveredAfterPut(s: Session, calls: seq<Call>, records: seq<Record>)
    requires Fits(s) && Active(s.kind) && calls != [] && calls[0].Put?
    requires Delivered(After(s, calls[0]), calls[1..], records)
    ensures Delivered(s, calls, records)
  {
    SamePending(s.records, After(s, calls[0]).records, s.current, s.count);
  }

  lemma DeliveredAfterNext(s: Session, calls: seq<Call>, records: seq<Record>)
    requires Fits(s) && Active(s.kind) && calls != [] && calls[0].Next?
    requires Pending(s.records, s.current, s.count) != []
    requires Delivered(After(s, calls[0]), calls[1..], records)
    ensures Delivered(s, calls, records)
  {
    var t, pending := After(s, calls[0]), Pending(s.records, s.current, s.count);
    PendingAfterNext(s, t);
    assert pending == [pending[0]] + pending[1..];
    forall k: nat | k < |pending|
      ensures pending[k] < |records| && records[pending[k]] == PutAfter(calls, k)
    {
      if k > 0 {
        assert pending[k] == pending[1..][k - 1];
      }
    }
    forall i: nat | i < |records| && i !in pending && i != s.current - 1
      ensures records[i] == s.records[i]
    {
      assert i != pending[0] && i !in pending[1..];
    }
    if s.current > 0 {
      assert s.current - 1 != pending[0] && s.current - 1 !in pending[1..];
    }
  }

  /**
   A run gets to the execution with the call of SQLParamData after the last request, and executes what the records then
   hold.
   */
  lemma {:induction false} ExecutesWhatIsThere(s: Session, calls: seq<Call>)
    requires Fits(s) && Asking(s)
    ensures var n := |Pending(s.records, s.current, s.count)|;
            && (AtExecution(s, calls).Some? <==> Nexts(calls) > n)
            && |Replies(s, calls)| == Nexts(calls)
            && (AtExecution(s, calls).Some? ==> Replies(s, calls)[n] == Executed(s.kind, AtExecution(s, calls).value))
    decreases |calls|
  {
    EachIsRequestedOnceThenExecuted(s, calls);
    if calls != [] {
      var t, rest := After(s, calls[0]), calls[1..];
      if calls[0].Put? {
        SamePending(s.records, t.records, s.current, s.count);
        ExecutesWhatIsThere(t, rest);
      } else if Pending(s.records, s.current, s.count) != [] {
        PendingAfterNext(s, t);
        ExecutesWhatIsThere(t, rest);
      }
    }
  }

  /** Chunks are put one behind the other, a null value takes everything back and the mark with it, and a request ends it. */
  lemma {:induction false} ChunksAreCollected(record: Record, puts: seq<Call>, last: Option<string>, later: seq<Call>)
    requires forall call | call in puts :: call.Put?
    ensures var before := Collected(record, puts);
            && Collected(record, []) == record
            && Collected(record, puts + [Put(last)]) ==
               (if last.Some? then before.(data := before.data + last.value) else before.(data := "", isDae := false))
            && Collected(record, puts + [Next] + later) == before
    decreases |puts|
  {
    if puts == [] {
      assert puts + [Put(last)] == [Put(last)] && (puts + [Next] + later)[0] == Next;
      assert [Put(last)][1..] == [];
    } else {
      assert puts[0] in puts && forall call | call in puts[1..] :: call in puts;
      assert (puts + [Put(last)])[1..] == puts[1..] + [Put(last)];
      assert (puts + [Next] + later)[1..] == puts[1..] + [Next] + later;
      var filled := match puts[0].chunk
        case Some(text) => record.(data := record.data + text)
        case None => record.(data := "", isDae := false);
      ChunksAreCollected(filled, puts[1..], last, later);
    }
  }

  /** What is put after a request is what is collected from it on. */
  lemma {:induction false} PutAfterItsRequest(before: seq<Call>, later: seq<Call>)
    ensures PutAfter(before + [Next] + later, Nexts(before)) == Collected(Record(true, "", true), later)
    decreases |before|
  {
    var calls := before + [Next] + later;
    if before == [] {
      assert calls[0] == Next && calls[1..] == later;
    } else {
      assert calls[1..] == before[1..] + [Next] + later;
      PutAfterItsRequest(before[1..], later);
    }
  }

  /** Data reaches the parameter it was put for, in every run that gets to the execution. */
  lemma {:induction false} DataReachesItsParameter(s: Session, calls: seq<Call>)
    requires Fits(s) && Asking(s) && AtExecution(s, calls).Some?
    ensures Delivered(s, calls, AtExecution(s, calls).value)
    decreases |calls|
  {
    var t, rest := After(s, calls[0]), calls[1..];
    if calls[0].Put? {
      DataReachesItsParameter(t, rest);
      DeliveredAfterPut(s, calls, AtExecution(t, rest).value);
    } else if Pending(s.records, s.current, s.count) != [] {
      DataReachesItsParameter(t, rest);
      DeliveredAfterNext(s, calls, AtExecution(t, rest).value);
    }
  }

  // ----- the calls

  lemma {:induction false} SkipToFirst(records: seq<Record>, from: nat, count: nat)
    requires from <= count <= |records| && Pending(records, from, |records|) != []
    ensures Pending(records, Pending(records, from, |records|)[0], count) == Pending(records, from, count)
    decreases count - from
  {
    PendingAreDae(records, from, |records|);
    if from < count && !records[from].dae {
      SkipToFirst(records, from + 1, count);
    }
  }

  datatype SetPosRc = Asks | Refused | Failed | Ran

  class Statement {
    var daeType: Kind
    var currentParam: nat
    var apd: seq<Record>
    var ard: seq<Record>
    var setposApd: Option<seq<Record>>
    var paramCount: nat
    var executed: seq<Reply>  // what has been executed, in order

    ghost predicate Valid()
      reads this
    {
      && (daeType == Normal ==> paramCount <= |apd| && currentParam <= |apd|)
      && (daeType == SetPosInsert || daeType == SetPosUpdate ==>
            setposApd.Some? && |setposApd.value| == |ard| && currentParam <= |ard|)
    }

    constructor (apd: seq<Record>, ard: seq<Record>, paramCount: nat)
      requires paramCount <= |apd|
      ensures Valid() && daeType == NoDae && executed == [] && setposApd == None
      ensures this.apd == apd && this.ard == ard && this.paramCount == paramCount
    {
      daeType, currentParam, setposApd, executed := NoDae, 0, None, [];
      this.apd, this.ard, this.paramCount := apd, ard, paramCount;
    }

    /** The session the protocol is in; outside of one only the kind matters. */
    function Current(): (s: Session)
      requires Valid()
      reads this
      ensures Fits(s) && s.kind == daeType
    {
      match daeType
      case Normal => Session(Normal, currentParam, apd, paramCount)
      case SetPosInsert => Session(SetPosInsert, currentParam, setposApd.value, |ard|)
      case SetPosUpdate => Session(SetPosUpdate, currentParam, setposApd.value, |ard|)
      case _ => Session(daeType, 0, [], 0)
    }

    /** The first data-at-exec record of a descriptor, parameter or not. */
    static method FindDaeRec(records: seq<Record>) returns (r: Option<nat>)
      ensures r == if Pending(records, 0, |records|) == [] then None else Some(Pending(records, 0, |records|)[0])
    {
      var i := 0;
      while i < |records|
        invariant 0 <= i <= |records| && Pending(records, i, |records|) == Pending(records, 0, |records|)
      {
        if records[i].dae {
          return Some(i);
        }
        i := i + 1;
      }
      return None;
    }

    /**
     What SQLSetPos does about data-at-exec columns before the operation proper: unless they are already done, it
     copies the row descriptor and asks for data. An insert of all rows of an array is refused.
     */
    method SetPos(kind: Kind, irow: nat, arraySize: nat, fails: bool) returns (rc: SetPosRc)
      requires Valid() && (kind == SetPosInsert || kind == SetPosUpdate)
      modifies this
      ensures Valid() && ard == old(ard) && apd == old(apd) && paramCount == old(paramCount)
      ensures rc == Asks <==>
                old(daeType) != SetPosDone && Pending(ard, 0, |ard|) != [] && !(irow == 0 && arraySize > 1)
      ensures rc == Asks ==>
                && Current() == Session(kind, Pending(ard, 0, |ard|)[0], ard, |ard|) && executed == old(executed)
                && Pending(ard, currentParam, |ard|) == Pending(ard, 0, |ard|)
      ensures rc != Asks ==> daeType == old(daeType) && setposApd == old(setposApd) && currentParam == old(currentParam)
      ensures rc == Ran || rc == Failed <==> old(daeType) == SetPosDone || Pending(ard, 0, |ard|) == []
      ensures executed == old(executed) + if rc == Ran then [Executed(kind, Columns())] else []
      ensures (rc == Failed ==> fails) && (rc == Ran ==> !fails)
    {
      if daeType != SetPosDone {
        var daeRec := FindDaeRec(ard);
        if daeRec.Some? {
          if irow == 0 && arraySize > 1 {
            return Refused;
          }
          setposApd := Some(ard);
          PendingAreDae(ard, 0, |ard|);
          SkipToFirst(ard, 0, |ard|);
          currentParam, daeType := daeRec.value, kind;
          return Asks;
        }
      }
      if fails {
        return Failed;
      }
      executed := executed + [Executed(kind, Columns())];
      rc := Ran;
    }

    /** The descriptor the operation reads its data from. */
    function Columns(): seq<Record>
      reads this
    {
      if setposApd.Some? then setposApd.value else ard
    }

    /** A statement with one row of parameters, some of them data-at-exec: it is not run but asks for data. */
    method AskForParameters() returns (asks: bool)
      requires Valid() && paramCount <= |apd|
      modifies this`daeType, this`currentParam
      ensures Valid() && asks == (paramCount > 0 && Pending(apd, 0, |apd|) != [])
      ensures asks ==>
                && Current() == Session(Normal, Pending(apd, 0, |apd|)[0], apd, paramCount)
                && Pending(apd, currentParam, paramCount) == Pending(apd, 0, paramCount)
      ensures !asks ==> daeType == NoDae
    {
      daeType, asks := NoDae, false;
      if paramCount > 0 {
        var daeRec := FindDaeRec(apd);
        if daeRec.Some? {
          PendingAreDae(apd, 0, |apd|);
          assert daeRec.value in Pending(apd, 0, |apd|);
          SkipToFirst(apd, 0, paramCount);
          currentParam, daeType, asks := daeRec.value, Normal, true;
        }
      }
    }

    /** Looks for the next parameter and empties it; None when no call is waiting for data. */
    method FindNextDaeParam() returns (r: Option<Option<nat>>)
      requires Valid()
      modifies this
      ensures Valid() && executed == old(executed) && paramCount == old(paramCount) && |ard| == old(|ard|)
      ensures r.None? <==> old(daeType) !in {Normal, SetPosInsert, SetPosUpdate}
      ensures r.None? || r.value.None? ==> Current() == old(Current()) && setposApd == old(setposApd)
      ensures r.Some? ==>
                var (next, reply) := Ask(old(Current()));
                if r.value.Some? then reply == Requested(r.value.value) && Current() == next else reply.Executed?
    {
      if !Active(daeType) {
        return None;
      }
      var count := if daeType == Normal then paramCount else |ard|;
      var records := if daeType == Normal then apd else setposApd.value;
      var i := currentParam;
      while i < count
        invariant Pending(records, i, count) == Pending(records, currentParam, count)
      {
        if records[i].dae {
          currentParam := i + 1;
          records := records[i := Record(true, "", true)];
          if daeType == Normal {
            apd := records;
          } else {
            setposApd := Some(records);
          }
          return Some(Some(i));
        }
        i := i + 1;
      }
      return Some(None);
    }

    /**
     SQLParamData: names the next parameter or executes, exactly as the protocol says; `fails` is whether the execution
     does. However the execution ends, the session is over, and it never asks for data again.
     */
    method ParamData(irow: nat, arraySize: nat, fails: bool) returns (reply: Reply)
      requires Valid()
      modifies this
      ensures Valid() && reply == Ask(old(Current())).1
      ensures reply.Requested? ==> Current() == Ask(old(Current())).0
      ensures reply.Requested? || reply.Rejected? ==> executed == old(executed)
      ensures reply.Rejected? ==> Current() == old(Current())
      ensures reply.Executed? ==> daeType == NoDae && executed == old(executed) + if fails then [] else [reply]
    {
      var next := FindNextDaeParam();
      if next.None? {
        return Rejected;
      }
      if next.value.Some? {
        return Requested(next.value.value);
      }
      reply := Executed(daeType, Current().records);
      if daeType == Normal {
        if !fails {
          executed := executed + [Executed(Normal, apd)];
        }
      } else {
        var kind := daeType;
        daeType := SetPosDone;
        var rc := SetPos(kind, irow, arraySize, fails);
        setposApd := None;
      }
      daeType := NoDae;
    }

    /** SQLPutData: the chunk goes to the parameter named last. */
    method PutData(chunk: Option<string>) returns (ok: bool)
      requires Valid() && daeType in {Normal, SetPosInsert, SetPosUpdate}
      modifies this`apd, this`setposApd
      ensures Valid() && ok == (currentParam > 0)
      ensures Current() == After(old(Current()), Put(chunk))
    {
      if currentParam == 0 {
        return false;
      }
      var filled := Filled(Current(), chunk);
      if daeType == Normal {
        apd := filled.records;
      } else {
        setposApd := Some(filled.records);
      }
      ok := true;
    }
  }
}
