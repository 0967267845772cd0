/** Executing a prepared statement once for every set of an array of parameters, by substituting them in its text. */
module ParamArray {

  import opened Wrappers
  import opened Text
  import opened Substitution
  import opened ParamRows

  datatype DaeType = NoDae | DaeNormal

  /** The statuses of the first `row` rows are noted, and nothing else has changed. */
  ghost predicate Kept(c: Call, status: array?<Status>, row: nat, was: seq<Status>)
    requires c.Valid() && row <= c.Size()
    reads status
  {
    status != null ==>
      && c.Size() <= status.Length == |was|
      && if c.pos == [] then status[..] == was else c.Noted(status[..], row) && status[row..] == was[row..]
  }

  predicate Refused(statuses: seq<Status>, n: nat, row: nat)
    requires n <= |statuses|
  {
    forall q | 0 <= q < n :: statuses[q] == if q == row then Fails else Unused
  }

  function StatusOf(rc: Rc): Status {
    if rc == Success then Succeeds else if rc == SuccessWithInfo then SucceedsWithInfo else DiagUnavailable
  }

  class Statement {
    var buf: string        // the statement's text buffer
    var sent: seq<string>  // the queries handed to the server
    var daeType: DaeType
    var currentParam: nat

    /** Appends what a parameter is rendered to, whole or in part. */
    method InsertParam(param: Param) returns (rc: Rc)
      requires !param.Unbound?
      modifies this`buf
      ensures buf == old(buf) + Emitted(param)
      ensures rc == if param.Failing? then Error else if param.info then SuccessWithInfo else Success
    {
      buf := buf + Emitted(param);
      rc := if param.Failing? then Error else if param.info then SuccessWithInfo else Success;
    }

    /**
     Appends the query with its markers replaced to the buffer, and hands out the whole buffer. A parameter that cannot
     be rendered leaves what was appended before it.
     */
    method InsertParams(query: string, pos: seq<nat>, params: seq<Param>) returns (rc: Rc, text: Option<string>)
      requires Markers(query, pos) && |params| == |pos|
      modifies this`buf
      ensures rc == RenderRc(params)
      ensures Succeeded(rc) ==> buf == old(buf) + Substituted(query, pos, Texts(params)) && text == Some(buf)
      ensures !Succeeded(rc) ==> buf == old(buf) + Residue(query, pos, params) && text == None
    {
      var i, next, hadInfo := 0, 0, false;
      ghost var before, texts := buf, Texts(params);
      assert before + "" == before;
      FirstBadIsFirst(params);
      while i < |params|
        invariant 0 <= i <= |params| && next == Start(pos, i)
        invariant i <= FirstBad(params)
        invariant hadInfo <==> HasInfo(params, i)
        invariant buf == before + Filled(query, pos, texts, i)
      {
        StartIsBefore(query, pos, i);
        FirstBadAt(params, i);
        if params[i].Unbound? {
          return Error, None;
        }
        buf := buf + Between(query, next, pos[i]);
        next := pos[i] + 1;
        RegroupAll(before, Filled(query, pos, texts, i), Between(query, Start(pos, i), pos[i]), Emitted(params[i]));
        var done := InsertParam(params[i]);
        if !Succeeded(done) {
          return Error, None;
        }
        hadInfo := hadInfo || done == SuccessWithInfo;
        i := i + 1;
      }
      WholeQuery(query, pos, texts);
      ghost var filled := Filled(query, pos, texts, |pos|);
      Regroup(before, filled, query[next..]);
      buf := buf + query[next..];
      rc := if hadInfo then SuccessWithInfo else Success;
      text := Some(buf);
    }

    /** Hands a query to the server; early failures leave the buffer as it is. */
    method DoQuery(text: string, run: Run) returns (rc: Rc)
      modifies this`buf, this`sent
      ensures sent == old(sent) + [text] && rc == run.rc
      ensures buf == if run.resets then "" else old(buf)
    {
      sent := sent + [text];
      if run.resets {
        buf := "";
      }
      rc := run.rc;
    }

    /** One row that is not ignored: renders its parameters and runs the query, if it is this row's turn to. */
    method RunRow(c: Call, row: nat, broken: bool, ghost start: string, ghost before: seq<string>)
      returns (rendering: Rc, rc: Rc, ran: bool, lost: bool)
      requires c.Valid() && row < c.Size() && !c.Ignored(row) && broken == c.Broken(row)
      requires buf == c.Buffer(start, row) && sent == before + c.Sent(start, row)
      modifies this`buf, this`sent
      ensures buf == c.Buffer(start, row + 1) && sent == before + c.Sent(start, row + 1)
      ensures rendering == RenderRc(c.sets[row]) && rc == c.RowRc(row) && ran == c.Runs(row) && lost == c.Broken(row + 1)
    {
      var text := c.query;
      rendering, rc, ran, lost := Success, Success, false, broken;
      if c.pos != [] {
        var rendered;
        rendering, rendered := InsertParams(c.query, c.pos, c.sets[row]);
        rc := rendering;
        if rendered.None? {
          return;
        }
        if !(c.isSelect && row < c.Size() - 1) {
          text := rendered.value;
        }
        if c.isSelect && c.Size() > 1 && row < c.Size() - 1 {
          buf := buf + UNION_ALL;
        }
      }
      if !c.isSelect || row == c.Size() - 1 {
        ran := true;
        if !broken {
          Regroup(before, c.Sent(start, row), [text]);
          rc := DoQuery(text, c.runs[row]);
        } else {
          rc := Error;
        }
        lost := broken || c.runs[row].lost;
      }
    }

    /** Stores the status of a row, if there is an array for it. */
    method Note(ghost c: Call, status: array?<Status>, row: nat, value: Status, ghost was: seq<Status>)
      requires c.Valid() && c.pos != [] && row < c.Size() && value == c.Provisional(row)
      requires Kept(c, status, row, was)
      modifies status
      ensures Kept(c, status, row + 1, was)
    {
      if status != null {
        status[row] := value;
      }
    }

    /** One row that is not ignored, with what it reports and how it counts. */
    method ProcessRow(c: Call, row: nat, broken: bool, lastError: int, deviated: bool, allFailed: bool,
                      status: array?<Status>, ghost start: string, ghost before: seq<string>, ghost was: seq<Status>,
                      ghost last: Rc)
      returns (rc: Rc, lost: bool, lastError': int, deviated': bool, allFailed': bool)
      requires c.Valid() && row < c.Size() && !c.Ignored(row) && broken == c.Broken(row)
      requires buf == c.Buffer(start, row) && sent == before + c.Sent(start, row)
      requires c.Reported(row, last, lastError, deviated, allFailed) && Kept(c, status, row, was)
      modifies this`buf, this`sent, status
      ensures buf == c.Buffer(start, row + 1) && sent == before + c.Sent(start, row + 1) && lost == c.Broken(row + 1)
      ensures c.Reported(row + 1, rc, lastError', deviated', allFailed') && Kept(c, status, row + 1, was)
    {
      var rendering, ran;
      rendering, rc, ran, lost := RunRow(c, row, broken, start, before);
      if c.pos != [] {
        Note(c, status, row, StatusOf(rc), was);
      }
      lastError' := if Succeeded(rc) then lastError else row;
      deviated' := deviated || rendering != Success || (ran && rc != Success);
      allFailed' := allFailed && !(ran && rc == Success);
    }

    /** The rows one after the other, up to the first that data-at-exec parameters stop. */
    method ProcessRows(c: Call, status: array?<Status>, ghost was: seq<Status>)
      returns (row: nat, rc: Rc, lastError: int, deviated: bool, allFailed: bool, rowsProcessed: nat)
      requires c.Valid() && Kept(c, status, 0, was)
      modifies this`buf, this`sent, status
      ensures row <= c.Size() && (if row < c.Size() then c.Stops(row) else c.NeverStops())
      ensures buf == c.Buffer(old(buf), row) && sent == old(sent) + c.Sent(old(buf), row)
      ensures c.Reported(row, rc, lastError, deviated, allFailed) && Kept(c, status, row, was)
      ensures rowsProcessed == if c.pos == [] then 0 else if row < c.Size() then row + 1 else row
    {
      ghost var start, before := buf, sent;
      var broken;
      row, lastError, deviated, broken, allFailed := 0, -1, false, false, c.Size() > 1;
      rc, rowsProcessed := Success, 0;
      while row < c.Size()
        invariant 0 <= row <= c.Size() && rowsProcessed == (if c.pos == [] then 0 else row)
        invariant buf == c.Buffer(start, row) && sent == before + c.Sent(start, row) && broken == c.Broken(row)
        invariant c.Reported(row, rc, lastError, deviated, allFailed) && Kept(c, status, row, was)
        invariant c.pos != [] && c.dae.Some? ==> forall q: nat | q < row :: c.Ignored(q)
      {
        if c.pos != [] {
          rowsProcessed := rowsProcessed + 1;
          if c.ignored[row] {
            Note(c, status, row, Unused, was);
            row := row + 1;
            continue;
          }
          if c.dae.Some? {
            break;
          }
        }
        rc, broken, lastError, deviated, allFailed :=
          ProcessRow(c, row, broken, lastError, deviated, allFailed, status, start, before, was, rc);
        row := row + 1;
      }
    }

    /** Marks the row that is refused, and the rows after it as unused. */
    method RefuseArray(c: Call, row: nat, status: array?<Status>)
      requires c.Valid() && row < c.Size() && c.Stops(row)
      requires status != null ==> c.Size() <= status.Length && c.Noted(status[..], row)
      modifies status
      ensures status != null ==> Refused(status[..], c.Size(), row) && status[c.Size()..] == old(status[c.Size()..])
    {
      if status != null {
        status[row] := Fails;
        var q := row + 1;
        while q < c.Size()
          invariant row < q <= c.Size()
          invariant forall p | 0 <= p < q :: status[p] == if p == row then Fails else Unused
          invariant status[c.Size()..] == old(status[c.Size()..])
        {
          status[q] := Unused;
          q := q + 1;
        }
      }
    }

    /**
     The whole array, from an empty buffer whatever an earlier execution left there. Every row that is not ignored
     reports what became of it, only the last failure keeps its diagnostics. For more than one row the result is an error
     if no query of a row returned plain success, and plain success if besides that no row deviated. Data-at-exec
     parameters are asked for with a single row, and refused at the first row that is not ignored otherwise.
     */
    method Execute(c: Call, status: array?<Status>) returns (rc: Rc, rowsProcessed: nat)
      requires c.Valid() && (status != null ==> status.Length >= c.Size())
      modifies this, status
      ensures c.NeverStops() ==>
                && buf == c.Buffer("", c.Size())
                && sent == old(sent) + c.Sent("", c.Size())
                && rowsProcessed == (if c.pos == [] then 0 else c.Size())
                && rc == c.ReturnCode()
                && daeType == NoDae
      ensures c.NeverStops() && c.pos != [] && status != null ==> c.Final(status[..])
      ensures c.pos == [] && status != null ==> status[..] == old(status[..])
      ensures forall r: nat | r < c.Size() && c.Stops(r) ::
                && buf == "" && sent == old(sent) && rowsProcessed == r + 1
                && (c.Size() == 1 ==> rc == NeedData && daeType == DaeNormal && currentParam == c.dae.value)
                && (c.Size() > 1 ==> rc == Error && daeType == NoDae)
                && (c.Size() > 1 && status != null ==> Refused(status[..], c.Size(), r))
      ensures status != null ==> status[c.Size()..] == old(status[c.Size()..])
    {
      daeType, buf := NoDae, "";  // what freeing the statement's buffers resets
      ghost var was := if status == null then [] else status[..];
      var row, lastError, deviated, allFailed;
      row, rc, lastError, deviated, allFailed, rowsProcessed := ProcessRows(c, status, was);
      if row < c.Size() {
        IgnoredRowsDoNothing(c, "", row);
        StopIsUnique(c, row);
        if c.Size() == 1 {
          currentParam, daeType := c.dae.value, DaeNormal;
          return NeedData, rowsProcessed;
        }
        RefuseArray(c, row, status);
        return Error, rowsProcessed;
      }
      WhatTheFlagsMean(c, c.Size());
      if c.pos != [] && status != null {
        MarkedStatusesAreFinal(c, status[..]);
        if lastError >= 0 {
          ghost var noted := status[..];
          status[lastError] := Fails;
          assert status[..] == noted[lastError := Fails];
        }
      }
      if c.Size() > 1 {
        if allFailed {
          rc := Error;
        } else if deviated {
          rc := SuccessWithInfo;
        }
      }
    }
  }
}
