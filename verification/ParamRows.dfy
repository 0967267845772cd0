/**
 What executing a statement for an array of parameter sets comes to, row by row: which rows are run, what each of them
 reports, which texts reach the server.
 */
module ParamRows {

  import opened Wrappers
  import opened Text
  import opened Substitution

  datatype Status = Succeeds | SucceedsWithInfo | Fails | DiagUnavailable | Unused

  const UNION_ALL := " UNION ALL "

  /**
   What the environment makes of a query, should the row get that far: its return code, whether it came as far as
   resetting the statement's buffer, as every query does that succeeds, and whether the connection counts as lost
   afterwards.
   */
  datatype Run = Run(rc: Rc, resets: bool, lost: bool)

  /** The prepared query with its markers, and for every row the parameters, the ignore flag and the environment. */
  datatype Call = Call(query: string, pos: seq<nat>, isSelect: bool,
                       sets: seq<seq<Param>>, ignored: seq<bool>, runs: seq<Run>, dae: Option<nat>)
  {
    predicate Valid() {
      && Markers(query, pos)
      && 1 <= |sets| == |ignored| == |runs|
      && (forall r | 0 <= r < |sets| :: |sets[r]| == |pos|)
      && (forall r | 0 <= r < |sets| :: runs[r].rc != NeedData && (Succeeded(runs[r].rc) ==> runs[r].resets))
    }

    function Size(): nat {
      |sets|
    }

    /** A statement without parameters does not look at the flags. */
    predicate Ignored(r: nat)
      requires Valid() && r < Size()
    {
      pos != [] && ignored[r]
    }

    predicate Renders(r: nat)
      requires Valid() && r < Size()
    {
      Succeeded(RenderRc(sets[r]))
    }

    /** All rows of a SELECT make one query, which the last of them runs. */
    predicate Runs(r: nat)
      requires Valid() && r < Size()
    {
      !Ignored(r) && Renders(r) && (!isSelect || r == Size() - 1)
    }

    /** The connection was lost in a row before. */
    predicate Broken(r: nat)
      requires Valid() && r <= Size()
    {
      r > 0 && (Broken(r - 1) || (Runs(r - 1) && runs[r - 1].lost))
    }

    function QueryRc(r: nat): Rc
      requires Valid() && r < Size()
    {
      if Broken(r) then Error else runs[r].rc
    }

    function RowRc(r: nat): Rc
      requires Valid() && r < Size()
    {
      if Runs(r) then QueryRc(r) else RenderRc(sets[r])
    }

    predicate Failed(r: nat)
      requires Valid() && r < Size()
    {
      !Ignored(r) && !Succeeded(RowRc(r))
    }

    /** The row's query was run and returned plain success. */
    predicate Worked(r: nat)
      requires Valid() && r < Size()
    {
      Runs(r) && QueryRc(r) == Success
    }

    predicate Deviated(r: nat)
      requires Valid() && r < Size()
    {
      !Ignored(r) && (RenderRc(sets[r]) != Success || (Runs(r) && QueryRc(r) != Success))
    }

    /** No later row has failed. */
    predicate LastFailure(r: nat)
      requires Valid() && r < Size()
    {
      Failed(r) && forall q: nat | r < q < Size() :: !Failed(q)
    }

    /** The last failure has its diagnostics, earlier ones have lost theirs. */
    function RowStatus(r: nat): Status
      requires Valid() && r < Size()
    {
      if Ignored(r) then Unused
      else if Failed(r) then if LastFailure(r) then Fails else DiagUnavailable
      else if RowRc(r) == Success then Succeeds
      else SucceedsWithInfo
    }

    /** The status as long as it is not known which failure is the last. */
    function Provisional(r: nat): Status
      requires Valid() && r < Size()
    {
      if Ignored(r) then Unused
      else if RowRc(r) == Success then Succeeds
      else if RowRc(r) == SuccessWithInfo then SucceedsWithInfo
      else DiagUnavailable
    }

    /** The last of the first `row` rows that failed, or -1. */
    function LastError(row: nat): int
      requires Valid() && row <= Size()
    {
      if row == 0 then -1 else if Failed(row - 1) then row - 1 else LastError(row - 1)
    }

    predicate AnyDeviated(row: nat)
      requires Valid() && row <= Size()
    {
      row > 0 && (AnyDeviated(row - 1) || Deviated(row - 1))
    }

    predicate AnyWorked(row: nat)
      requires Valid() && row <= Size()
    {
      row > 0 && (AnyWorked(row - 1) || Worked(row - 1))
    }

    /** What the variables of the loop say about the first `row` rows. */
    predicate Reported(row: nat, rc: Rc, lastError: int, deviated: bool, allFailed: bool)
      requires Valid() && row <= Size()
    {
      && lastError == LastError(row)
      && deviated == AnyDeviated(row)
      && allFailed == (Size() > 1 && !AnyWorked(row))
      && (!deviated ==> rc == Success)
      && (row == 1 ==> rc == if Ignored(0) then Success else RowRc(0))
    }

    /** What the operation returns when no data-at-exec parameter is in its way. */
    ghost function ReturnCode(): Rc
      requires Valid()
    {
      if Size() == 1 then if Ignored(0) then Success else RowRc(0)
      else if forall r: nat | r < Size() :: !Worked(r) then Error
      else if exists r: nat :: r < Size() && Deviated(r) then SuccessWithInfo
      else Success
    }

    /** The status array of the first `row` rows before the last failure is marked. */
    ghost predicate Noted(statuses: seq<Status>, row: nat)
      requires Valid() && row <= Size()
    {
      && row <= |statuses|
      && forall r: nat | r < row :: statuses[r] == Provisional(r)
    }

    ghost predicate Final(statuses: seq<Status>)
      requires Valid()
    {
      && Size() <= |statuses|
      && forall r: nat | r < Size() :: statuses[r] == RowStatus(r)
    }

    // ----- texts

    /** The query with the parameters of a row. */
    function Own(r: nat): string
      requires Valid() && r < Size()
    {
      Substituted(query, pos, Texts(sets[r]))
    }

    /** The own queries of those of the first r rows that are not ignored. */
    function Owns(r: nat): seq<string>
      requires Valid() && r <= Size()
    {
      if r == 0 then [] else if Ignored(r - 1) then Owns(r - 1) else Owns(r - 1) + [Own(r - 1)]
    }

    /** The statement's buffer before row r, from its content at the start. */
    function Buffer(start: string, r: nat): string
      requires Valid() && r <= Size()
    {
      if r == 0 then start
      else
        var before := Buffer(start, r - 1);
        if Ignored(r - 1) then before
        else if !Renders(r - 1) then before + Residue(query, pos, sets[r - 1])
        else if Runs(r - 1) && !Broken(r - 1) && runs[r - 1].resets then ""
        else if pos == [] then before
        else if isSelect && r < Size() then before + Own(r - 1) + UNION_ALL
        else before + Own(r - 1)
    }

    function RowText(start: string, r: nat): string
      requires Valid() && r < Size()
    {
      if pos == [] then query else Buffer(start, r) + Own(r)
    }

    /** What the first r rows have handed to the server. */
    function Sent(start: string, r: nat): seq<string>
      requires Valid() && r <= Size()
    {
      if r == 0 then []
      else if Runs(r - 1) && !Broken(r - 1) then Sent(start, r - 1) + [RowText(start, r - 1)]
      else Sent(start, r - 1)
    }

    /** Data-at-exec parameters stop the first row that is not ignored. */
    predicate Stops(r: nat)
      requires Valid() && r < Size()
    {
      pos != [] && dae.Some? && !Ignored(r) && forall q: nat | q < r :: Ignored(q)
    }

    ghost predicate NeverStops()
      requires Valid()
    {
      forall r: nat | r < Size() :: !Stops(r)
    }
  }

  // ----- flags and statuses

  lemma {:induction false} WhatTheFlagsMean(c: Call, row: nat)
    requires c.Valid() && row <= c.Size()
    ensures c.AnyWorked(row) <==> exists r: nat :: r < row && c.Worked(r)
    ensures c.AnyDeviated(row) <==> exists r: nat :: r < row && c.Deviated(r)
    ensures -1 <= c.LastError(row) < row
    ensures c.LastError(row) >= 0 ==> c.Failed(c.LastError(row))
    ensures forall q: nat | c.LastError(row) < q < row :: !c.Failed(q)
  {
    if row > 0 {
      WhatTheFlagsMean(c, row - 1);
    }
  }

  /** A row whose parameters are looked at. */
  predicate Included(c: Call, r: nat)
    requires c.Valid() && r < c.Size()
  {
    c.pos == [] || !c.ignored[r]
  }

  predicate AllRendered(params: seq<Param>) {
    forall i | 0 <= i < |params| :: params[i].Rendered?
  }

  predicate SomeInfo(params: seq<Param>) {
    exists i :: 0 <= i < |params| && params[i].Rendered? && params[i].info
  }

  lemma {:induction false} BrokenMeans(c: Call, r: nat)
    requires c.Valid() && r <= c.Size()
    ensures c.Broken(r) <==> exists q: nat :: q < r && c.Runs(q) && c.runs[q].lost
  {
    if r > 0 {
      BrokenMeans(c, r - 1);
    }
  }

  /**
   What becomes of a row, in terms of its flag, its parameters and what the environment answers: its query is run exactly
   when the row is included, all its parameters render and, for a SELECT, it is the last row; the row fails exactly when
   a parameter does not render, the connection was lost in a row before, or the query comes back with an error.
   */
  lemma WhatBecomesOfARow(c: Call, r: nat)
    requires c.Valid() && r < c.Size()
    ensures c.Runs(r) <==> Included(c, r) && AllRendered(c.sets[r]) && (c.isSelect ==> r == |c.sets| - 1)
    ensures c.Broken(r) <==> exists q: nat :: q < r && c.Runs(q) && c.runs[q].lost
    ensures c.Failed(r) <==>
              Included(c, r) && (!AllRendered(c.sets[r]) || (c.Runs(r) && (c.Broken(r) || c.runs[r].rc == Error)))
    ensures c.Worked(r) <==> c.Runs(r) && !c.Broken(r) && c.runs[r].rc == Success
    ensures c.Deviated(r) <==>
              Included(c, r)
              && (!AllRendered(c.sets[r]) || SomeInfo(c.sets[r])
                  || (c.Runs(r) && (c.Broken(r) || c.runs[r].rc != Success)))
  {
    RenderingMeans(c.sets[r]);
    BrokenMeans(c, r);
  }

  /**
   What the status of a row says: it was ignored; it failed and no later row did; it failed and a later one did, too; it
   went without a warning, which for a row whose query was run is what the query reported; or it went with one.
   */
  lemma StatusesMean(c: Call, r: nat)
    requires c.Valid() && r < c.Size()
    ensures c.RowStatus(r) == Unused <==> !Included(c, r)
    ensures c.RowStatus(r) == Fails <==> c.Failed(r) && forall q: nat | r < q < c.Size() :: !c.Failed(q)
    ensures c.RowStatus(r) == DiagUnavailable <==> c.Failed(r) && exists q: nat :: r < q < c.Size() && c.Failed(q)
    ensures c.RowStatus(r) == Succeeds <==>
              Included(c, r) && !c.Failed(r) && if c.Runs(r) then c.runs[r].rc == Success else !SomeInfo(c.sets[r])
  {
    RenderingMeans(c.sets[r]);
    WhatBecomesOfARow(c, r);
  }

  /** Marking the last failure turns the provisional statuses into the final ones. */
  lemma MarkedStatusesAreFinal(c: Call, statuses: seq<Status>)
    requires c.Valid() && c.Noted(statuses, c.Size())
    ensures var last := c.LastError(c.Size());
            -1 <= last < c.Size() && c.Final(if last >= 0 then statuses[last := Fails] else statuses)
  {
    WhatTheFlagsMean(c, c.Size());
    var last := c.LastError(c.Size());
    forall r: nat | r < c.Size()
      ensures (if last >= 0 then statuses[last := Fails] else statuses)[r] == c.RowStatus(r)
    {
      if r == last {
        assert c.LastFailure(r);
      } else if c.Failed(r) {
        assert r < last && c.Failed(last);
      }
    }
  }

  lemma StopIsUnique(c: Call, row: nat)
    requires c.Valid() && row < c.Size() && c.Stops(row)
    ensures forall r: nat | r < c.Size() && c.Stops(r) :: r == row
  {
  }

  lemma {:induction false} IgnoredRowsDoNothing(c: Call, start: string, row: nat)
    requires c.Valid() && row <= c.Size() && forall q: nat | q < row :: c.Ignored(q)
    ensures c.Buffer(start, row) == start && c.Sent(start, row) == []
  {
    if row > 0 {
      IgnoredRowsDoNothing(c, start, row - 1);
    }
  }

  // ----- a SELECT

  /** Before the last row nothing has been sent, and every row included has put its query and the keyword into the buffer. */
  lemma {:induction false} UnionBefore(c: Call, r: nat)
    requires c.Valid() && c.pos != [] && c.isSelect && r < c.Size()
    requires forall q: nat | q < c.Size() && !c.Ignored(q) :: c.Renders(q)
    ensures c.Buffer("", r) == Terminated(c.Owns(r), UNION_ALL)
    ensures c.Sent("", r) == [] && !c.Broken(r)
  {
    if r > 0 {
      UnionBefore(c, r - 1);
      assert !c.Ignored(r - 1) ==> c.Owns(r)[..|c.Owns(r)| - 1] == c.Owns(r - 1);
    }
  }

  lemma JoinLast(parts: seq<string>, last: string)
    ensures Join(parts + [last], UNION_ALL) == Terminated(parts, UNION_ALL) + last
  {
    JoinSnoc(parts, last, UNION_ALL);
    if parts == [] {
      assert "" + last == last;
    } else {
      JoinedIsTerminatedWithoutTail(parts, UNION_ALL);
    }
  }

  /**
   From an empty buffer, a SELECT that includes its last row sends the union of the own queries of the rows included, when
   these all render.
   */
  lemma SelectSendsTheUnion(c: Call)
    requires c.Valid() && c.pos != [] && c.isSelect
    requires forall q: nat | q < c.Size() && !c.Ignored(q) :: c.Renders(q)
    requires !c.Ignored(c.Size() - 1)
    ensures c.Sent("", c.Size()) == [Join(c.Owns(c.Size()), UNION_ALL)]
  {
    var n := c.Size();
    UnionBefore(c, n - 1);
    JoinLast(c.Owns(n - 1), c.Own(n - 1));
    assert c.Owns(n) == c.Owns(n - 1) + [c.Own(n - 1)];
  }

  lemma {:induction false} NothingBeforeLastRow(c: Call, start: string, r: nat)
    requires c.Valid() && c.isSelect && r < c.Size()
    ensures c.Sent(start, r) == [] && !c.Broken(r)
  {
    if r > 0 {
      NothingBeforeLastRow(c, start, r - 1);
    }
  }

  /** A SELECT is sent once, and only when its last row is included and rendered; the other rows do not matter. */
  lemma {:induction false} SelectNeedsItsLastRow(c: Call, start: string)
    requires c.Valid() && c.isSelect
    ensures |c.Sent(start, c.Size())| == if !c.Ignored(c.Size() - 1) && c.Renders(c.Size() - 1) then 1 else 0
  {
    NothingBeforeLastRow(c, start, c.Size() - 1);
  }

  // ----- any other statement

  /** A row leaves nothing in the buffer. */
  predicate LeavesNothing(c: Call, r: nat)
    requires c.Valid() && r < c.Size()
  {
    if c.Ignored(r) then true
    else if !c.Renders(r) then Residue(c.query, c.pos, c.sets[r]) == ""
    else (!c.Broken(r) && c.runs[r].resets) || c.Own(r) == ""
  }

  /** A row empties the buffer, whatever was in it. */
  predicate Empties(c: Call, r: nat)
    requires c.Valid() && r < c.Size()
  {
    c.Runs(r) && !c.Broken(r) && c.runs[r].resets
  }

  /** The buffer is empty before a row: every row that left something was followed by one that emptied it. */
  ghost predicate CleanBefore(c: Call, start: string, r: nat)
    requires c.Valid() && r <= c.Size()
  {
    && (start == "" || exists p: nat :: p < r && Empties(c, p))
    && forall q: nat | q < r && !LeavesNothing(c, q) :: exists p: nat :: q < p < r && Empties(c, p)
  }

  lemma CleanStep(c: Call, start: string, r: nat)
    requires c.Valid() && 0 < r <= c.Size() && !Empties(c, r - 1)
    ensures CleanBefore(c, start, r) <==> CleanBefore(c, start, r - 1) && LeavesNothing(c, r - 1)
  {
    if CleanBefore(c, start, r) {
      forall q: nat | q < r - 1 && !LeavesNothing(c, q)
        ensures exists p: nat :: q < p < r - 1 && Empties(c, p)
      {
        var p: nat :| q < p < r && Empties(c, p);
        assert p != r - 1;
      }
    }
  }

  lemma {:induction false} BufferIsEmptyExactlyWhenClean(c: Call, start: string, r: nat)
    requires c.Valid() && !c.isSelect && c.pos != [] && r <= c.Size()
    ensures c.Buffer(start, r) == "" <==> CleanBefore(c, start, r)
  {
    if r > 0 {
      BufferIsEmptyExactlyWhenClean(c, start, r - 1);
      if Empties(c, r - 1) {
        assert c.Buffer(start, r) == "";
        assert LeavesNothing(c, r - 1);
      } else {
        CleanStep(c, start, r);
      }
    }
  }

  /**
   Rows are independent exactly as far as the buffer is clean: what a row hands to the server is its own query if and
   only if no earlier row has left text behind since the buffer was last emptied.
   */
  lemma RowSendsItsOwnQueryExactlyWhenClean(c: Call, start: string, r: nat)
    requires c.Valid() && !c.isSelect && c.pos != [] && r < c.Size()
    ensures c.RowText(start, r) == c.Own(r) <==> CleanBefore(c, start, r)
  {
    BufferIsEmptyExactlyWhenClean(c, start, r);
    if c.Buffer(start, r) + c.Own(r) == c.Own(r) {
      assert |c.Buffer(start, r)| == 0;
    }
  }

  /** The buffer is known to be empty before row p: nothing was in it at the start, or the row before succeeded. */
  predicate FreshAt(c: Call, start: string, p: nat)
    requires c.Valid() && p <= c.Size()
  {
    if p == 0 then start == "" else c.Runs(p - 1) && Succeeded(c.QueryRc(p - 1))
  }

  lemma {:induction false} EmptyWithoutFailure(c: Call, start: string, p: nat, r: nat)
    requires c.Valid() && !c.isSelect && p <= r <= c.Size() && FreshAt(c, start, p)
    requires forall q: nat | p <= q < r :: !c.Failed(q)
    ensures c.Buffer(start, r) == ""
    decreases r - p
  {
    if p < r {
      EmptyWithoutFailure(c, start, p, r - 1);
      assert !c.Failed(r - 1);
    }
  }

  /** A row sends its own query unless a row has failed since the last one that succeeded. */
  lemma OwnQueryWithoutFailure(c: Call, start: string, p: nat, r: nat)
    requires c.Valid() && !c.isSelect && p <= r < c.Size() && FreshAt(c, start, p)
    requires forall q: nat | p <= q < r :: !c.Failed(q)
    ensures c.pos != [] ==> c.RowText(start, r) == c.Own(r)
  {
    EmptyWithoutFailure(c, start, p, r);
    assert "" + c.Own(r) == c.Own(r);
  }

  /** As long as no row fails, exactly the own queries of the rows that are not ignored are sent, one after the other. */
  lemma {:induction false} WithoutFailureEachIsSent(c: Call, r: nat)
    requires c.Valid() && !c.isSelect && c.pos != [] && r <= c.Size()
    requires forall q: nat | q < r :: !c.Failed(q)
    ensures c.Sent("", r) == c.Owns(r)
  {
    if r > 0 {
      WithoutFailureEachIsSent(c, r - 1);
      OwnQueryWithoutFailure(c, "", 0, r - 1);
      assert !c.Failed(r - 1);
    }
  }

  /** Once the connection counts as lost, no later row is sent, and each one that would be fails. */
  lemma {:induction false} NothingIsSentAfterALoss(c: Call, start: string, r: nat, n: nat)
    requires c.Valid() && r <= n <= c.Size() && c.Broken(r)
    ensures c.Sent(start, n) == c.Sent(start, r) && c.Broken(n)
    ensures forall q: nat | r <= q < n && c.Runs(q) :: c.Failed(q)
    decreases n - r
  {
    if r < n {
      NothingIsSentAfterALoss(c, start, r, n - 1);
    }
  }

  lemma {:induction false} FilledStartsWithQuery(query: string, pos: seq<nat>, texts: seq<string>, n: nat)
    requires Markers(query, pos) && 0 < n <= |pos| == |texts| && pos[0] > 0
    ensures Filled(query, pos, texts, n) != ""
  {
    if n > 1 {
      FilledStartsWithQuery(query, pos, texts, n - 1);
    } else {
      assert Between(query, 0, pos[0]) != "";
    }
  }

  lemma {:induction false} ResidueIsNotEmpty(query: string, pos: seq<nat>, params: seq<Param>)
    requires Markers(query, pos) && |params| == |pos| > 0 && FirstBad(params) < |params|
    requires pos[0] > 0 && !params[0].Unbound?
    ensures Residue(query, pos, params) != ""
  {
    FirstBadIsFirst(params);
    var i := FirstBad(params);
    if i > 0 {
      FilledStartsWithQuery(query, pos, Texts(params), i);
    }
  }

  /** So it is the failed rendering of a row that spoils the row after it. */
  lemma FailedRowSpoilsTheNext(c: Call, r: nat)
    requires c.Valid() && !c.isSelect && c.pos != [] && r + 1 < c.Size()
    requires !c.Ignored(r) && !c.Renders(r) && c.pos[0] > 0 && !c.sets[r][0].Unbound?
    ensures c.RowText("", r + 1) != c.Own(r + 1)
  {
    FirstBadIsFirst(c.sets[r]);
    ResidueIsNotEmpty(c.query, c.pos, c.sets[r]);
    RowSendsItsOwnQueryExactlyWhenClean(c, "", r + 1);
    assert !LeavesNothing(c, r);
  }
}
