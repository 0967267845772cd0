/**
 The counter two failover tasks and their caller share. Each operation runs under the counter's mutex, so each
 is one atomic step; the functions below say what one step does and the class carries them out in place.
 */
module FailoverSync {

  import opened Wrappers

  predicate IsDone(numTasks: int) {
    numTasks <= 0
  }

  /** The counter once another task is announced. */
  function Incremented(numTasks: int): int {
    numTasks + 1
  }

  /** None stands for the exception thrown when a finished process is completed once more. */
  function Marked(numTasks: int, cancelOtherTasks: bool): Option<int> {
    if cancelOtherTasks then Some(0)
    else if numTasks <= 0 then None
    else Some(numTasks - 1)
  }

  /** What may happen to a counter once its tasks are launched (tasks are only added before that). */
  datatype Op = Mark(cancelOtherTasks: bool) | WaitAndComplete

  /** The counter after one operation; an operation that throws leaves it as it was. */
  function After(numTasks: int, op: Op): int {
    match op
    case Mark(cancel) => (match Marked(numTasks, cancel) case Some(n) => n case None => numTasks)
    case WaitAndComplete => 0
  }

  function AfterAll(numTasks: int, ops: seq<Op>): int {
    if ops == [] then numTasks else After(AfterAll(numTasks, ops[..|ops| - 1]), ops[|ops| - 1])
  }

  lemma AfterOneMore(n: int, ops: seq<Op>, more: seq<Op>)
    requires |more| <= 1
    ensures AfterAll(n, ops + more) ==
            if more == [] then AfterAll(n, ops) else After(AfterAll(n, ops), more[0])
  {
    if more == [] {
      assert ops + more == ops;
    } else {
      assert (ops + more)[..|ops + more| - 1] == ops;
    }
  }

  class Counter {
    var numTasks: int

    constructor (numTasks: int)
      ensures this.numTasks == numTasks
    {
      this.numTasks := numTasks;
    }

    method IncrementTask()
      modifies this
      ensures numTasks == old(numTasks) + 1 == Incremented(old(numTasks))
    {
      numTasks := numTasks + 1;
    }

    /** `threw` is the run-time error raised for a process that is already done. */
    method MarkAsComplete(cancelOtherTasks: bool) returns (threw: bool)
      modifies this
      ensures threw <==> !cancelOtherTasks && old(numTasks) <= 0
      ensures numTasks == if cancelOtherTasks then 0 else if threw then old(numTasks) else old(numTasks) - 1
      ensures numTasks == After(old(numTasks), Mark(cancelOtherTasks))
    {
      if cancelOtherTasks {
        numTasks := 0;
      } else {
        if numTasks <= 0 {
          return true;
        }
        numTasks := numTasks - 1;
      }
      return false;
    }

    /** Waiting ends by a notification or by the timeout; the process is over either way. */
    method WaitAndComplete()
      modifies this
      ensures numTasks == 0 == After(old(numTasks), Op.WaitAndComplete)
    {
      numTasks := 0;
    }

    method IsCompleted() returns (r: bool)
      ensures r == (numTasks <= 0) == IsDone(numTasks)
    {
      r := numTasks <= 0;
    }
  }

  /** The counter never goes below zero, and a finished process stays finished whatever is called on it. */
  lemma {:induction false} CompletionIsPermanent(numTasks: int, ops: seq<Op>)
    requires numTasks >= 0
    ensures 0 <= AfterAll(numTasks, ops) <= numTasks
    ensures IsDone(numTasks) ==> IsDone(AfterAll(numTasks, ops))
  {
    if ops != [] {
      CompletionIsPermanent(numTasks, ops[..|ops| - 1]);
    }
  }

  function Marks(ops: seq<Op>): nat {
    if ops == [] then 0
    else Marks(ops[..|ops| - 1]) + (if ops[|ops| - 1] == Mark(false) then 1 else 0)
  }

  predicate Cancels(op: Op) {
    op != Mark(false)
  }

  /**
   A process of n tasks is over exactly when some operation cancelled it or all n tasks reported failure:
   reports past the n-th are the ones that throw.
   */
  lemma {:induction false} DoneExactlyWhen(n: nat, ops: seq<Op>)
    ensures IsDone(AfterAll(n, ops)) <==> (exists op :: op in ops && Cancels(op)) || Marks(ops) >= n
    ensures !IsDone(AfterAll(n, ops)) ==> AfterAll(n, ops) == n - Marks(ops)
  {
    if ops != [] {
      var init, last := ops[..|ops| - 1], ops[|ops| - 1];
      DoneExactlyWhen(n, init);
      CompletionIsPermanent(n, init);
      assert ops == init + [last];
      assert Cancels(last) ==> last in ops;
      if op :| op in init && Cancels(op) {
        assert op in ops;
      }
    }
  }
}
