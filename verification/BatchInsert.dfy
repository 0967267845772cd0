/**
 Inserting the rows of bound buffers: one INSERT takes as many rows as fit, and a full one is sent before the next is
 begun.
 */
module BatchInsert {

  import opened Wrappers
  import opened Text

  /** What rendering a column yields; one that fails may already have put text into the statement's buffer. */
  datatype Cell = Rendered(text: string) | Failing(text: string)

  type Row = seq<Cell>

  predicate Renders(row: Row) {
    forall cell | cell in row :: cell.Rendered?
  }

  function Texts(row: Row): seq<string> {
    if row == [] then [] else Texts(row[..|row| - 1]) + [row[|row| - 1].text]
  }

  function Tuple(row: Row): string {
    "(" + Join(Texts(row), ",") + ")"
  }

  function Tuples(rows: seq<Row>): seq<string> {
    if rows == [] then [] else Tuples(rows[..|rows| - 1]) + [Tuple(rows[|rows| - 1])]
  }

  /** The statement that inserts a block of rows. */
  function Insert(base: string, rows: seq<Row>): string {
    base + Join(Tuples(rows), ",")
  }

  /** The statement as it grows: every tuple has its comma. */
  function Growing(base: string, rows: seq<Row>): string {
    if rows == [] then base else Growing(base, rows[..|rows| - 1]) + Tuple(rows[|rows| - 1]) + ","
  }

  /** The text buffer as a row is rendered behind what was in it: every cell has its comma. */
  function Buffered(leftover: string, row: Row): string {
    if row == [] then leftover else Buffered(leftover, row[..|row| - 1]) + row[|row| - 1].text + ","
  }

  lemma {:induction false} GrowingIsTerminated(base: string, rows: seq<Row>)
    ensures Growing(base, rows) == base + Terminated(Tuples(rows), ",")
  {
    if rows != [] {
      var init, last := rows[..|rows| - 1], rows[|rows| - 1];
      GrowingIsTerminated(base, init);
      assert Tuples(rows)[..|Tuples(rows)| - 1] == Tuples(init);
      RegroupAll(base, Terminated(Tuples(init), ","), Tuple(last), ",");
    }
  }

  lemma {:induction false} BufferedIsTerminated(leftover: string, row: Row)
    ensures Buffered(leftover, row) == leftover + Terminated(Texts(row), ",")
  {
    if row != [] {
      var init, last := row[..|row| - 1], row[|row| - 1];
      BufferedIsTerminated(leftover, init);
      assert Texts(row)[..|Texts(row)| - 1] == Texts(init);
      RegroupAll(leftover, Terminated(Texts(init), ","), last.text, ",");
    }
  }

  lemma WithoutLastComma(base: string, rows: seq<Row>)
    requires rows != []
    ensures Growing(base, rows) == Insert(base, rows) + ","
  {
    GrowingIsTerminated(base, rows);
    JoinedIsTerminatedWithoutTail(Tuples(rows), ",");
    Regroup(base, Join(Tuples(rows), ","), ",");
  }

  predicate HaveColumns(rows: seq<Row>) {
    forall i | 0 <= i < |rows| :: rows[i] != []
  }

  // ----- text left in the buffer

  /** A row as it reads behind text left in the buffer: that text becomes the beginning of its first cell. */
  function Behind(leftover: string, row: Row): Row {
    if row == [] then [] else [row[0].(text := leftover + row[0].text)] + row[1..]
  }

  /** The rows of an operation as they read behind text left in the buffer: only the first one is affected. */
  function RowsBehind(leftover: string, rows: seq<Row>): seq<Row> {
    if rows == [] then [] else [Behind(leftover, rows[0])] + rows[1..]
  }

  /** What is in the buffer when the n-th row begins. */
  function AtRow(leftover: string, n: nat): string {
    if n == 0 then leftover else ""
  }

  /** What a row that fails leaves in the buffer: its cells up to the failing one, whose text may be partial. */
  function Residue(leftover: string, row: Row): string {
    if row == [] then leftover
    else if !Renders(row[..|row| - 1]) then Residue(leftover, row[..|row| - 1])
    else Buffered(leftover, row[..|row| - 1]) + row[|row| - 1].text
  }

  lemma {:induction false} ResidueOfPrefix(leftover: string, row: Row, n: nat)
    requires n <= |row| && !Renders(row[..n])
    ensures Residue(leftover, row) == Residue(leftover, row[..n]) && !Renders(row)
    decreases |row| - n
  {
    if n < |row| {
      assert row[..|row| - 1][..n] == row[..n];
      ResidueOfPrefix(leftover, row[..|row| - 1], n);
      assert forall cell | cell in row[..|row| - 1] :: cell in row;
    } else {
      assert row[..n] == row;
    }
  }

  lemma FailingCell(leftover: string, row: Row, n: nat)
    requires n < |row| && row[n].Failing? && Renders(row[..n])
    ensures Buffered(leftover, row[..n]) + row[n].text == Residue(leftover, row) && !Renders(row)
  {
    assert row[..n + 1][..n] == row[..n] && row[..n + 1][n] in row[..n + 1];
    ResidueOfPrefix(leftover, row, n + 1);
  }

  /** That is, what was left over, the cells before with a comma behind each, and the partial text. */
  lemma ResidueMeans(leftover: string, row: Row, n: nat)
    requires n < |row| && row[n].Failing? && Renders(row[..n])
    ensures Residue(leftover, row) == leftover + Terminated(Texts(row[..n]), ",") + row[n].text
  {
    FailingCell(leftover, row, n);
    BufferedIsTerminated(leftover, row[..n]);
  }

  /** Text in front of the cells is text in front of the first one. */
  lemma {:induction false} BufferedBehind(leftover: string, row: Row)
    requires row != []
    ensures Buffered(leftover, row) == Buffered("", Behind(leftover, row))
  {
    var init, behind := row[..|row| - 1], Behind(leftover, row);
    if |row| == 1 {
      assert behind[..0] == [];
      assert "" + (leftover + row[0].text) == leftover + row[0].text;
    } else {
      BufferedBehind(leftover, init);
      assert behind[..|row| - 1] == Behind(leftover, init);
    }
  }

  /** The buffer without its last comma is what stands between the brackets of the tuple. */
  lemma WholeTuple(query: string, leftover: string, row: Row)
    requires row != []
    ensures var text, behind := Buffered(leftover, row), Behind(leftover, row);
            && text != "" && text == Buffered("", behind)
            && query + "(" + text[..|text| - 1] + ")," == query + Tuple(behind) + ","
  {
    var text, behind := Buffered(leftover, row), Behind(leftover, row);
    BufferedBehind(leftover, row);
    BufferedIsTerminated("", behind);
    TextsLength(behind);
    JoinedIsTerminatedWithoutTail(Texts(behind), ",");
    assert "" + Terminated(Texts(behind), ",") == Terminated(Texts(behind), ",");
    assert text[..|text| - 1] == Join(Texts(behind), ",");
    RegroupAll(query, "(", Join(Texts(behind), ","), ")");
    assert query + "(" + Join(Texts(behind), ",") + ")," == query + "(" + Join(Texts(behind), ",") + ")" + ",";
  }

  lemma {:induction false} TextsLength(row: Row)
    ensures |Texts(row)| == |row|
  {
    if row != [] {
      TextsLength(row[..|row| - 1]);
    }
  }

  lemma NothingLeft(rows: seq<Row>)
    ensures RowsBehind("", rows) == rows
  {
    if rows != [] && rows[0] != [] {
      assert "" + rows[0][0].text == rows[0][0].text;
      assert Behind("", rows[0]) == rows[0];
    }
  }

  lemma BehindRenders(leftover: string, row: Row)
    ensures Renders(Behind(leftover, row)) <==> Renders(row)
  {
    if row != [] {
      var behind := Behind(leftover, row);
      assert row == [row[0]] + row[1..] && behind == [behind[0]] + row[1..];
      assert row[0] in row && behind[0] in behind;
      assert forall cell | cell in row[1..] :: cell in row && cell in behind;
    }
  }

  lemma TupleBehind(leftover: string, row: Row)
    requires row != []
    ensures |Tuple(Behind(leftover, row))| == |leftover| + |Tuple(row)|
  {
    WholeTuple("", leftover, row);
    WholeTuple("", "", row);
    BufferedIsTerminated(leftover, row);
    BufferedIsTerminated("", row);
    NothingLeft([row]);
    assert RowsBehind("", [row])[0] == row;
  }

  /** Each row reads behind what is in the buffer when its turn comes. */
  lemma BehindBuffer(leftover: string, rows: seq<Row>, n: nat)
    requires n < |rows| && HaveColumns(rows)
    ensures RowsBehind(leftover, rows)[n] == Behind(AtRow(leftover, n), rows[n])
  {
    if n > 0 {
      NothingLeft([rows[n]]);
      assert RowsBehind("", [rows[n]])[0] == rows[n];
    }
  }

  // ----- where a statement ends

  /** After row b - 1 the statement begun with row a does not fit the buffer's size any more. */
  predicate Full(base: string, rows: seq<Row>, bufLen: nat -> nat, a: nat, b: nat)
    requires a < b <= |rows|
  {
    |Growing(base, rows[a..b])| + |Buffered("", rows[b - 1])| >= bufLen(b - 1)
  }

  /**
   That is, the statement of these rows and its last tuple come to the buffer's size: the text that ends a block is
   compared with the size together with another row as long as the last one.
   */
  lemma FullMeans(base: string, rows: seq<Row>, bufLen: nat -> nat, a: nat, b: nat)
    requires a < b <= |rows| && rows[b - 1] != []
    ensures Full(base, rows, bufLen, a, b) <==> |Insert(base, rows[a..b])| + |Tuple(rows[b - 1])| >= bufLen(b - 1)
  {
    var row := rows[b - 1];
    WithoutLastComma(base, rows[a..b]);
    BufferedIsTerminated("", row);
    TextsLength(row);
    JoinedIsTerminatedWithoutTail(Texts(row), ",");
  }

  lemma {:induction false} TextsAre(row: Row, k: nat)
    requires k < |row|
    ensures |Texts(row)| == |row| && Texts(row)[k] == row[k].text
  {
    TextsLength(row);
    if k < |row| - 1 {
      TextsAre(row[..|row| - 1], k);
      TextsLength(row[..|row| - 1]);
    } else {
      TextsLength(row[..|row| - 1]);
    }
  }

  /** The rows from a to b make one statement: it ends at the first row that fills it, or with the last row. */
  predicate IsBlock(base: string, rows: seq<Row>, bufLen: nat -> nat, a: nat, b: nat) {
    && a < b <= |rows|
    && (b == |rows| || Full(base, rows, bufLen, a, b))
    && FitsBefore(base, rows, bufLen, a, b)
  }

  predicate FitsBefore(base: string, rows: seq<Row>, bufLen: nat -> nat, a: nat, b: nat)
    requires b <= |rows|
  {
    forall j: nat | a < j < b :: !Full(base, rows, bufLen, a, j)
  }

  predicate AllRender(rows: seq<Row>, n: nat)
    requires n <= |rows|
  {
    forall i | 0 <= i < n :: Renders(rows[i])
  }

  /** A statement in the making: rows a to b as they read, none but the last of which can have filled it. */
  predicate Fitting(base: string, rows: seq<Row>, bufLen: nat -> nat, a: nat, b: nat, full: bool, query: string) {
    && a <= b <= |rows|
    && AllRender(rows, b)
    && query == Growing(base, rows[a..b])
    && FitsBefore(base, rows, bufLen, a, b)
    && full == (a < b && Full(base, rows, bufLen, a, b))
  }

  lemma RowTaken(base: string, rows: seq<Row>, bufLen: nat -> nat, a: nat, b: nat, query: string, longer: string,
                 length: nat)
    requires Fitting(base, rows, bufLen, a, b, false, query) && b < |rows| && Renders(rows[b])
    requires longer == query + Tuple(rows[b]) + "," && length == |Buffered("", rows[b])|
    ensures Fitting(base, rows, bufLen, a, b + 1, |longer| + length >= bufLen(b), longer)
  {
    assert rows[a..b + 1][..b - a] == rows[a..b];
  }

  function Last(cuts: seq<nat>): nat
    requires cuts != []
  {
    cuts[|cuts| - 1]
  }

  function Init(cuts: seq<nat>): seq<nat>
    requires cuts != []
  {
    cuts[..|cuts| - 1]
  }

  /** The cuts between the statements sent so far. */
  predicate Cuts(base: string, rows: seq<Row>, bufLen: nat -> nat, cuts: seq<nat>) {
    if |cuts| <= 1 then cuts == [0]
    else Cuts(base, rows, bufLen, Init(cuts)) && IsBlock(base, rows, bufLen, Last(Init(cuts)), Last(cuts))
  }

  function Block(rows: seq<Row>, a: nat, b: nat): seq<Row> {
    if a <= b <= |rows| then rows[a..b] else []
  }

  /** One statement for each block. */
  function Statements(base: string, rows: seq<Row>, cuts: seq<nat>): seq<string> {
    if |cuts| <= 1 then []
    else Statements(base, rows, Init(cuts)) + [Insert(base, Block(rows, Last(Init(cuts)), Last(cuts)))]
  }

  /** The rows of all blocks, one block after the other. */
  function SentRows(rows: seq<Row>, cuts: seq<nat>): seq<Row> {
    if |cuts| <= 1 then []
    else SentRows(rows, Init(cuts)) + Block(rows, Last(Init(cuts)), Last(cuts))
  }

  /** Rows are conserved: the blocks are, one after the other, exactly the rows up to the last cut. */
  lemma {:induction false} BlocksAreTheRows(base: string, rows: seq<Row>, bufLen: nat -> nat, cuts: seq<nat>)
    requires Cuts(base, rows, bufLen, cuts)
    ensures Last(cuts) <= |rows| && SentRows(rows, cuts) == rows[..Last(cuts)]
  {
    if |cuts| > 1 {
      BlocksAreTheRows(base, rows, bufLen, Init(cuts));
    }
  }

  lemma BlockEndIsUnique(base: string, rows: seq<Row>, bufLen: nat -> nat, a: nat, b: nat, c: nat)
    requires IsBlock(base, rows, bufLen, a, b) && IsBlock(base, rows, bufLen, a, c)
    ensures b == c
  {
  }

  /** The rows, the size limits and the base text decide where statements end. */
  lemma {:induction false} CutsAreDetermined(base: string, rows: seq<Row>, bufLen: nat -> nat, c: seq<nat>, d: seq<nat>)
    requires Cuts(base, rows, bufLen, c) && Cuts(base, rows, bufLen, d) && |c| == |d|
    ensures c == d
  {
    if |c| > 1 {
      CutsAreDetermined(base, rows, bufLen, Init(c), Init(d));
      BlockEndIsUnique(base, rows, bufLen, Last(Init(c)), Last(c), Last(d));
      assert c == Init(c) + [Last(c)] && d == Init(d) + [Last(d)];
    }
  }

  predicate AllAccepted(accepts: nat -> bool, n: nat) {
    forall k: nat | k < n :: accepts(k)
  }

  /** What holds after some statements: each is a block, its rows were rendered and the server took it. */
  predicate Progress(base: string, rows: seq<Row>, bufLen: nat -> nat, accepts: nat -> bool, cuts: seq<nat>) {
    && Cuts(base, rows, bufLen, cuts)
    && Last(cuts) <= |rows|
    && AllRender(rows, Last(cuts))
    && AllAccepted(accepts, |cuts| - 1)
  }

  // ----- what text left in the buffer does

  lemma {:induction false} FirstStatement(base: string, rows: seq<Row>, cuts: seq<nat>)
    requires |cuts| > 1
    ensures |Statements(base, rows, cuts)| == |cuts| - 1
    ensures Statements(base, rows, cuts)[0] == Insert(base, Block(rows, cuts[0], cuts[1]))
  {
    if |cuts| > 2 {
      FirstStatement(base, rows, Init(cuts));
    }
  }

  lemma {:induction false} FirstCuts(base: string, rows: seq<Row>, bufLen: nat -> nat, cuts: seq<nat>)
    requires Cuts(base, rows, bufLen, cuts) && |cuts| > 1
    ensures cuts[0] == 0 < cuts[1] <= |rows|
  {
    if |cuts| > 2 {
      FirstCuts(base, rows, bufLen, Init(cuts));
    }
  }

  lemma {:induction false} GrowingLength(base: string, row: Row, rest: seq<Row>)
    ensures |Growing(base, [row] + rest)| == |Growing(base, rest)| + |Tuple(row)| + 1
  {
    var all := [row] + rest;
    if rest == [] {
      assert all[..0] == [];
    } else {
      GrowingLength(base, row, rest[..|rest| - 1]);
      assert all[..|all| - 1] == [row] + rest[..|rest| - 1];
    }
  }

  /** The statement that begins with the first row is longer by the text left over. */
  lemma InsertBehind(base: string, leftover: string, rows: seq<Row>, n: nat)
    requires 0 < n <= |rows| && rows[0] != []
    ensures |Insert(base, RowsBehind(leftover, rows)[..n])| == |Insert(base, rows[..n])| + |leftover|
  {
    var behind, block, rest := RowsBehind(leftover, rows)[..n], rows[..n], rows[1..n];
    assert behind == [Behind(leftover, rows[0])] + rest && block == [rows[0]] + rest;
    GrowingLength(base, Behind(leftover, rows[0]), rest);
    GrowingLength(base, rows[0], rest);
    TupleBehind(leftover, rows[0]);
    WithoutLastComma(base, behind);
    WithoutLastComma(base, block);
  }

  /**
   Exactly when: once something is sent, it is what the rows call for if and only if the buffer was empty when the
   operation began. Text a failed operation has left there turns up in the first value of the first row.
   */
  lemma SentAsSpecifiedExactlyWhenEmpty(base: string, leftover: string, rows: seq<Row>, bufLen: nat -> nat, cuts: seq<nat>)
    requires HaveColumns(rows) && Cuts(base, RowsBehind(leftover, rows), bufLen, cuts) && |cuts| > 1
    ensures Statements(base, RowsBehind(leftover, rows), cuts) == Statements(base, rows, cuts) <==> leftover == ""
  {
    var behind := RowsBehind(leftover, rows);
    FirstCuts(base, behind, bufLen, cuts);
    if leftover == "" {
      NothingLeft(rows);
    } else {
      FirstStatement(base, behind, cuts);
      FirstStatement(base, rows, cuts);
      InsertBehind(base, leftover, rows, cuts[1]);
    }
  }

  /** Why an operation fails: a statement is refused, or a row does not render and leaves its text in the buffer. */
  predicate Refusal(leftover: string, rows: seq<Row>, accepted: bool, buf: string) {
    (!accepted && buf == "") || exists i: nat :: i < |rows| && !Renders(rows[i]) && buf == Residue(AtRow(leftover, i), rows[i])
  }

  // ----- the operation

  /** What has been sent since the operation began is a statement for each block up to the row that is next. */
  predicate Sending(base: string, rows: seq<Row>, bufLen: nat -> nat, accepts: nat -> bool, cuts: seq<nat>, count: nat,
                    before: seq<string>, sent: seq<string>)
  {
    && Progress(base, rows, bufLen, accepts, cuts)
    && Last(cuts) == count
    && sent == before + Statements(base, rows, cuts)
  }

  lemma NothingSent(base: string, rows: seq<Row>, bufLen: nat -> nat, accepts: nat -> bool, sent: seq<string>)
    ensures Sending(base, rows, bufLen, accepts, [0], 0, sent, sent)
  {
    assert Statements(base, rows, [0]) == [];
  }

  lemma BlockSent(base: string, rows: seq<Row>, bufLen: nat -> nat, accepts: nat -> bool, cuts: seq<nat>, count: nat,
                  next: nat, before: seq<string>, sent: seq<string>)
    requires Sending(base, rows, bufLen, accepts, cuts, count, before, sent) && IsBlock(base, rows, bufLen, count, next)
    requires accepts(|cuts| - 1) && AllRender(rows, next)
    ensures Sending(base, rows, bufLen, accepts, cuts + [next], next, before, sent + [Insert(base, rows[count..next])])
  {
    assert Init(cuts + [next]) == cuts;
    Regroup(before, Statements(base, rows, cuts), [Insert(base, rows[count..next])]);
  }

  /** std::string::erase from a position on. */
  function Erased(query: string, from: nat): string {
    if from <= |query| then query[..from] else query
  }

  class Inserter {
    var buf: string        // the statement's text buffer; a failed operation leaves text in it
    var sent: seq<string>  // the statements the server has accepted

    constructor ()
      ensures buf == "" && sent == []
    {
      buf, sent := "", [];
    }

    /**
     Renders the columns into the buffer, a comma behind each, and moves the whole buffer but its last comma to the query.
     What was in the buffer before comes in front of the first column; a row that fails leaves its text behind.
     */
    method AppendRow(query: string, row: Row) returns (r: Option<string>, length: nat)
      requires row != []
      modifies this`buf
      ensures r.Some? <==> Renders(row)
      ensures r.Some? ==>
                && buf == "" && r.value == query + Tuple(Behind(old(buf), row)) + ","
                && length == |Buffered("", Behind(old(buf), row))|
      ensures r.None? ==> buf == Residue(old(buf), row)
    {
      ghost var leftover := buf;
      var longer := query + "(";
      length := 0;
      var ncol := 0;
      while ncol < |row|
        invariant 0 <= ncol <= |row| && Renders(row[..ncol])
        invariant buf == Buffered(leftover, row[..ncol])
      {
        match row[ncol] {
          case Failing(partial) =>
            buf := buf + partial;
            FailingCell(leftover, row, ncol);
            return None, 0;
          case Rendered(text) =>
            buf := buf + text + ",";
        }
        assert row[..ncol + 1][..ncol] == row[..ncol];
        ncol := ncol + 1;
      }
      assert row[..ncol] == row;
      WholeTuple(query, leftover, row);
      length := |buf|;
      longer := longer + buf[..length - 1];
      buf := "";
      longer := longer + "),";
      r := Some(longer);
    }

    /**
     Appends rows from `start` on until one fills the statement or none is left. The result carries the statement with
     its last comma, the next row and whether the statement is full. `shown` are the rows as they read behind the text
     that was in the buffer when the operation began.
     */
    method FillStatement(base: string, start: nat, rows: seq<Row>, bufLen: nat -> nat,
                         ghost leftover: string, ghost shown: seq<Row>)
      returns (r: Option<string>, count: nat, full: bool)
      requires HaveColumns(rows) && start < |rows| && shown == RowsBehind(leftover, rows)
      requires buf == AtRow(leftover, start) && AllRender(shown, start)
      modifies this`buf
      ensures start <= count <= |shown| && AllRender(shown, count)
      ensures r.None? ==> count < |rows| && !Renders(rows[count]) && buf == Residue(AtRow(leftover, count), rows[count])
      ensures r.Some? ==> buf == "" && r.value == Growing(base, shown[start..count])
      ensures r.Some? ==> IsBlock(base, shown, bufLen, start, count) && (full || count == |shown|)
    {
      var query := base;
      count, full := start, false;
      assert shown[start..start] == [];
      while count < |rows| && !full
        invariant Fitting(base, shown, bufLen, start, count, full, query)
        invariant buf == AtRow(leftover, count)
        decreases |rows| - count
      {
        BehindBuffer(leftover, rows, count);
        BehindRenders(buf, rows[count]);
        var longer, length := AppendRow(query, rows[count]);
        if longer.None? {
          return None, count, full;
        }
        RowTaken(base, shown, bufLen, start, count, query, longer.value, length);
        query := longer.value;
        full := |query| + length >= bufLen(count);
        count := count + 1;
      }
      r := Some(query);
    }

    /** One statement: filled, its last comma taken off, sent. */
    method SendStatement(base: string, start: nat, rows: seq<Row>, bufLen: nat -> nat, accepts: nat -> bool,
                         ghost leftover: string, ghost shown: seq<Row>, ghost before: seq<string>, ghost cuts: seq<nat>,
                         statements: nat)
      returns (ok: bool, count: nat, full: bool, query: string, ghost cuts': seq<nat>)
      requires HaveColumns(rows) && start < |rows| && shown == RowsBehind(leftover, rows)
      requires buf == AtRow(leftover, start) && statements == |cuts| - 1
      requires Sending(base, shown, bufLen, accepts, cuts, start, before, sent)
      modifies this
      ensures Sending(base, shown, bufLen, accepts, cuts', if ok then count else start, before, sent)
      ensures !ok ==> |cuts'| == |cuts| && Refusal(leftover, rows, accepts(statements), buf)
      ensures ok ==> |cuts'| == |cuts| + 1 && buf == "" && start < count <= |rows| && (full || count == |rows|)
      ensures ok ==> Erased(query, |base|) == base
    {
      cuts' := cuts;
      var filled;
      filled, count, full := FillStatement(base, start, rows, bufLen, leftover, shown);
      if filled.None? {
        return false, count, full, base, cuts;
      }
      WithoutLastComma(base, shown[start..count]);
      query := filled.value[..|filled.value| - 1];
      ok := accepts(statements);
      if ok {
        BlockSent(base, shown, bufLen, accepts, cuts, start, count, before, sent);
        sent := sent + [query];
        cuts' := cuts + [count];
      }
    }

    /**
     The whole operation, on the rows of the bound buffers: all of them for row number 0, only the first otherwise.
     `bufLen` is the size of the statement's buffer after a row, `accepts` whether the server takes the n-th statement.

     What has been sent is always the base text with one block of rows after the other, and the operation succeeds
     exactly when no row is left. It fails for a row that cannot be rendered, and then leaves that row's text in the buffer,
     or for a statement that is refused; the blocks before have been sent. The rows read as they do behind the text that an
     earlier failure left in the buffer.
     */
    method BatchInsert(base: string, irow: nat, arraySize: nat, rows: seq<Row>, bufLen: nat -> nat, accepts: nat -> bool)
      returns (ok: bool, ghost cuts: seq<nat>)
      requires HaveColumns(rows)
      requires |rows| == (if irow == 0 && arraySize > 1 then arraySize else 1)
      modifies this
      ensures cuts != [] && Sending(base, RowsBehind(old(buf), rows), bufLen, accepts, cuts, Last(cuts), old(sent), sent)
      ensures ok <==> Last(cuts) == |rows|
      ensures ok ==> buf == ""
      ensures !ok ==> Refusal(old(buf), rows, accepts(|cuts| - 1), buf)
    {
      var insertCount: nat, count: nat, queryLength: nat := 1, 0, 0;
      var query, breakInsert := base, false;
      var statements: nat := 0;
      ghost var leftover, shown := buf, RowsBehind(buf, rows);
      ok, cuts := true, [0];
      NothingSent(base, shown, bufLen, accepts, sent);
      if irow == 0 && arraySize > 1 {
        insertCount, queryLength := arraySize, |query|;
      }
      var more := true;
      while more
        invariant count <= |rows| == insertCount
        invariant Sending(base, shown, bufLen, accepts, cuts, count, old(sent), sent) && statements == |cuts| - 1
        invariant more ==> ok && count < |rows| && buf == AtRow(leftover, count)
        invariant more ==> if breakInsert then Erased(query, queryLength) == base else query == base
        invariant !more ==> if ok then count == |rows| && buf == ""
                            else count < |rows| && Refusal(leftover, rows, accepts(statements), buf)
        decreases insertCount - count, more
      {
        query := if breakInsert then Erased(query, queryLength) else query;
        assert query == base;
        var next, full;
        ok, next, full, query, cuts :=
          SendStatement(base, count, rows, bufLen, accepts, leftover, shown, old(sent), cuts, statements);
        breakInsert := breakInsert || full;
        count := if ok then next else count;
        statements := if ok then statements + 1 else statements;
        more := ok && breakInsert && count < insertCount;
      }
    }
  }

  lemma OneRowOneStatement(base: string, row: Row, bufLen: nat -> nat, cuts: seq<nat>)
    requires Cuts(base, [row], bufLen, cuts) && Last(cuts) == 1
    ensures Statements(base, [row], cuts) == [Insert(base, [row])]
  {
    assert |cuts| == 2;
    assert Init(cuts) == [0] && Block([row], 0, 1) == [row];
    assert Statements(base, [row], [0]) == [];
  }

  lemma NothingBefore(base: string, rows: seq<Row>, bufLen: nat -> nat, cuts: seq<nat>)
    requires Cuts(base, rows, bufLen, cuts) && Last(cuts) == 0
    ensures Statements(base, rows, cuts) == []
  {
  }

  /** A row of two columns behind what its own first column has left. */
  lemma RetriedRow(base: string)
    ensures Residue("", [Rendered("a"), Failing("")]) == "a,"
    ensures Insert(base, [Behind("a,", [Rendered("a"), Rendered("b")])]) == base + "(a,a,b)"
  {
    var bad: Row, behind: Row := [Rendered("a"), Failing("")], Behind("a,", [Rendered("a"), Rendered("b")]);
    var none: seq<Row> := [];
    assert bad[..1] == [Rendered("a")] && [Rendered("a")][..0] == [];
    assert Buffered("", []) + "a" + "," == "a,";
    assert Renders([Rendered("a")]);
    assert "a," + "" == "a,";
    assert "a," + "a" == "a,a";
    assert behind == [Rendered("a,a"), Rendered("b")] && behind[..1] == [Rendered("a,a")] && behind[..1][..0] == [];
    assert Texts(behind[..1]) == ["a,a"] && Texts(behind) == ["a,a", "b"];
    assert ["a,a", "b"][..1] == ["a,a"] && Join(["a,a", "b"], ",") == "a,a,b";
    assert Tuple(behind) == "(a,a,b)" && [behind][..0] == none && Tuples([behind]) == ["(a,a,b)"];
  }

  /**
   The retry: a row whose second column fails is corrected by the application and inserted again by the same statement.
   What reaches the server has the first column's text twice.
   */
  method RetryCarriesLeftover(base: string) returns (sent: seq<string>)
    ensures sent == [base + "(a,a,b)"]
  {
    var inserter := new Inserter();
    var bad, good := [Rendered("a"), Failing("")], [Rendered("a"), Rendered("b")];
    var bufLen, accepts := (n: nat) => 0 as nat, (n: nat) => true;
    ghost var none, one;
    var ok;
    RetriedRow(base);
    NothingLeft([bad]);
    assert bad[1] in bad && !Renders(bad);
    ok, none := inserter.BatchInsert(base, 1, 1, [bad], bufLen, accepts);
    assert Last(none) == 0;
    NothingBefore(base, [bad], bufLen, none);
    assert inserter.buf == "a," && inserter.sent == [];
    BehindRenders("a,", good);
    assert RowsBehind("a,", [good]) == [Behind("a,", good)];
    ok, one := inserter.BatchInsert(base, 1, 1, [good], bufLen, accepts);
    OneRowOneStatement(base, Behind("a,", good), bufLen, one);
    sent := inserter.sent;
  }
}
