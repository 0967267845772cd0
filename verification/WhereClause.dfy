/**
 The WHERE clause of a positioned update or delete: one term per key column, or per table column when no key is usable,
 each followed by " AND "; the last separator is cut off again and a LIMIT is put behind.
 */
module WhereClause {

  import opened Wrappers
  import opened Text
  import opened UniqueKey

  /** What rendering the current value of a column yields; a failed one may leave text in the statement's buffer. */
  datatype Cell = Null | Literal(text: string) | Failing(partial: string)

  datatype Field = Field(name: string, cell: Cell)

  datatype TableColumn = TableColumn(name: string, inexact: bool)

  /** A query of the driver's own: one that is sent resets the statement's buffer, whether it succeeds or not. */
  datatype Query<T> = NotSent | Failed | Answered(value: T)

  function AsOption<T>(query: Query<T>): Option<T> {
    if query.Answered? then Some(query.value) else None
  }

  const AND := " AND "

  function Names(fields: seq<Field>): (names: seq<string>)
    ensures |names| == |fields| && forall k | 0 <= k < |fields| :: names[k] == fields[k].name
  {
    seq(|fields|, k requires 0 <= k < |fields| => fields[k].name)
  }

  function Quoted(name: string): string {
    "`" + name + "`"
  }

  /** col=literal, or col IS NULL. */
  function Term(name: string, cell: Cell): string {
    match cell
    case Literal(text) => Quoted(name) + "=" + text
    case _ => Quoted(name) + " IS NULL"
  }

  predicate Renders(fields: seq<Field>) {
    fields != [] ==> Renders(fields[..|fields| - 1]) && !fields[|fields| - 1].cell.Failing?
  }

  lemma RendersOneMore(fields: seq<Field>, f: Field)
    ensures Renders(fields + [f]) <==> Renders(fields) && !f.cell.Failing?
  {
    assert (fields + [f])[..|fields|] == fields;
  }

  function Terms(fields: seq<Field>): seq<string> {
    if fields == [] then []
    else Terms(fields[..|fields| - 1]) + [Term(fields[|fields| - 1].name, fields[|fields| - 1].cell)]
  }

  /** One term for each field, in their order: its name, and its literal or IS NULL. */
  lemma {:induction false} TermsAt(fields: seq<Field>, k: nat)
    requires k < |fields|
    ensures |Terms(fields)| == |fields|
    ensures Terms(fields)[k] == "`" + fields[k].name + "`" + if fields[k].cell.Literal? then "=" + fields[k].cell.text else " IS NULL"
  {
    var init, last := fields[..|fields| - 1], fields[|fields| - 1];
    if k < |init| {
      TermsAt(init, k);
    } else {
      if init != [] {
        TermsAt(init, 0);
      }
      assert Term(last.name, last.cell) ==
             "`" + last.name + "`" + if last.cell.Literal? then "=" + last.cell.text else " IS NULL";
    }
  }

  /** A text followed by the terms of some fields, each with the separator behind it. */
  function Extended(str: string, fields: seq<Field>): string {
    str + Terminated(Terms(fields), AND)
  }

  lemma ExtendedByOne(str: string, fields: seq<Field>, f: Field)
    ensures Extended(str, fields + [f]) == Extended(str, fields) + (Term(f.name, f.cell) + AND)
  {
    var terms, term := Terms(fields), Term(f.name, f.cell);
    assert (fields + [f])[..|fields|] == fields;
    assert (terms + [term])[..|terms|] == terms;
    assert str + (Terminated(terms, AND) + term + AND) == str + Terminated(terms, AND) + (term + AND);
  }

  // ----- text left in the buffer

  /** The buffer after the value of a column: a literal takes all of it, a null leaves it, a failure adds to it. */
  function AfterCell(buf: string, cell: Cell): string {
    match cell
    case Null => buf
    case Literal(_) => ""
    case Failing(partial) => buf + partial
  }

  /** The buffer after some fields; nothing is rendered after a failure. */
  function Left(leftover: string, fields: seq<Field>): string {
    if fields == [] then leftover
    else if !Renders(fields[..|fields| - 1]) then Left(leftover, fields[..|fields| - 1])
    else AfterCell(Left(leftover, fields[..|fields| - 1]), fields[|fields| - 1].cell)
  }

  /** A field as it reads behind text in the buffer. */
  function Behind(buf: string, f: Field): Field {
    if f.cell.Literal? then f.(cell := Literal(buf + f.cell.text)) else f
  }

  /** The fields as they read behind text left in the buffer: it becomes the beginning of the first literal. */
  function FieldsBehind(leftover: string, fields: seq<Field>): seq<Field> {
    if fields == [] then []
    else
      var init := fields[..|fields| - 1];
      FieldsBehind(leftover, init) + [Behind(Left(leftover, init), fields[|fields| - 1])]
  }

  predicate HasLiteral(fields: seq<Field>) {
    fields != [] && (HasLiteral(fields[..|fields| - 1]) || fields[|fields| - 1].cell.Literal?)
  }

  lemma {:induction false} LeftOfPrefix(leftover: string, fields: seq<Field>, n: nat)
    requires n <= |fields| && !Renders(fields[..n])
    ensures Left(leftover, fields) == Left(leftover, fields[..n]) && !Renders(fields)
    decreases |fields| - n
  {
    if n < |fields| {
      assert fields[..|fields| - 1][..n] == fields[..n];
      LeftOfPrefix(leftover, fields[..|fields| - 1], n);
    } else {
      assert fields[..n] == fields;
    }
  }

  lemma OneMoreField(leftover: string, fields: seq<Field>, f: Field)
    requires Renders(fields)
    ensures Left(leftover, fields + [f]) == AfterCell(Left(leftover, fields), f.cell)
    ensures FieldsBehind(leftover, fields + [f]) == FieldsBehind(leftover, fields) + [Behind(Left(leftover, fields), f)]
  {
    assert (fields + [f])[..|fields|] == fields;
  }

  lemma BehindNothing(f: Field)
    ensures Behind("", f) == f
  {
    assert f.cell.Literal? ==> "" + f.cell.text == f.cell.text;
  }

  /** From an empty buffer, and when no value is a literal, the fields read as they are. */
  lemma {:induction false} ReadAsTheyAre(leftover: string, fields: seq<Field>)
    requires Renders(fields) && (leftover == "" || !HasLiteral(fields))
    ensures FieldsBehind(leftover, fields) == fields && Left(leftover, fields) == leftover
  {
    if fields != [] {
      var init, last := fields[..|fields| - 1], fields[|fields| - 1];
      ReadAsTheyAre(leftover, init);
      BehindNothing(last);
      assert fields == init + [last];
    }
  }

  /** The length of the terms with their separators. */
  function Size(fields: seq<Field>): nat {
    if fields == [] then 0
    else
      var last := fields[|fields| - 1];
      Size(fields[..|fields| - 1]) + |Term(last.name, last.cell)| + |AND|
  }

  lemma {:induction false} SizeIsLength(fields: seq<Field>)
    ensures |Terminated(Terms(fields), AND)| == Size(fields)
  {
    if fields != [] {
      SizeIsLength(fields[..|fields| - 1]);
      assert Terms(fields)[..|Terms(fields)| - 1] == Terms(fields[..|fields| - 1]);
    }
  }

  lemma {:induction false} FirstLiteralTakesAll(leftover: string, fields: seq<Field>)
    requires Renders(fields)
    ensures Left(leftover, fields) == if HasLiteral(fields) then "" else leftover
  {
    if fields != [] {
      FirstLiteralTakesAll(leftover, fields[..|fields| - 1]);
    }
  }

  /** What a failing value leaves behind: its partial text, after the text left over unless a literal before it took that. */
  lemma LeftByFailure(leftover: string, fields: seq<Field>, n: nat)
    requires n < |fields| && Renders(fields[..n]) && fields[n].cell.Failing?
    ensures Left(leftover, fields) == (if HasLiteral(fields[..n]) then "" else leftover) + fields[n].cell.partial
  {
    var upTo := fields[..n + 1];
    assert upTo[..n] == fields[..n] && upTo == fields[..n] + [fields[n]];
    FirstLiteralTakesAll(leftover, fields[..n]);
    OneMoreField(leftover, fields[..n], fields[n]);
    RendersOneMore(fields[..n], fields[n]);
    LeftOfPrefix(leftover, fields, n + 1);
  }

  lemma TermBehind(buf: string, f: Field)
    ensures |Term(f.name, Behind(buf, f).cell)| == |Term(f.name, f.cell)| + if f.cell.Literal? then |buf| else 0
  {
  }

  /** Otherwise their terms are longer by the text left over. */
  lemma {:induction false} LongerByLeftover(leftover: string, fields: seq<Field>)
    requires Renders(fields)
    ensures Size(FieldsBehind(leftover, fields)) == Size(fields) + if HasLiteral(fields) then |leftover| else 0
  {
    if fields != [] {
      var init, last := fields[..|fields| - 1], fields[|fields| - 1];
      LongerByLeftover(leftover, init);
      FirstLiteralTakesAll(leftover, init);
      TermBehind(Left(leftover, init), last);
      var behind := FieldsBehind(leftover, fields);
      assert behind[..|behind| - 1] == FieldsBehind(leftover, init);
    }
  }

  // ----- which fields are key columns

  predicate IsKeyField(columns: seq<string>, name: string) {
    exists i | 0 <= i < |columns| :: SameName(columns[i], name)
  }

  /** The fields that are key columns, in the order of the result set. */
  function KeyFields(columns: seq<string>, fields: seq<Field>): seq<Field> {
    if fields == [] then []
    else
      var rest := KeyFields(columns, fields[..|fields| - 1]);
      if IsKeyField(columns, fields[|fields| - 1].name) then rest + [fields[|fields| - 1]] else rest
  }

  // ----- which fields are the table's columns

  function FieldNamed(fields: seq<Field>, name: string): Option<Field> {
    if fields == [] then None
    else if fields[0].name == name then Some(fields[0])
    else FieldNamed(fields[1..], name)
  }

  /** The field of every table column, or None when a column is inexact or missing. */
  function TableFields(table: seq<TableColumn>, fields: seq<Field>): Option<seq<Field>> {
    if table == [] then Some([])
    else
      var last := table[|table| - 1];
      var rest := TableFields(table[..|table| - 1], fields);
      if rest.None? || last.inexact then None
      else
        match FieldNamed(fields, last.name)
        case None => None
        case Some(f) => Some(rest.value + [f])
  }

  // ----- the text

  function Limit(irow: nat, arraySize: nat): string {
    if irow == 0 then " LIMIT " + Decimal(arraySize) else " LIMIT 1"
  }

  /** The last five characters are taken for a separator and cut off. */
  function Finished(text: string, irow: nat, arraySize: nat): string {
    (if |text| > 5 then text[..|text| - 5] else text) + Limit(irow, arraySize)
  }

  function Clause(str: string, fields: seq<Field>, irow: nat, arraySize: nat): string {
    str + " WHERE " + Join(Terms(fields), AND) + Limit(irow, arraySize)
  }

  lemma CutTail(open: string, middle: string, tail: string)
    ensures (open + (middle + tail))[..|open + (middle + tail)| - |tail|] == open + middle
  {
  }

  /** The first row asks for as many rows as the array holds, any other for one. */
  lemma LimitReadsBack(irow: nat, arraySize: nat)
    ensures var limit := Limit(irow, arraySize);
            && |limit| > 7 && limit[..7] == " LIMIT " && (forall c | c in limit[7..] :: IsDigit(c))
            && Value(limit[7..]) == if irow == 0 then arraySize else 1
  {
    DecimalRoundTrip(arraySize);
    DecimalRoundTrip(1);
    assert Decimal(1) == "1";
    assert Limit(irow, arraySize)[7..] == Decimal(if irow == 0 then arraySize else 1);
  }

  lemma FinishedClause(str: string, fields: seq<Field>, irow: nat, arraySize: nat)
    requires fields != []
    ensures Finished(Extended(str + " WHERE ", fields), irow, arraySize) == Clause(str, fields, irow, arraySize)
  {
    var open, joined := str + " WHERE ", Join(Terms(fields), AND);
    JoinedIsTerminatedWithoutTail(Terms(fields), AND);
    CutTail(open, joined, AND);
  }

  /** A table without columns is the one case in which the cut falls into the keyword. */
  lemma NoTermsCutTheKeyword(str: string, irow: nat, arraySize: nat)
    ensures Finished(Extended(str + " WHERE ", []), irow, arraySize) == str + " W" + Limit(irow, arraySize)
  {
    var text := str + " WHERE ";
    assert text + "" == text;
    assert " WHERE "[..2] == " W";
    assert text[..|text| - 5] == str + " WHERE "[..2];
  }

  /**
   Exactly when: behind text left in the buffer a clause reads as specified if and only if that text is empty or no
   value is a literal.
   */
  lemma ClauseAsSpecifiedExactlyWhen(str: string, leftover: string, fields: seq<Field>, irow: nat, arraySize: nat)
    requires Renders(fields) && fields != []
    ensures Clause(str, FieldsBehind(leftover, fields), irow, arraySize) == Clause(str, fields, irow, arraySize)
            <==> leftover == "" || !HasLiteral(fields)
  {
    var behind := FieldsBehind(leftover, fields);
    if leftover == "" || !HasLiteral(fields) {
      ReadAsTheyAre(leftover, fields);
    } else {
      LongerByLeftover(leftover, fields);
      SizeIsLength(behind);
      SizeIsLength(fields);
      JoinedIsTerminatedWithoutTail(Terms(behind), AND);
      JoinedIsTerminatedWithoutTail(Terms(fields), AND);
    }
  }

  lemma {:induction false} FieldIsFound(fields: seq<Field>, name: string)
    ensures FieldNamed(fields, name).Some? ==> FieldNamed(fields, name).value in fields
  {
    if fields != [] && fields[0].name != name {
      FieldIsFound(fields[1..], name);
    }
  }

  /** The k-th field is the first of a name. */
  ghost predicate IsFirstNamed(fields: seq<Field>, name: string, k: nat) {
    k < |fields| && fields[k].name == name && forall j | 0 <= j < k :: fields[j].name != name
  }

  lemma {:induction false} FieldHasName(fields: seq<Field>, name: string)
    ensures FieldNamed(fields, name).None? <==> forall f | f in fields :: f.name != name
    ensures FieldNamed(fields, name).Some? ==>
              exists k: nat :: IsFirstNamed(fields, name, k) && FieldNamed(fields, name).value == fields[k]
  {
    if fields != [] {
      if fields[0].name == name {
        assert IsFirstNamed(fields, name, 0);
      } else {
        FieldHasName(fields[1..], name);
        assert fields == [fields[0]] + fields[1..];
        if FieldNamed(fields[1..], name).Some? {
          var k: nat :| IsFirstNamed(fields[1..], name, k) && FieldNamed(fields[1..], name).value == fields[1..][k];
          assert IsFirstNamed(fields, name, k + 1);
        }
      }
    }
  }

  /** Without a key there is a field for every table column exactly when each is exact and named in the result set. */
  lemma {:induction false} TableFieldsExactlyWhen(table: seq<TableColumn>, fields: seq<Field>)
    ensures TableFields(table, fields).Some? <==>
              forall i | 0 <= i < |table| :: !table[i].inexact && FieldNamed(fields, table[i].name).Some?
    ensures TableFields(table, fields).Some? ==>
              && |TableFields(table, fields).value| == |table|
              && forall i | 0 <= i < |table| :: FieldNamed(fields, table[i].name) == Some(TableFields(table, fields).value[i])
  {
    if table != [] {
      TableFieldsExactlyWhen(table[..|table| - 1], fields);
    }
  }

  /** Then the i-th of them is the first field that bears the name of the i-th column. */
  lemma TableFieldsAreTheColumns(table: seq<TableColumn>, fields: seq<Field>, i: nat)
    requires i < |table|
    ensures TableFields(table, fields).Some? ==>
              && |TableFields(table, fields).value| == |table|
              && exists k: nat :: IsFirstNamed(fields, table[i].name, k) && TableFields(table, fields).value[i] == fields[k]
    ensures TableFields(table, fields).None? ==>
              exists j: nat :: j < |table| && (table[j].inexact || forall f | f in fields :: f.name != table[j].name)
  {
    TableFieldsExactlyWhen(table, fields);
    if TableFields(table, fields).Some? {
      FieldHasName(fields, table[i].name);
    } else {
      var j: nat :| j < |table| && (table[j].inexact || FieldNamed(fields, table[j].name).None?);
      FieldHasName(fields, table[j].name);
    }
  }

  lemma {:induction false} PrefixOfKeyFields(columns: seq<string>, fields: seq<Field>, n: nat)
    requires n <= |fields|
    ensures KeyFields(columns, fields[..n]) <= KeyFields(columns, fields)
    decreases |fields| - n
  {
    if n < |fields| {
      PrefixOfKeyFields(columns, fields, n + 1);
      assert fields[..n + 1][..n] == fields[..n];
    } else {
      assert fields[..n] == fields;
    }
  }

  /** What a key field that fails leaves in the buffer is what all of them leave. */
  lemma FailedKeyField(leftover: string, columns: seq<string>, fields: seq<Field>, n: nat, found: seq<Field>, f: Field)
    requires n <= |fields| && KeyFields(columns, fields[..n]) == found + [f] && f.cell.Failing?
    ensures !Renders(KeyFields(columns, fields))
    ensures Left(leftover, KeyFields(columns, fields)) == Left(leftover, found + [f])
  {
    var keys := KeyFields(columns, fields);
    PrefixOfKeyFields(columns, fields, n);
    RendersOneMore(found, f);
    assert keys[..|found| + 1] == found + [f];
    LeftOfPrefix(leftover, keys, |found| + 1);
  }

  lemma {:induction false} PrefixOfTable(table: seq<TableColumn>, fields: seq<Field>, n: nat)
    requires n <= |table|
    ensures TableFields(table, fields).Some? ==>
              TableFields(table[..n], fields).Some?
              && TableFields(table[..n], fields).value <= TableFields(table, fields).value
    decreases |table| - n
  {
    if n < |table| {
      PrefixOfTable(table, fields, n + 1);
      assert table[..n + 1][..n] == table[..n];
    } else {
      assert table[..n] == table;
    }
  }

  lemma FailedTableField(table: seq<TableColumn>, fields: seq<Field>, n: nat, found: seq<Field>, f: Field)
    requires n <= |table| && TableFields(table[..n], fields) == Some(found + [f]) && f.cell.Failing?
    ensures TableFields(table, fields).Some? ==> !Renders(TableFields(table, fields).value)
  {
    PrefixOfTable(table, fields, n);
    if TableFields(table, fields).Some? {
      var all := TableFields(table, fields).value;
      RendersOneMore(found, f);
      assert all[..|found| + 1] == found + [f];
      LeftOfPrefix("", all, |found| + 1);
    }
  }

  // ----- every key column once

  predicate Matches(columns: seq<string>, fields: seq<Field>, i: nat, k: nat)
    requires i < |columns| && k < |fields|
  {
    SameName(columns[i], fields[k].name)
  }

  ghost predicate Distinct(columns: seq<string>) {
    forall i, j | 0 <= i < j < |columns| :: !SameName(columns[i], columns[j])
  }

  ghost predicate Present(columns: seq<string>, fields: seq<Field>, i: nat)
    requires i < |columns|
  {
    exists k: nat :: k < |fields| && Matches(columns, fields, i, k)
  }

  ghost predicate Once(columns: seq<string>, fields: seq<Field>, i: nat)
    requires i < |columns|
  {
    && Present(columns, fields, i)
    && forall k: nat, m: nat
         | k < |fields| && m < |fields| && Matches(columns, fields, i, k) && Matches(columns, fields, i, m) :: k == m
  }

  ghost predicate AllPresent(columns: seq<string>, fields: seq<Field>) {
    forall i: nat | i < |columns| :: Present(columns, fields, i)
  }

  ghost predicate AllOnce(columns: seq<string>, fields: seq<Field>) {
    forall i: nat | i < |columns| :: Once(columns, fields, i)
  }

  /** The positions of the fields that are key columns. */
  ghost function Positions(columns: seq<string>, fields: seq<Field>): set<nat> {
    set k: nat | k < |fields| && IsKeyField(columns, fields[k].name)
  }

  lemma {:induction false} KeyFieldsCountPositions(columns: seq<string>, fields: seq<Field>)
    ensures |KeyFields(columns, fields)| == |Positions(columns, fields)|
  {
    if fields == [] {
      assert Positions(columns, fields) == {};
    } else {
      var init, n := fields[..|fields| - 1], |fields| - 1;
      KeyFieldsCountPositions(columns, init);
      var here := if IsKeyField(columns, fields[n].name) then {n} else {};
      assert Positions(columns, fields) == Positions(columns, init) + here;
      assert n !in Positions(columns, init);
    }
  }

  /** The positions lead to the chosen fields, in increasing order, and are exactly those of key columns. */
  ghost predicate AreKeyPositions(columns: seq<string>, fields: seq<Field>, chosen: seq<Field>, at: seq<nat>) {
    && |at| == |chosen|
    && (forall k | 0 <= k < |at| :: at[k] < |fields| && chosen[k] == fields[at[k]])
    && (forall j, k | 0 <= j < k < |at| :: at[j] < at[k])
    && (forall i: nat :: i in at <==> i < |fields| && IsKeyField(columns, fields[i].name))
  }

  /** The key fields are the fields that bear the name of a key column, each once, in the order of the result set. */
  lemma {:induction false} KeyFieldsInOrder(columns: seq<string>, fields: seq<Field>) returns (at: seq<nat>)
    ensures AreKeyPositions(columns, fields, KeyFields(columns, fields), at)
  {
    at := [];
    if fields != [] {
      var n := |fields| - 1;
      at := KeyFieldsInOrder(columns, fields[..n]);
      assert forall i | i in at :: i < n;
      if IsKeyField(columns, fields[n].name) {
        at := at + [n];
      }
    }
  }

  /** So a key column that one field matches has exactly one term in the clause, that of the field. */
  lemma OneTermEach(columns: seq<string>, fields: seq<Field>)
    requires AllOnce(columns, fields)
    ensures AllOnce(columns, KeyFields(columns, fields))
    ensures forall f | f in KeyFields(columns, fields) :: f in fields
  {
    var chosen := KeyFields(columns, fields);
    var at := KeyFieldsInOrder(columns, fields);
    forall i: nat | i < |columns|
      ensures Once(columns, chosen, i)
    {
      assert Once(columns, fields, i);
      var k: nat :| k < |fields| && Matches(columns, fields, i, k);
      assert SameName(columns[i], fields[k].name);
      assert k in at;
      var j: nat :| j < |at| && at[j] == k;
      assert Matches(columns, chosen, i, j);
      forall l: nat | l < |chosen| && Matches(columns, chosen, i, l)
        ensures l == j
      {
        assert Matches(columns, fields, i, at[l]);
      }
    }
  }

  /** A position of a key column. */
  ghost function Position(columns: seq<string>, fields: seq<Field>, i: nat): (k: nat)
    requires i < |columns| && Present(columns, fields, i)
    ensures k < |fields| && Matches(columns, fields, i, k)
  {
    var k: nat :| k < |fields| && Matches(columns, fields, i, k);
    k
  }

  /** The positions of the first n key columns. */
  ghost function Image(columns: seq<string>, fields: seq<Field>, n: nat): set<nat>
    requires n <= |columns| && AllPresent(columns, fields)
  {
    if n == 0 then {} else Image(columns, fields, n - 1) + {Position(columns, fields, n - 1)}
  }

  lemma {:induction false} ImageMember(columns: seq<string>, fields: seq<Field>, n: nat, k: nat) returns (i: nat)
    requires n <= |columns| && AllPresent(columns, fields) && k in Image(columns, fields, n)
    ensures i < n && Position(columns, fields, i) == k
  {
    i := n - 1;
    if k != Position(columns, fields, n - 1) {
      i := ImageMember(columns, fields, n - 1, k);
    }
  }

  lemma {:induction false} ImageHas(columns: seq<string>, fields: seq<Field>, n: nat, i: nat)
    requires i < n <= |columns| && AllPresent(columns, fields)
    ensures Position(columns, fields, i) in Image(columns, fields, n)
  {
    if i < n - 1 {
      ImageHas(columns, fields, n - 1, i);
    }
  }

  /** Columns that match one field have the same name. */
  lemma MatchingOneField(columns: seq<string>, fields: seq<Field>, i: nat, j: nat, k: nat)
    requires Distinct(columns) && i < |columns| && j < |columns| && k < |fields|
    requires Matches(columns, fields, i, k) && Matches(columns, fields, j, k)
    ensures i == j
  {
    assert SameName(columns[i], columns[j]) && SameName(columns[j], columns[i]);
  }

  lemma PositionIsNew(columns: seq<string>, fields: seq<Field>, n: nat)
    requires n < |columns| && Distinct(columns) && AllPresent(columns, fields)
    ensures Position(columns, fields, n) !in Image(columns, fields, n)
  {
    var k := Position(columns, fields, n);
    if k in Image(columns, fields, n) {
      var i := ImageMember(columns, fields, n, k);
      MatchingOneField(columns, fields, i, n, k);
    }
  }

  lemma PositionIsOfKeyField(columns: seq<string>, fields: seq<Field>, i: nat)
    requires i < |columns| && Present(columns, fields, i)
    ensures Position(columns, fields, i) in Positions(columns, fields)
  {
    assert SameName(columns[i], fields[Position(columns, fields, i)].name);
  }

  /** Different columns have different positions. */
  lemma {:induction false} ImageSize(columns: seq<string>, fields: seq<Field>, n: nat)
    requires n <= |columns| && Distinct(columns) && AllPresent(columns, fields)
    ensures |Image(columns, fields, n)| == n
  {
    if n > 0 {
      ImageSize(columns, fields, n - 1);
      PositionIsNew(columns, fields, n - 1);
    }
  }

  lemma {:induction false} ImageIsOfKeyFields(columns: seq<string>, fields: seq<Field>, n: nat)
    requires n <= |columns| && AllPresent(columns, fields)
    ensures Image(columns, fields, n) <= Positions(columns, fields)
  {
    if n > 0 {
      ImageIsOfKeyFields(columns, fields, n - 1);
      PositionIsOfKeyField(columns, fields, n - 1);
    }
  }

  lemma SameSize(small: set<nat>, large: set<nat>)
    requires small <= large && |small| == |large|
    ensures small == large
  {
    assert large == small + (large - small);
  }

  lemma OnceIsPresent(columns: seq<string>, fields: seq<Field>)
    ensures AllOnce(columns, fields) ==> AllPresent(columns, fields)
  {
    if AllOnce(columns, fields) {
      forall i: nat | i < |columns|
        ensures Present(columns, fields, i)
      {
        assert Once(columns, fields, i);
      }
    }
  }

  lemma OnlyPosition(columns: seq<string>, fields: seq<Field>, i: nat)
    requires Distinct(columns) && AllPresent(columns, fields) && i < |columns|
    requires Image(columns, fields, |columns|) == Positions(columns, fields)
    ensures Once(columns, fields, i)
  {
    forall k: nat | k < |fields| && Matches(columns, fields, i, k)
      ensures k == Position(columns, fields, i)
    {
      assert IsKeyField(columns, fields[k].name);
      var j := ImageMember(columns, fields, |columns|, k);
      MatchingOneField(columns, fields, i, j, k);
    }
  }

  lemma OnceIsInImage(columns: seq<string>, fields: seq<Field>)
    requires AllPresent(columns, fields) && AllOnce(columns, fields)
    ensures Positions(columns, fields) <= Image(columns, fields, |columns|)
  {
    forall k | k in Positions(columns, fields)
      ensures k in Image(columns, fields, |columns|)
    {
      var i :| 0 <= i < |columns| && SameName(columns[i], fields[k].name);
      assert Once(columns, fields, i) && Matches(columns, fields, i, k);
      ImageHas(columns, fields, |columns|, i);
    }
  }

  /**
   The count test forces a bijection: among pairwise different key columns, all present and as many key fields as key
   columns is the same as each key column matching exactly one field.
   */
  lemma CountForcesEachColumnOnce(columns: seq<string>, fields: seq<Field>)
    requires Distinct(columns)
    ensures AllPresent(columns, fields) && |KeyFields(columns, fields)| == |columns| <==> AllOnce(columns, fields)
  {
    KeyFieldsCountPositions(columns, fields);
    OnceIsPresent(columns, fields);
    if AllPresent(columns, fields) {
      ImageSize(columns, fields, |columns|);
      ImageIsOfKeyFields(columns, fields, |columns|);
      if |KeyFields(columns, fields)| == |columns| {
        SameSize(Image(columns, fields, |columns|), Positions(columns, fields));
        forall i: nat | i < |columns|
          ensures Once(columns, fields, i)
        {
          OnlyPosition(columns, fields, i);
        }
      }
      if AllOnce(columns, fields) {
        OnceIsInImage(columns, fields);
        assert Image(columns, fields, |columns|) == Positions(columns, fields);
      }
    }
  }

  /** The rows of SHOW KEYS list these keys, and the first usable one names no column twice. */
  ghost predicate Lists(rows: seq<KeyRow>, keys: seq<Key>, names: seq<string>) {
    && rows == AllRows(keys)
    && (forall key | key in keys :: WellFormed(key))
    && Distinct(FirstUsable(keys, names))
  }

  /**
   The column search and the clause together: with the columns the search found in this very result set, the count
   test of InsertPkFields passes exactly when every key column matches one field, and then it has one term in the clause.
   */
  lemma KeyClauseNamesEachColumnOnce(keys: seq<Key>, fields: seq<Field>)
    requires forall key | key in keys :: WellFormed(key)
    requires Distinct(FirstUsable(keys, Names(fields)))
    ensures var columns := Scan(AllRows(keys), Names(fields), [], 0);
            && (|KeyFields(columns, fields)| == |columns| <==> AllOnce(columns, fields))
            && (|KeyFields(columns, fields)| == |columns| ==> AllOnce(columns, KeyFields(columns, fields)))
  {
    var columns := FirstUsable(keys, Names(fields));
    ScanFindsFirstUsable(keys, Names(fields));
    FirstUsableIsPresent(keys, Names(fields));
    forall i: nat | i < |columns|
      ensures Present(columns, fields, i)
    {
      assert columns[i] in columns;
      var k :| 0 <= k < |fields| && SameName(columns[i], Names(fields)[k]);
      assert Matches(columns, fields, i, k);
    }
    CountForcesEachColumnOnce(columns, fields);
    if AllOnce(columns, fields) {
      OneTermEach(columns, fields);
    }
  }

  /**
   The count alone does not do it: when the stored key columns belong to another result set, two fields of one name
   make up for a key column that is missing.
   */
  lemma CountAloneIsNotEnough(columns: seq<string>, fields: seq<Field>)
    requires |columns| == |fields| == 2 && Distinct(columns)
    requires forall f | f in fields :: f.name == columns[0]
    ensures |KeyFields(columns, fields)| == |columns| && !Present(columns, fields, 1)
  {
    assert fields[0] in fields && fields[1] in fields;
    assert SameName(columns[0], fields[0].name) && SameName(columns[0], fields[1].name);
    assert IsKeyField(columns, fields[0].name) && IsKeyField(columns, fields[1].name);
    assert Positions(columns, fields) == {0, 1};
    KeyFieldsCountPositions(columns, fields);
    forall k: nat | k < |fields|
      ensures !Matches(columns, fields, 1, k)
    {
      assert fields[k] in fields;
      if SameName(columns[1], fields[k].name) {
        assert SameName(columns[0], columns[1]);
        assert false;
      }
    }
  }

  // ----- building the clause

  class Statement {
    const key: KeyCursor
    var buf: string  // the statement's text buffer; a failed operation leaves text in it

    constructor (key: KeyCursor)
      ensures this.key == key && buf == ""
    {
      this.key := key;
      buf := "";
    }

    /**
     Completes "`col`=" to a term and its separator. A literal travels through the statement's buffer behind whatever is
     there, and the buffer is emptied afterwards; for a null the trailing "=" is taken off again.
     */
    method InsertField(str: string, cell: Cell) returns (r: Option<string>)
      requires |str| > 0 && str[|str| - 1] == '='
      modifies this`buf
      ensures r.None? <==> cell.Failing?
      ensures buf == if cell.Failing? then old(buf) + cell.partial else if cell.Literal? then "" else old(buf)
      ensures r.Some? ==>
                r.value == str[..|str| - 1] + (if cell.Null? then " IS NULL" else "=" + (old(buf) + cell.text)) + AND
    {
      match cell {
        case Failing(partial) =>
          buf := buf + partial;
          return None;
        case Literal(text) =>
          ghost var before := buf;
          buf := buf + text;
          buf := buf + AND;
          assert str + buf == str[..|str| - 1] + ("=" + (before + text)) + AND;
          r := Some(str + buf);
          buf := "";
        case Null =>
          r := Some(str[..|str| - 1] + " IS NULL AND ");
          assert " IS NULL AND " == " IS NULL" + AND;
      }
    }

    /** Appends one whole term. */
    method AppendTerm(str: string, f: Field) returns (r: Option<string>)
      modifies this`buf
      ensures r.None? <==> f.cell.Failing?
      ensures buf == AfterCell(old(buf), f.cell)
      ensures r.Some? ==> r.value == str + (Term(f.name, Behind(old(buf), f).cell) + AND)
    {
      var open := str + Quoted(f.name) + "=";
      assert open[..|open| - 1] == str + Quoted(f.name);
      r := InsertField(open, f.cell);
    }

    /** The first key column of a name, or the number of key columns. */
    method FindKeyColumn(name: string) returns (index: nat)
      ensures index <= |key.columns|
      ensures index < |key.columns| <==> IsKeyField(key.columns, name)
    {
      index := 0;
      while index < |key.columns| && !SameName(key.columns[index], name)
        invariant 0 <= index <= |key.columns|
        invariant forall i | 0 <= i < index :: !SameName(key.columns[i], name)
      {
        index := index + 1;
      }
    }

    /**
     Key columns found in the result set, one term each; their number must be the number of key columns. They read as they
     do behind what is in the buffer, and what a failure leaves there stays.
     */
    method InsertPkFields(str: string, fields: seq<Field>) returns (r: Option<string>)
      modifies this`buf
      ensures r.Some? <==> Renders(KeyFields(key.columns, fields)) && |KeyFields(key.columns, fields)| == |key.columns|
      ensures r.Some? ==> r.value == Extended(str, FieldsBehind(old(buf), KeyFields(key.columns, fields)))
      ensures buf == Left(old(buf), KeyFields(key.columns, fields))
    {
      ghost var leftover := buf;
      var text, pkCount := str, 0;
      assert str + "" == str;
      var ncol := 0;
      while ncol < |fields|
        invariant 0 <= ncol <= |fields|
        invariant Renders(KeyFields(key.columns, fields[..ncol]))
        invariant pkCount == |KeyFields(key.columns, fields[..ncol])|
        invariant buf == Left(leftover, KeyFields(key.columns, fields[..ncol]))
        invariant text == Extended(str, FieldsBehind(leftover, KeyFields(key.columns, fields[..ncol])))
      {
        ghost var found := KeyFields(key.columns, fields[..ncol]);
        assert fields[..ncol + 1][..ncol] == fields[..ncol];
        var index := FindKeyColumn(fields[ncol].name);
        if index < |key.columns| {
          assert KeyFields(key.columns, fields[..ncol + 1]) == found + [fields[ncol]];
          OneMoreField(leftover, found, fields[ncol]);
          RendersOneMore(found, fields[ncol]);
          ExtendedByOne(str, FieldsBehind(leftover, found), Behind(buf, fields[ncol]));
          var longer := AppendTerm(text, fields[ncol]);
          if longer.None? {
            FailedKeyField(leftover, key.columns, fields, ncol + 1, found, fields[ncol]);
            return None;
          }
          text := longer.value;
          pkCount := pkCount + 1;
        }
        ncol := ncol + 1;
      }
      assert fields[..ncol] == fields;
      if pkCount != |key.columns| {
        return None;
      }
      r := Some(text);
    }

    /** The field of exactly a name. */
    method FindField(fields: seq<Field>, name: string) returns (f: Option<Field>)
      ensures f == FieldNamed(fields, name)
    {
      var j := 0;
      assert fields[0..] == fields;
      while j < |fields| && fields[j].name != name
        invariant 0 <= j <= |fields|
        invariant FieldNamed(fields, name) == FieldNamed(fields[j..], name)
      {
        j := j + 1;
      }
      return if j < |fields| then Some(fields[j]) else None;
    }

    /**
     Without a key: every column of the table, whose number must be that of the result set, none of them inexact, each
     with a field of exactly its name. The query for the table's columns empties the buffer first.
     */
    method AppendAllFields(str: string, table: Query<seq<TableColumn>>, fields: seq<Field>) returns (r: Option<string>)
      modifies this`buf
      ensures r.Some? <==>
                && table.Answered? && |table.value| == |fields|
                && TableFields(table.value, fields).Some? && Renders(TableFields(table.value, fields).value)
      ensures r.Some? ==> buf == "" && r.value == Extended(str, TableFields(table.value, fields).value)
      ensures table.NotSent? ==> buf == old(buf)
      ensures r.None? && !table.NotSent? ==> buf == "" || exists f :: f in fields && f.cell.Failing? && buf == f.cell.partial
    {
      if table.NotSent? {
        return None;
      }
      buf := "";
      if table.Failed? {
        return None;
      }
      var columns := table.value;
      if |columns| != |fields| {
        return None;
      }
      var text := str;
      assert str + "" == str;
      var i := 0;
      while i < |columns|
        invariant 0 <= i <= |columns| && buf == ""
        invariant TableFields(columns[..i], fields).Some?
        invariant Renders(TableFields(columns[..i], fields).value)
        invariant text == Extended(str, TableFields(columns[..i], fields).value)
      {
        ghost var found := TableFields(columns[..i], fields).value;
        assert columns[..i + 1][..i] == columns[..i];
        PrefixOfTable(columns, fields, i + 1);
        if columns[i].inexact {
          return None;
        }
        var field := FindField(fields, columns[i].name);
        if field.None? {
          return None;
        }
        assert TableFields(columns[..i + 1], fields) == Some(found + [field.value]);
        FieldIsFound(fields, columns[i].name);
        BehindNothing(field.value);
        RendersOneMore(found, field.value);
        var longer := AppendTerm(text, field.value);
        ExtendedByOne(str, found, field.value);
        if longer.None? {
          assert "" + field.value.cell.partial == field.value.cell.partial;
          FailedTableField(columns, fields, i + 1, found, field.value);
          return None;
        }
        text := longer.value;
        i := i + 1;
      }
      assert columns[..i] == columns;
      r := Some(text);
    }

    /** The fields a clause is made of: the key columns when a key is usable, all columns otherwise. */
    ghost function Chosen(table: Query<seq<TableColumn>>, fields: seq<Field>): Option<seq<Field>>
      reads key
    {
      if key.columns != [] then
        if |KeyFields(key.columns, fields)| == |key.columns| then Some(KeyFields(key.columns, fields)) else None
      else
        if table.Answered? && |table.value| == |fields| then TableFields(table.value, fields) else None
    }

    /**
     The whole clause: it is built exactly when the chosen fields are all there and all render, and then it is
     " WHERE ", their terms joined by " AND " with no separator left over, and the limit. The search for a key and the
     query for all columns empty the buffer; with a key found before there is no query, and the values read behind what
     is in the buffer. When the keys were searched for this clause and one is usable, each of its columns is matched by
     exactly one field of the result set, and exactly one term of the clause is that field's.
     */
    method BuildWhereClause(str: string, irow: nat, arraySize: nat, rows: Query<seq<KeyRow>>,
                            table: Query<seq<TableColumn>>, fields: seq<Field>)
      returns (r: Option<string>)
      requires key.Valid()
      modifies this, key
      ensures key.Valid()
      ensures r.Some? <==> Chosen(table, fields).Some? && Renders(Chosen(table, fields).value)
      ensures r.Some? && Chosen(table, fields).value != [] ==>
                r.value == Clause(str,
                                  if old(key.pkValidated && key.columns != []) then FieldsBehind(old(buf), Chosen(table, fields).value)
                                  else Chosen(table, fields).value, irow, arraySize)
      ensures r.Some? && Chosen(table, fields).value == [] ==> r.value == str + " W" + Limit(irow, arraySize)
      ensures old(key.pkValidated && key.columns != []) ==> buf == Left(old(buf), KeyFields(key.columns, fields))
      ensures !old(key.pkValidated) && key.columns != [] ==> buf == Left("", KeyFields(key.columns, fields))
      ensures key.pkValidated == (old(key.pkValidated) || rows.Answered?)
      ensures key.columns == if old(key.pkValidated) || !rows.Answered? then old(key.columns)
                             else Scan(rows.value, Names(fields), [], 0)
      ensures r.Some? && !old(key.pkValidated) && rows.Answered? && key.columns != [] ==>
                forall keys | Lists(rows.value, keys, Names(fields)) ::
                  && AllOnce(key.columns, fields) && AllOnce(key.columns, Chosen(table, fields).value)
                  && forall f | f in Chosen(table, fields).value :: f in fields
    {
      var clause := str + " WHERE ";
      if !key.pkValidated && !rows.NotSent? {
        buf := "";  // the query for the keys
      }
      ghost var leftover := buf;
      var usable := key.CheckIfUsableUniqueKeyExists(AsOption(rows), Names(fields));
      var built;
      if usable {
        built := InsertPkFields(clause, fields);
      } else {
        built := AppendAllFields(clause, table, fields);
      }
      if built.None? {
        return None;
      }
      ghost var chosen := Chosen(table, fields).value;
      r := Some(Finished(built.value, irow, arraySize));
      if chosen == [] {
        assert FieldsBehind(leftover, chosen) == [];
        NoTermsCutTheKeyword(str, irow, arraySize);
      } else if usable {
        FinishedClause(str, FieldsBehind(leftover, chosen), irow, arraySize);
        if leftover == "" {
          ReadAsTheyAre(leftover, chosen);
        }
      } else {
        FinishedClause(str, chosen, irow, arraySize);
      }
      forall keys | !old(key.pkValidated) && rows.Answered? && usable && Lists(rows.value, keys, Names(fields))
        ensures AllOnce(key.columns, fields) && AllOnce(key.columns, chosen) && forall f | f in chosen :: f in fields
      {
        KeyClauseNamesEachColumnOnce(keys, fields);
        OneTermEach(key.columns, fields);
      }
    }
  }

  /** A key field read with its digits behind those of an earlier attempt. */
  lemma RetriedFields(before: seq<Field>, after: seq<Field>)
    requires before == [Field("k", Failing("12"))] && after == [Field("k", Literal("7"))]
    ensures KeyFields(["k"], before) == before && KeyFields(["k"], after) == after && Renders(after)
    ensures Left("", before) == "12" && FieldsBehind("12", after) == [Field("k", Literal("127"))]
  {
    var none: seq<Field> := [];
    assert before[..0] == none && after[..0] == none;
    assert SameName(["k"][0], "k");
    assert IsKeyField(["k"], "k");
    assert "" + "12" == "12" && "12" + "7" == "127";
  }

  lemma RetriedKey(fields: seq<Field>)
    requires |fields| == 1 && fields[0].name == "k"
    ensures Scan([KeyRow(1, false, "k")], Names(fields), [], 0) == ["k"]
  {
    assert SameName("k", Names(fields)[0]) && HasField(Names(fields), "k");
  }

  lemma RetriedClause(str: string)
    ensures Clause(str, [Field("k", Literal("127"))], 1, 1) == str + " WHERE `k`=127 LIMIT 1"
  {
    var one := [Field("k", Literal("127"))];
    var none: seq<Field> := [];
    assert Term("k", Literal("127")) == "`k`=127";
    assert one[..0] == none && Terms(one[..0]) == [] && Terms(one) == ["`k`=127"];
    assert Limit(1, 1) == " LIMIT 1";
    assert str + " WHERE " + "`k`=127" + " LIMIT 1" == str + " WHERE `k`=127 LIMIT 1";
  }

  /**
   The retry: the value of a key column fails to render after two of its digits, and the clause is built again by the same
   statement. The digits turn up in the clause, which now means another row.
   */
  method RetryCarriesLeftover(str: string) returns (clause: Option<string>)
    ensures clause == Some(str + " WHERE `k`=127 LIMIT 1")
  {
    var key := new KeyCursor();
    var statement := new Statement(key);
    var before, after := [Field("k", Failing("12"))], [Field("k", Literal("7"))];
    RetriedFields(before, after);
    RetriedKey(before);
    RetriedClause(str);
    var rows := Answered([KeyRow(1, false, "k")]);
    clause := statement.BuildWhereClause(str, 1, 1, rows, NotSent, before);
    assert key.columns == ["k"] && statement.buf == "12";
    clause := statement.BuildWhereClause(str, 1, 1, NotSent, NotSent, after);
  }
}
