/**
 Finding a unique key whose columns are all in a result set, by one pass over the rows SHOW KEYS returns: the rows of a
 key stand together and number its columns from 1.
 */
module UniqueKey {

  import opened Wrappers

  const MAX_PARTS := 32

  function Upper(c: char): char {
    if 'a' <= c <= 'z' then (c as int - 'a' as int + 'A' as int) as char else c
  }

  /** Names are compared without regard to case. */
  predicate SameName(a: string, b: string) {
    |a| == |b| && forall i | 0 <= i < |a| :: Upper(a[i]) == Upper(b[i])
  }

  /** Two names are the same when they have the same characters up to the case of letters, and nothing else counts. */
  lemma SameNameIgnoresOnlyCase(a: string, b: string)
    ensures SameName(a, b) <==>
            && |a| == |b|
            && forall i | 0 <= i < |a| ::
                 || a[i] == b[i]
                 || ('a' <= a[i] <= 'z' && a[i] as int - b[i] as int == 32)
                 || ('a' <= b[i] <= 'z' && b[i] as int - a[i] as int == 32)
  {
  }

  predicate HasField(fields: seq<string>, name: string) {
    exists k | 0 <= k < |fields| :: SameName(name, fields[k])
  }

  /** The loop behind HasField. */
  method HaveFieldInResult(name: string, fields: seq<string>) returns (r: bool)
    ensures r == HasField(fields, name)
  {
    var k := 0;
    while k < |fields|
      invariant 0 <= k <= |fields|
      invariant forall j | 0 <= j < k :: !SameName(name, fields[j])
    {
      if SameName(name, fields[k]) {
        return true;
      }
      k := k + 1;
    }
    return false;
  }

  // ----- what SHOW KEYS says

  datatype KeyRow = KeyRow(seqInIndex: int, nonUnique: bool, column: string)

  datatype Key = Key(unique: bool, columns: seq<string>)

  predicate WellFormed(key: Key) {
    1 <= |key.columns| <= MAX_PARTS
  }

  function RowsOf(key: Key): seq<KeyRow> {
    seq(|key.columns|, i requires 0 <= i < |key.columns| => KeyRow(i + 1, !key.unique, key.columns[i]))
  }

  function AllRows(keys: seq<Key>): seq<KeyRow> {
    if keys == [] then [] else RowsOf(keys[0]) + AllRows(keys[1..])
  }

  predicate Usable(key: Key, fields: seq<string>) {
    key.unique && forall c | c in key.columns :: HasField(fields, c)
  }

  /** The answer looked for: the columns of the first usable key, or none. */
  function FirstUsable(keys: seq<Key>, fields: seq<string>): seq<string> {
    if keys == [] then []
    else if Usable(keys[0], fields) then keys[0].columns
    else FirstUsable(keys[1..], fields)
  }

  /** The key is unique and each of its columns is in the result set. */
  ghost predicate LiesIn(key: Key, fields: seq<string>) {
    key.unique && forall c | c in key.columns :: exists k :: 0 <= k < |fields| && SameName(c, fields[k])
  }

  /** It is the first one: no key before it is unique and wholly in the result set. */
  lemma {:induction false} FirstUsableIsTheFirst(keys: seq<Key>, fields: seq<string>)
    ensures (forall k | 0 <= k < |keys| :: !LiesIn(keys[k], fields)) ==> FirstUsable(keys, fields) == []
    ensures forall k | 0 <= k < |keys| && LiesIn(keys[k], fields) && (forall j | 0 <= j < k :: !LiesIn(keys[j], fields)) ::
              FirstUsable(keys, fields) == keys[k].columns
  {
    if keys != [] {
      FirstUsableIsTheFirst(keys[1..], fields);
      assert Usable(keys[0], fields) <==> LiesIn(keys[0], fields);
      assert forall k | 0 < k < |keys| :: keys[k] == keys[1..][k - 1];
    }
  }

  // ----- the pass

  /** What the rest of the pass leaves stored, from the columns collected and the last number accepted. */
  function Scan(rows: seq<KeyRow>, fields: seq<string>, columns: seq<string>, last: int): seq<string> {
    if rows == [] || |columns| >= MAX_PARTS || rows[0].seqInIndex <= last then columns
    else if rows[0].nonUnique || rows[0].seqInIndex != last + 1 then Scan(rows[1..], fields, columns, last)
    else if HasField(fields, rows[0].column) then
      Scan(rows[1..], fields, columns + [rows[0].column], rows[0].seqInIndex)
    else Scan(rows[1..], fields, [], 0)
  }

  class KeyCursor {
    var pkValidated: bool
    var columns: seq<string>

    /** Nothing is stored before the search has run. */
    ghost predicate Valid()
      reads this
    {
      !pkValidated ==> columns == []
    }

    constructor ()
      ensures Valid() && !pkValidated
    {
      pkValidated := false;
      columns := [];
    }

    /** `rows` is the answer to SHOW KEYS, None when the query failed. A finished search is not repeated. */
    method CheckIfUsableUniqueKeyExists(rows: Option<seq<KeyRow>>, fields: seq<string>) returns (usable: bool)
      requires Valid()
      modifies this
      ensures Valid()
      ensures old(pkValidated) ==> unchanged(this) && usable == (columns != [])
      ensures !old(pkValidated) && rows.None? ==> !pkValidated && !usable
      ensures !old(pkValidated) && rows.Some? ==>
                pkValidated && columns == Scan(rows.value, fields, [], 0) && usable == (columns != [])
    {
      if pkValidated {
        return |columns| > 0;
      }
      if rows.None? {
        return false;
      }
      var seqInIndex := 0;
      var i := 0;
      while i < |rows.value| && |columns| < MAX_PARTS
        invariant 0 <= i <= |rows.value|
        invariant Scan(rows.value, fields, [], 0) == Scan(rows.value[i..], fields, columns, seqInIndex)
      {
        var row := rows.value[i];
        assert rows.value[i..][1..] == rows.value[i + 1..];
        if row.seqInIndex <= seqInIndex {
          break;
        }
        i := i + 1;
        if row.nonUnique {
          continue;
        }
        if row.seqInIndex != seqInIndex + 1 {
          continue;
        }
        var have := HaveFieldInResult(row.column, fields);
        if have {
          columns := columns + [row.column];
          seqInIndex := row.seqInIndex;
        } else {
          columns := [];
          seqInIndex := 0;
        }
      }
      pkValidated := true;
      return |columns| > 0;
    }
  }

  // ----- the pass computes the answer

  /** Rows that cannot continue anything are passed over: of a non-unique key, or past a column that was missed. */
  lemma {:induction false} SkipRows(key: Key, k: nat, rest: seq<KeyRow>, fields: seq<string>)
    requires k <= |key.columns| && (!key.unique || k >= 1)
    ensures Scan(RowsOf(key)[k..] + rest, fields, [], 0) == Scan(rest, fields, [], 0)
    decreases |key.columns| - k
  {
    var rows := RowsOf(key)[k..] + rest;
    if k == |key.columns| {
      assert rows == rest;
    } else {
      assert rows[0] == RowsOf(key)[k];
      assert rows[1..] == RowsOf(key)[k + 1..] + rest;
      SkipRows(key, k + 1, rest, fields);
    }
  }

  /** A unique key whose first k columns were found either completes or is dropped with all its rows. */
  lemma {:induction false} ScanUniqueKey(key: Key, k: nat, rest: seq<KeyRow>, fields: seq<string>)
    requires key.unique && WellFormed(key) && k <= |key.columns|
    requires forall j | 0 <= j < k :: HasField(fields, key.columns[j])
    requires rest != [] ==> rest[0].seqInIndex == 1
    ensures Scan(RowsOf(key)[k..] + rest, fields, key.columns[..k], k) ==
            if Usable(key, fields) then key.columns else Scan(rest, fields, [], 0)
    decreases |key.columns| - k
  {
    var rows := RowsOf(key)[k..] + rest;
    if k == |key.columns| {
      assert rows == rest && key.columns[..k] == key.columns;
    } else {
      assert rows[0] == RowsOf(key)[k];
      assert rows[1..] == RowsOf(key)[k + 1..] + rest;
      if HasField(fields, key.columns[k]) {
        assert key.columns[..k + 1] == key.columns[..k] + [key.columns[k]];
        ScanUniqueKey(key, k + 1, rest, fields);
      } else {
        assert key.columns[k] in key.columns;
        SkipRows(key, k + 1, rest, fields);
      }
    }
  }

  lemma FirstRowIsOne(keys: seq<Key>)
    requires forall key | key in keys :: WellFormed(key)
    ensures AllRows(keys) != [] ==> AllRows(keys)[0].seqInIndex == 1
  {
    if keys != [] {
      assert keys[0] in keys;
      assert AllRows(keys)[0] == RowsOf(keys[0])[0];
    }
  }

  /**
   The one pass finds the answer: for keys of at most 32 columns each, it stores exactly the columns of the first
   unique key that lies wholly in the result set, and nothing when there is no such key.
   */
  lemma {:induction false} ScanFindsFirstUsable(keys: seq<Key>, fields: seq<string>)
    requires forall key | key in keys :: WellFormed(key)
    ensures Scan(AllRows(keys), fields, [], 0) == FirstUsable(keys, fields)
  {
    if keys != [] {
      var key, rest := keys[0], AllRows(keys[1..]);
      assert key in keys && forall k | k in keys[1..] :: k in keys;
      ScanFindsFirstUsable(keys[1..], fields);
      assert RowsOf(key)[0..] == RowsOf(key) && key.columns[..0] == [];
      FirstRowIsOne(keys[1..]);
      if key.unique {
        ScanUniqueKey(key, 0, rest, fields);
      } else {
        SkipRows(key, 0, rest, fields);
      }
    }
  }

  /** Every stored column is in the result set. */
  lemma {:induction false} FirstUsableIsPresent(keys: seq<Key>, fields: seq<string>)
    ensures forall c | c in FirstUsable(keys, fields) :: HasField(fields, c)
  {
    if keys != [] && !Usable(keys[0], fields) {
      FirstUsableIsPresent(keys[1..], fields);
    }
  }
}
