/** The `Processor` class of the expense tracker: an in-memory table of
    (name, amount) rows with append, case-insensitive remove, sum, and the
    load/save pair around an abstract data file. */
module Processor {
  import opened Wrappers
  import opened Subsequences

  /** One expense: the two-element list `[name, amount]` of the program.
      The float amount is modelled as an exact `real`. */
  datatype Row = Row(name: string, amount: real)

  /** ASCII lower-casing of one character. */
  function LowerChar(c: char): (r: char)
    ensures 'A' <= c <= 'Z' ==> 'a' <= r <= 'z' && r as int - c as int == 32
    ensures !('A' <= c <= 'Z') ==> r == c
  {
    if 'A' <= c <= 'Z' then (c as int + 32) as char else c
  }

  /** `str.lower()`, restricted to ASCII letters. */
  function Lower(s: string): string
    decreases |s|
  {
    if |s| == 0 then [] else [LowerChar(s[0])] + Lower(s[1..])
  }

  /** Lower-casing keeps the length and maps each character on its own. */
  lemma {:induction false} LowerSpec(s: string)
    ensures |Lower(s)| == |s|
    ensures forall k :: 0 <= k < |s| ==> Lower(s)[k] == LowerChar(s[k])
    decreases |s|
  {
    if |s| > 0 {
      LowerSpec(s[1..]);
    }
  }

  /** The removal test: both names lower-cased, then compared. */
  predicate Matches(row: Row, key: string) {
    Lower(row.name) == Lower(key)
  }

  /** No row of `rows` matches `key`. */
  predicate NoMatch(rows: seq<Row>, key: string) {
    forall k :: 0 <= k < |rows| ==> !Matches(rows[k], key)
  }

  // ---------------------------------------------------------------- append

  /** `add_data_to_list`: the row goes at the end, everything else stays. */
  function AddDataToList(name: string, amount: real, rows: seq<Row>): (r: seq<Row>)
    ensures |r| == |rows| + 1
    ensures r[..|rows|] == rows
    ensures r[|rows|] == Row(name, amount)
  {
    rows + [Row(name, amount)]
  }

  // ---------------------------------------------------------------- remove

  /** `list.index(x)`: the first position holding a row equal to `x` by value. */
  function FirstIndex(rows: seq<Row>, x: Row): (j: nat)
    requires x in rows
    ensures j < |rows| && rows[j] == x
    ensures forall k :: 0 <= k < j ==> rows[k] != x
  {
    if rows[0] == x then 0 else 1 + FirstIndex(rows[1..], x)
  }

  /** The evidently intended removal: keep exactly the rows that do not match. */
  function RemoveAll(rows: seq<Row>, key: string): (r: seq<Row>)
    ensures |r| <= |rows|
    ensures forall k :: 0 <= k < |r| ==> !Matches(r[k], key)
    decreases |rows|
  {
    if |rows| == 0 then []
    else if Matches(rows[0], key) then RemoveAll(rows[1..], key)
    else [rows[0]] + RemoveAll(rows[1..], key)
  }

  /** A row survives the intended removal iff it is in the table and does
      not match: no matching row is left behind. */
  lemma {:induction false} RemoveAllMembers(rows: seq<Row>, key: string, x: Row)
    ensures x in RemoveAll(rows, key) <==> x in rows && !Matches(x, key)
    decreases |rows|
  {
    if |rows| > 0 {
      RemoveAllMembers(rows[1..], key, x);
      assert x in rows <==> x == rows[0] || x in rows[1..];
    }
  }

  /** The intended removal keeps the surviving rows in their order. */
  lemma {:induction false} RemoveAllSubseq(rows: seq<Row>, key: string)
    ensures Subseq(RemoveAll(rows, key), rows)
    decreases |rows|
  {
    if |rows| > 0 {
      RemoveAllSubseq(rows[1..], key);
      if !Matches(rows[0], key) {
        assert ([rows[0]] + RemoveAll(rows[1..], key))[1..] == RemoveAll(rows[1..], key);
      }
    }
  }

  lemma {:induction false} RemoveAllAppend(a: seq<Row>, b: seq<Row>, key: string)
    ensures RemoveAll(a + b, key) == RemoveAll(a, key) + RemoveAll(b, key)
    decreases |a|
  {
    if |a| > 0 {
      assert (a + b)[1..] == a[1..] + b;
      RemoveAllAppend(a[1..], b, key);
    } else {
      assert a + b == b;
    }
  }

  /** Deleting a matching row does not change which non-matching rows remain. */
  lemma DeleteMatchKeepsOthers(rows: seq<Row>, j: nat, key: string)
    requires j < |rows| && Matches(rows[j], key)
    ensures RemoveAll(rows[..j] + rows[j + 1..], key) == RemoveAll(rows, key)
  {
    assert rows == rows[..j] + ([rows[j]] + rows[j + 1..]);
    RemoveAllAppend(rows[..j], [rows[j]] + rows[j + 1..], key);
    RemoveAllAppend([rows[j]], rows[j + 1..], key);
    RemoveAllAppend(rows[..j], rows[j + 1..], key);
    assert RemoveAll([rows[j]], key) == [];
  }

  /** The corrected removal changes nothing exactly when nothing matches. */
  lemma {:induction false} RemoveAllUnchangedIff(rows: seq<Row>, key: string)
    ensures RemoveAll(rows, key) == rows <==> NoMatch(rows, key)
    decreases |rows|
  {
    if |rows| > 0 {
      RemoveAllUnchangedIff(rows[1..], key);
      if !Matches(rows[0], key) {
        assert rows == [rows[0]] + rows[1..];
      }
    }
  }

  /** One pass of the `for` body of `remove_data_from_list` on the row at
      index `i`: when it matches, the first row equal to it by value is
      deleted. */
  function Advance(rows: seq<Row>, i: nat, key: string): (r: seq<Row>)
    requires i < |rows|
    ensures |rows| - 1 <= |r| <= |rows|
  {
    if Matches(rows[i], key) then
      var j := FirstIndex(rows, rows[i]);
      rows[..j] + rows[j + 1..]
    else
      rows
  }

  /** One pass removes at most a matching row: no row is added or moved,
      and the non-matching rows are the same before and after. */
  lemma AdvanceKeeps(rows: seq<Row>, i: nat, key: string)
    requires i < |rows|
    ensures Subseq(Advance(rows, i, key), rows)
    ensures multiset(Advance(rows, i, key)) <= multiset(rows)
    ensures RemoveAll(Advance(rows, i, key), key) == RemoveAll(rows, key)
  {
    if Matches(rows[i], key) {
      var j := FirstIndex(rows, rows[i]);
      assert rows == rows[..j] + [rows[j]] + rows[j + 1..];
      DeleteIsSubseq(rows, j);
      DeleteMatchKeepsOthers(rows, j, key);
    } else {
      SubseqRefl(rows);
    }
  }

  /** `remove_data_from_list` as written, from the iterator's position `i`
      onward. Python's list iterator reads `rows[i]` and advances `i`; after
      a deletion whatever shifted into the freed slot is not read at all. */
  function RemoveFrom(rows: seq<Row>, i: nat, key: string): seq<Row>
    decreases |rows| - i
  {
    if i >= |rows| then rows
    else RemoveFrom(Advance(rows, i, key), i + 1, key)
  }

  /** The as-written loop only ever deletes matching rows: its result is a
      sub-sequence of the table with the same non-matching rows. */
  lemma {:induction false} RemoveFromKeeps(rows: seq<Row>, i: nat, key: string)
    ensures Subseq(RemoveFrom(rows, i, key), rows)
    ensures multiset(RemoveFrom(rows, i, key)) <= multiset(rows)
    ensures RemoveAll(RemoveFrom(rows, i, key), key) == RemoveAll(rows, key)
    decreases |rows| - i
  {
    if i >= |rows| {
      SubseqRefl(rows);
    } else {
      var next := Advance(rows, i, key);
      RemoveFromKeeps(next, i + 1, key);
      AdvanceKeeps(rows, i, key);
      SubseqTrans(RemoveFrom(next, i + 1, key), next, rows);
    }
  }

  /** `remove_data_from_list(key, rows)`: the whole loop, from the start. */
  function RemoveRows(rows: seq<Row>, key: string): seq<Row>
  {
    RemoveFrom(rows, 0, key)
  }

  /** `r` is `rows` with one row deleted: the first row equal by value to
      `rows[i]`, which therefore sits at or before index `i`. */
  ghost predicate DeletesFirstCopyAtOrBefore(rows: seq<Row>, i: nat, r: seq<Row>)
    requires i < |rows|
  {
    exists j :: 0 <= j <= i && rows[j] == rows[i]
      && (forall k :: 0 <= k < j ==> rows[k] != rows[i])
      && r == rows[..j] + rows[j + 1..]
  }

  /** The body of the `for` loop in `remove_data_from_list` for the row at
      index `i`: when its lowered name matches the lowered key, delete the
      row at the position `list.index` finds for it. */
  method RemoveDataFromListVisit(name: string, rows: seq<Row>, i: nat) returns (r: seq<Row>)
    requires i < |rows|
    ensures !Matches(rows[i], name) ==> r == rows
    ensures Matches(rows[i], name) ==> DeletesFirstCopyAtOrBefore(rows, i, r)
    ensures r == Advance(rows, i, name)
  {
    var row := rows[i];
    r := rows;
    if Lower(row.name) == Lower(name) {
      var j := FirstIndex(rows, row);
      assert j <= i;
      r := rows[..j] + rows[j + 1..];
    }
  }

  /** The loop of `remove_data_from_list`: an index that advances by one on
      every pass while the body deletes from the same list. The invariants
      say which rows may vanish: no row is ever added, and the rows that do
      not match stay, in their order, so only matching rows can go. */
  method RemoveDataFromList(name: string, rows: seq<Row>) returns (r: seq<Row>)
    ensures r == RemoveRows(rows, name)
    ensures multiset(r) <= multiset(rows)
    ensures RemoveAll(r, name) == RemoveAll(rows, name)
  {
    r := rows;
    var i: nat := 0;
    while i < |r|
      invariant RemoveFrom(r, i, name) == RemoveRows(rows, name)
      invariant RemoveAll(r, name) == RemoveAll(rows, name)
      invariant multiset(r) <= multiset(rows)
      decreases |r| - i
    {
      AdvanceKeeps(r, i, name);
      r := RemoveDataFromListVisit(name, r, i);
      i := i + 1;
    }
  }

  /** Removal never adds or reorders rows, never grows the table, and every
      row whose lowered name differs from the key's survives. */
  lemma RemoveOnlyDropsMatches(rows: seq<Row>, key: string)
    ensures Subseq(RemoveRows(rows, key), rows)
    ensures |RemoveRows(rows, key)| <= |rows|
    ensures forall x :: x in rows && !Matches(x, key) ==> x in RemoveRows(rows, key)
    ensures forall x :: x in RemoveRows(rows, key) ==> x in rows
  {
    var r := RemoveRows(rows, key);
    RemoveFromKeeps(rows, 0, key);
    SubseqLength(r, rows);
    forall x | x in r
      ensures x in rows
    {
      SubseqMembers(r, rows, x);
    }
    forall x | x in rows && !Matches(x, key)
      ensures x in r
    {
      RemoveAllMembers(rows, key, x);
      RemoveAllMembers(r, key, x);
    }
  }

  lemma {:induction false} RemoveFromNoMatch(rows: seq<Row>, i: nat, key: string)
    requires forall k :: i <= k < |rows| ==> !Matches(rows[k], key)
    ensures RemoveFrom(rows, i, key) == rows
    decreases |rows| - i
  {
    if i < |rows| {
      RemoveFromNoMatch(rows, i + 1, key);
    }
  }

  /** Removing a name that no row matches returns the table unchanged. */
  lemma RemoveNoMatch(rows: seq<Row>, key: string)
    requires NoMatch(rows, key)
    ensures RemoveRows(rows, key) == rows
  {
    RemoveFromNoMatch(rows, 0, key);
  }

  /** Deleting the row at `k` keeps the rows before it in place and moves
      the rows after it down by one. */
  lemma DeleteShifts(rows: seq<Row>, k: nat, shorter: seq<Row>)
    requires k < |rows| && shorter == rows[..k] + rows[k + 1..]
    ensures |shorter| == |rows| - 1
    ensures forall m :: 0 <= m < k ==> shorter[m] == rows[m]
    ensures forall m :: k <= m < |shorter| ==> shorter[m] == rows[m + 1]
  {
  }

  /** After deleting the row at `j`, the row after position `c >= j` sits
      at `c`. */
  lemma DeleteShiftsAt(rows: seq<Row>, j: nat, c: nat, shorter: seq<Row>)
    requires j <= c && c + 1 < |rows| && shorter == rows[..j] + rows[j + 1..]
    ensures c < |shorter| && shorter[c] == rows[c + 1]
  {
    DeleteShifts(rows, j, shorter);
  }

  /** When the cursor reaches the only matching row, that row is the first
      of its value, so it is the one deleted; nothing after it matches. */
  lemma RemoveFromAtOnlyMatch(rows: seq<Row>, k: nat, key: string)
    requires k < |rows| && Matches(rows[k], key)
    requires forall m :: 0 <= m < |rows| && m != k ==> !Matches(rows[m], key)
    ensures RemoveFrom(rows, k, key) == rows[..k] + rows[k + 1..]
  {
    var shorter := rows[..k] + rows[k + 1..];
    assert FirstIndex(rows, rows[k]) == k by {
      assert Matches(rows[FirstIndex(rows, rows[k])], key);
    }
    assert RemoveFrom(rows, k, key) == RemoveFrom(shorter, k + 1, key);
    DeleteShifts(rows, k, shorter);
    RemoveFromNoMatch(shorter, k + 1, key);
  }

  lemma {:induction false} RemoveFromSingleMatch(rows: seq<Row>, i: nat, k: nat, key: string)
    requires i <= k < |rows| && Matches(rows[k], key)
    requires forall m :: 0 <= m < |rows| && m != k ==> !Matches(rows[m], key)
    ensures RemoveFrom(rows, i, key) == rows[..k] + rows[k + 1..]
    decreases |rows| - i
  {
    if i == k {
      RemoveFromAtOnlyMatch(rows, k, key);
    } else {
      assert !Matches(rows[i], key);
      RemoveFromSingleMatch(rows, i + 1, k, key);
    }
  }

  /** With exactly one matching row, removal deletes that row and nothing else. */
  lemma RemoveSingleMatch(rows: seq<Row>, k: nat, key: string)
    requires k < |rows| && Matches(rows[k], key)
    requires forall m :: 0 <= m < |rows| && m != k ==> !Matches(rows[m], key)
    ensures RemoveRows(rows, key) == rows[..k] + rows[k + 1..]
    ensures |RemoveRows(rows, key)| == |rows| - 1
  {
    RemoveFromSingleMatch(rows, 0, k, key);
  }

  /** With no matching row, the as-written removal and the intended one
      give the same table: the table itself. */
  lemma RemoveAgreesNoMatch(rows: seq<Row>, key: string)
    requires NoMatch(rows, key)
    ensures RemoveRows(rows, key) == RemoveAll(rows, key) == rows
  {
    RemoveNoMatch(rows, key);
    RemoveAllUnchangedIff(rows, key);
  }

  /** With exactly one matching row, the as-written removal and the intended
      one agree: the skipped row can only be a second match. */
  lemma RemoveAgreesSingleMatch(rows: seq<Row>, k: nat, key: string)
    requires k < |rows| && Matches(rows[k], key)
    requires forall m :: 0 <= m < |rows| && m != k ==> !Matches(rows[m], key)
    ensures RemoveRows(rows, key) == RemoveAll(rows, key)
  {
    var shorter := rows[..k] + rows[k + 1..];
    RemoveSingleMatch(rows, k, key);
    DeleteMatchKeepsOthers(rows, k, key);
    DeleteShifts(rows, k, shorter);
    RemoveAllUnchangedIff(shorter, key);
  }

  lemma {:induction false} RemoveFromCaseBlind(rows: seq<Row>, i: nat, key1: string, key2: string)
    requires Lower(key1) == Lower(key2)
    ensures RemoveFrom(rows, i, key1) == RemoveFrom(rows, i, key2)
    decreases |rows| - i
  {
    if i < |rows| {
      if Matches(rows[i], key1) {
        var j := FirstIndex(rows, rows[i]);
        RemoveFromCaseBlind(rows[..j] + rows[j + 1..], i + 1, key1, key2);
      } else {
        RemoveFromCaseBlind(rows, i + 1, key1, key2);
      }
    }
  }

  /** Removal sees the key only through its lower-cased form: two keys that
      differ only in the case of letters remove the same rows. */
  lemma RemoveCaseBlind(rows: seq<Row>, key1: string, key2: string)
    requires Lower(key1) == Lower(key2)
    ensures RemoveRows(rows, key1) == RemoveRows(rows, key2)
  {
    RemoveFromCaseBlind(rows, 0, key1, key2);
  }

  /** Matching ignores case on both sides: "COFFEE" removes a row named "Coffee". */
  lemma RemoveIgnoresCase(amount: real)
    ensures RemoveRows([Row("Coffee", amount)], "COFFEE") == []
  {
    assert Lower("Coffee") == "coffee";
    assert Lower("COFFEE") == "coffee";
    RemoveSingleMatch([Row("Coffee", amount)], 0, "COFFEE");
  }

  /** Of two matching rows, the second shifts into the slot of the first when
      that is deleted and is never examined: it survives, whereas the intended
      removal drops both. */
  lemma RemoveSkipsShiftedMatch(a: Row, b: Row, key: string)
    requires Matches(a, key) && Matches(b, key)
    ensures RemoveRows([a, b], key) == [b]
    ensures RemoveAll([a, b], key) == []
  {
    assert [a, b][1..] == [b];
    var rows := [a, b];
    assert FirstIndex(rows, rows[0]) == 0;
    assert rows[..0] + rows[1..] == [b];
    assert RemoveFrom(rows, 0, key) == RemoveFrom([b], 1, key);
  }

  /** Some copy of `b` sits before the cursor `c`: the loop has passed it. */
  ghost predicate Behind(t: seq<Row>, c: nat, b: Row) {
    exists m :: 0 <= m < c && m < |t| && t[m] == b
  }

  /** A row the cursor has passed is still behind the cursor after the next
      pass: a deletion at or before the cursor moves it down by one at most. */
  lemma AdvanceKeepsBehind(t: seq<Row>, c: nat, key: string, b: Row)
    requires c < |t| && Behind(t, c, b)
    ensures Behind(Advance(t, c, key), c + 1, b)
  {
    var m :| 0 <= m < c && m < |t| && t[m] == b;
    if Matches(t[c], key) {
      var j := FirstIndex(t, t[c]);
      assert j <= c;
      var shorter := t[..j] + t[j + 1..];
      DeleteShifts(t, j, shorter);
      if m < j {
        assert shorter[m] == b;
      } else if m > j {
        assert shorter[m - 1] == b;
      } else {
        assert shorter[c - 1] == t[c] == b;
      }
    }
  }

  /** Every row the cursor has passed survives the rest of the loop. */
  lemma {:induction false} BehindSurvives(t: seq<Row>, c: nat, key: string, b: Row)
    requires Behind(t, c, b)
    ensures b in RemoveFrom(t, c, key)
    decreases |t| - c
  {
    if c < |t| {
      AdvanceKeepsBehind(t, c, key, b);
      BehindSurvives(Advance(t, c, key), c + 1, key, b);
    } else {
      var m :| 0 <= m < c && m < |t| && t[m] == b;
    }
  }

  /** Once the cursor is at `c`, every row before it is in the final table. */
  lemma RemoveKeepsPassedRows(t: seq<Row>, c: nat, key: string)
    ensures forall m :: 0 <= m < c && m < |t| ==> t[m] in RemoveFrom(t, c, key)
  {
    forall m | 0 <= m < c && m < |t|
      ensures t[m] in RemoveFrom(t, c, key)
    {
      BehindSurvives(t, c, key, t[m]);
    }
  }

  /** From cursor `i`, rows that do not match are passed over unchanged. */
  lemma {:induction false} RemoveFromSkipsNoMatch(rows: seq<Row>, i: nat, n: nat, key: string)
    requires i <= n <= |rows|
    requires forall k :: i <= k < n ==> !Matches(rows[k], key)
    ensures RemoveFrom(rows, i, key) == RemoveFrom(rows, n, key)
    decreases n - i
  {
    if i < n {
      RemoveFromSkipsNoMatch(rows, i + 1, n, key);
    }
  }

  /** A pass at a matching row deletes a row at some position `j` at or
      before the cursor, and the loop goes on from the next cursor. */
  lemma AdvanceAtMatch(t: seq<Row>, c: nat, key: string) returns (j: nat)
    requires c < |t| && Matches(t[c], key)
    ensures j <= c
    ensures RemoveFrom(t, c, key) == RemoveFrom(t[..j] + t[j + 1..], c + 1, key)
  {
    j := FirstIndex(t, t[c]);
    assert j <= c;
    assert Advance(t, c, key) == t[..j] + t[j + 1..];
    RemoveFromStep(t, c, key);
  }

  /** One turn of the loop: a pass at the cursor, then the next cursor. */
  lemma RemoveFromStep(t: seq<Row>, c: nat, key: string)
    requires c < |t|
    ensures RemoveFrom(t, c, key) == RemoveFrom(Advance(t, c, key), c + 1, key)
  {
  }

  /** The skip at any deletion: when the row at the cursor matches, the row
      right after it shifts into the cursor's slot, is never examined, and
      survives. */
  lemma SkipAtAnyCursor(t: seq<Row>, c: nat, key: string)
    requires c + 1 < |t| && Matches(t[c], key)
    ensures t[c + 1] in RemoveFrom(t, c, key)
  {
    var j := AdvanceAtMatch(t, c, key);
    var shorter := t[..j] + t[j + 1..];
    DeleteShiftsAt(t, j, c, shorter);
    BehindSurvives(shorter, c + 1, key, t[c + 1]);
  }

  /** The skip in any table: when the first matching row `a` is deleted, the
      matching row `b` right after it shifts into the cursor's slot, is
      never examined, and survives, whatever follows. */
  lemma SkipGeneral(p: seq<Row>, a: Row, b: Row, s: seq<Row>, key: string)
    requires NoMatch(p, key) && Matches(a, key) && Matches(b, key)
    ensures b in RemoveRows(p + [a, b] + s, key)
  {
    var rows := p + [a, b] + s;
    var n := |p|;
    assert rows[n] == a && rows[n + 1] == b;
    assert forall k :: 0 <= k < n ==> rows[k] == p[k];
    RemoveFromSkipsNoMatch(rows, 0, n, key);
    var j := FirstIndex(rows, a);
    assert j == n;
    var t := rows[..n] + rows[n + 1..];
    DeleteShifts(rows, n, t);
    assert Advance(rows, n, key) == t;
    assert t[n] == b;
    BehindSurvives(t, n + 1, key, b);
  }

  /** Removing the name just added to a table that had no such name gives the
      table back. */
  lemma RemoveUndoesAdd(rows: seq<Row>, name: string, amount: real)
    requires NoMatch(rows, name)
    ensures RemoveRows(AddDataToList(name, amount, rows), name) == rows
  {
    var added := AddDataToList(name, amount, rows);
    RemoveSingleMatch(added, |rows|, name);
  }

  // ---------------------------------------------------------------- sum

  /** The total of the amounts. */
  function Sum(rows: seq<Row>): real
    decreases |rows|
  {
    if |rows| == 0 then 0.0 else rows[0].amount + Sum(rows[1..])
  }

  lemma {:induction false} SumAppend(a: seq<Row>, b: seq<Row>)
    ensures Sum(a + b) == Sum(a) + Sum(b)
    decreases |a|
  {
    if |a| == 0 {
      assert a + b == b;
    } else {
      assert (a + b)[1..] == a[1..] + b;
      SumAppend(a[1..], b);
    }
  }

  /** Adding `(name, amount)` raises the total by `amount`, whatever the name. */
  lemma SumAfterAdd(rows: seq<Row>, name: string, amount: real)
    ensures Sum(AddDataToList(name, amount, rows)) == Sum(rows) + amount
  {
    SumAppend(rows, [Row(name, amount)]);
  }

  /** `sum_expenses`: a running total from 0, left to right. */
  method SumExpenses(rows: seq<Row>) returns (total: real)
    ensures total == Sum(rows)
    ensures |rows| == 0 ==> total == 0.0
  {
    total := 0.0;
    var k := 0;
    while k < |rows|
      invariant 0 <= k <= |rows|
      invariant total == Sum(rows[..k])
    {
      assert rows[..k + 1] == rows[..k] + [rows[k]];
      SumAppend(rows[..k], [rows[k]]);
      total := total + rows[k].amount;
      k := k + 1;
    }
    assert rows[..k] == rows;
  }

  // ---------------------------------------------------------------- file

  /** The data file, with the pickle format abstracted away. */
  datatype Disk = Missing | Stored(rows: seq<Row>) | Unreadable

  /** Any failure other than a missing file: the program does not catch it. */
  datatype LoadError = Unhandled

  /** `load_data_from_file`: the table is cleared first, so a missing file
      yields an empty table whatever the table held before. */
  function LoadDataFromFile(disk: Disk, current: seq<Row>): (r: Result<seq<Row>, LoadError>)
    ensures disk.Missing? ==> r == Success([])
    ensures disk.Stored? ==> r == Success(disk.rows)
    ensures r.Failure? <==> disk.Unreadable?
  {
    match disk
    case Missing => Success([])
    case Stored(rows) => Success(rows)
    case Unreadable => Failure(Unhandled)
  }

  /** `pickle_data_to_file`: overwrite the file and return the table as is.
      Loading the written file gives back the same rows in the same order,
      whatever the previous file held. */
  function PickleDataToFile(disk: Disk, rows: seq<Row>): (r: (seq<Row>, Disk))
    ensures r.0 == rows
    ensures forall current :: LoadDataFromFile(r.1, current) == Success(rows)
  {
    (rows, Stored(rows))
  }
}
