/** The Store: the current database, the indexes kept per table and
    column, and the statements that read and change them. The disk is held
    in memory: the database directories, the three catalog ledgers
    (databases, tables, indexes), the table files and the index files, each
    file as its lines. */
module StoreDataManager {
  import opened Text
  import opened Rows
  import OrderBy
  import Where
  import opened Indexes
  import opened Tables

  /** OperationStatus, with Thrown for an exception that escapes the
      statement. */
  datatype Status = Success | Error | Thrown

  // ---------------------------------------------------------------------------
  // Catalog checks

  /** CreateDatabase's ledger check: some line, trimmed of white space,
      names the database in any case. */
  predicate NameInUse(ledger: seq<string>, name: string) {
    exists i :: 0 <= i < |ledger| && EqualsIgnoreCase(TrimWhiteSpace(ledger[i]), name)
  }

  /** CreateTable's ledger check: some line names the database in its first
      comma part and the table in its second, in any case. A line naming
      the database with no second part makes the lookup fail, which the
      statement reports as an error as well. */
  predicate TableListed(ledger: seq<string>, database: string, table: string) {
    exists i :: 0 <= i < |ledger| &&
      var parts := Split(ledger[i], ",");
      EqualsIgnoreCase(parts[0], database) && (|parts| < 2 || EqualsIgnoreCase(parts[1], table))
  }

  /** The schema lines CreateTable writes: "Name,Type" per column. */
  function SchemaLines(columns: seq<(string, string)>): (r: seq<string>)
    ensures |r| == |columns| && forall i :: 0 <= i < |columns| ==> r[i] == columns[i].0 + "," + columns[i].1
  {
    if columns == [] then [] else [columns[0].0 + "," + columns[0].1] + SchemaLines(columns[1..])
  }

  /** The lines of a ledger the writer loop copies back: those drop does
      not reject, in order. */
  function Remaining(lines: seq<string>, drop: string -> bool): (r: seq<string>)
    ensures |r| <= |lines|
    ensures forall x :: x in r <==> x in lines && !drop(x)
  {
    if lines == [] then []
    else
      var init := lines[..|lines| - 1];
      var last := lines[|lines| - 1];
      assert lines == init + [last];
      Remaining(init, drop) + (if drop(last) then [] else [last])
  }

  /** The writer loop that rewrites a ledger without the dropped lines. */
  method RewriteLedger(lines: seq<string>, drop: string -> bool) returns (r: seq<string>)
    ensures r == Remaining(lines, drop)
  {
    r := [];
    var i := 0;
    while i < |lines|
      invariant 0 <= i <= |lines|
      invariant r == Remaining(lines[..i], drop)
    {
      assert lines[..i + 1][..i] == lines[..i];
      if !drop(lines[i]) {
        r := r + [lines[i]];
      }
      i := i + 1;
    }
    assert lines[..i] == lines;
  }

  // ---------------------------------------------------------------------------
  // The back-fill of CreateTable

  /** The back-fill loop for one index over the lines after the first: the
      comma part at the column of each line long enough is inserted with
      the current row number unless the index already finds it, in which
      case the loop continues without counting the line. */
  function Backfilled(idx: Index, hash: string -> int, lines: seq<string>, column: nat, rowIndex: nat): (r: Index)
    requires IndexOk(idx)
    ensures IndexOk(r) && r.Multiway? == idx.Multiway?
    decreases |lines|
  {
    if lines == [] then idx
    else
      var values := Split(lines[0], ",");
      if column < |values| then
        if Search(idx, hash, values[column]) != -1 then Backfilled(idx, hash, lines[1..], column, rowIndex)
        else Backfilled(Insert(idx, hash, values[column], rowIndex), hash, lines[1..], column, rowIndex + 1)
      else Backfilled(idx, hash, lines[1..], column, rowIndex + 1)
  }

  /** After the back-fill every value read from the lines is found, and
      every key found before is still found. */
  lemma {:induction false} BackfillStores(idx: Index, hash: string -> int, lines: seq<string>, column: nat, rowIndex: nat)
    requires IndexOk(idx)
    ensures var r := Backfilled(idx, hash, lines, column, rowIndex);
            && (forall i :: 0 <= i < |lines| && column < |Split(lines[i], ",")| ==> Search(r, hash, Split(lines[i], ",")[column]) != -1)
            && (forall k :: Stored(idx, hash, k) ==> Stored(r, hash, k))
    decreases |lines|
  {
    if lines != [] {
      var values := Split(lines[0], ",");
      var next := if column < |values| && Search(idx, hash, values[column]) == -1 then Insert(idx, hash, values[column], rowIndex) else idx;
      var rowNext := if column < |values| && Search(idx, hash, values[column]) != -1 then rowIndex else rowIndex + 1;
      if column < |values| {
        SearchHits(idx, hash, values[column]);
        if Search(idx, hash, values[column]) == -1 {
          InsertStores(idx, hash, values[column], rowIndex);
          InsertKeeps(idx, hash, values[column], rowIndex);
        }
        assert Stored(next, hash, values[column]);
      }
      BackfillStores(next, hash, lines[1..], column, rowNext);
      var r := Backfilled(idx, hash, lines, column, rowIndex);
      assert r == Backfilled(next, hash, lines[1..], column, rowNext);
      forall i | 0 <= i < |lines| && column < |Split(lines[i], ",")|
        ensures Search(r, hash, Split(lines[i], ",")[column]) != -1
      {
        if i == 0 {
          SearchHits(r, hash, values[column]);
        } else {
          assert lines[1..][i - 1] == lines[i];
        }
      }
    }
  }

  /** The while loop of the back-fill. */
  method BackfillIndex(idx: Index, hash: string -> int, lines: seq<string>, column: nat) returns (r: Index)
    requires IndexOk(idx)
    ensures r == Backfilled(idx, hash, lines, column, 0)
  {
    r := idx;
    var rowIndex := 0;
    var k := 0;
    while k < |lines|
      invariant 0 <= k <= |lines| && IndexOk(r)
      invariant Backfilled(idx, hash, lines, column, 0) == Backfilled(r, hash, lines[k..], column, rowIndex)
    {
      assert lines[k..][1..] == lines[k + 1..];
      var values := Split(lines[k], ",");
      k := k + 1;
      if column < |values| {
        var value := values[column];
        if Search(r, hash, value) != -1 {
          continue;
        }
        r := Insert(r, hash, value, rowIndex);
      }
      rowIndex := rowIndex + 1;
    }
  }

  ghost predicate AllOk(indices: map<string, Index>) {
    forall c :: c in indices ==> IndexOk(indices[c])
  }

  /** Every index of the table back-filled from the new file: the column's
      position is looked up in the comma parts of the first line. */
  function Refilled(indices: map<string, Index>, hash: string -> int, lines: seq<string>): (r: map<string, Index>)
    requires AllOk(indices) && lines != []
    ensures r.Keys == indices.Keys && AllOk(r)
  {
    map c | c in indices :: RefilledOne(indices[c], hash, lines, c)
  }

  /** The back-fill of the index on column c. */
  function RefilledOne(idx: Index, hash: string -> int, lines: seq<string>, c: string): (r: Index)
    requires IndexOk(idx) && lines != []
    ensures IndexOk(r)
  {
    var column := IndexOf(Split(lines[0], ","), c);
    if column == -1 then idx else Backfilled(idx, hash, lines[1..], column, 0)
  }

  /** The foreach over the table's indexes in CreateTable. */
  method RefillAll(indices: map<string, Index>, hash: string -> int, lines: seq<string>) returns (r: map<string, Index>)
    requires AllOk(indices) && lines != []
    ensures r == Refilled(indices, hash, lines)
  {
    r := indices;
    var todo := indices.Keys;
    while todo != {}
      invariant todo <= indices.Keys && r.Keys == indices.Keys
      invariant forall c :: c in todo ==> r[c] == indices[c]
      invariant forall c :: c in indices && c !in todo ==> r[c] == RefilledOne(indices[c], hash, lines, c)
      decreases todo
    {
      var c :| c in todo;
      var idx := RefillColumn(indices[c], hash, lines, c);
      r := r[c := idx];
      todo := todo - {c};
    }
    RefilledByKeys(indices, hash, lines, r);
  }

  /** A map with the keys of indices that agrees with RefilledOne at every key is Refilled. */
  lemma {:induction false} RefilledByKeys(indices: map<string, Index>, hash: string -> int, lines: seq<string>, r: map<string, Index>)
    requires AllOk(indices) && lines != [] && r.Keys == indices.Keys
    requires forall c :: c in indices ==> r[c] == RefilledOne(indices[c], hash, lines, c)
    ensures r == Refilled(indices, hash, lines)
  {
  }

  /** The body of the foreach for the index on column c: its position in
      the first line, then the back-fill when it is found. */
  method RefillColumn(idx: Index, hash: string -> int, lines: seq<string>, c: string) returns (r: Index)
    requires IndexOk(idx) && lines != []
    ensures r == RefilledOne(idx, hash, lines, c)
  {
    r := idx;
    var column := IndexOf(Split(lines[0], ","), c);
    if column != -1 {
      r := BackfillIndex(idx, hash, lines[1..], column);
    }
  }

  // ---------------------------------------------------------------------------
  // The index checks and updates of InsertIntoTable

  /** Some index of the table finds the value at its column (read through
      the comma parts of the first line of the file). */
  predicate Duplicate(indices: map<string, Index>, hash: string -> int, headers: seq<string>, values: seq<string>)
    requires AllOk(indices)
  {
    exists c :: c in indices &&
      var column := IndexOf(headers, c);
      column != -1 && column < |values| && Search(indices[c], hash, values[column]) != -1
  }

  /** The duplicate check loop of InsertIntoTable. */
  method FindDuplicate(indices: map<string, Index>, hash: string -> int, headers: seq<string>, values: seq<string>) returns (found: bool)
    requires AllOk(indices)
    ensures found == Duplicate(indices, hash, headers, values)
  {
    var todo := indices.Keys;
    while todo != {}
      invariant todo <= indices.Keys
      invariant forall c :: c in indices && c !in todo ==>
                  var column := IndexOf(headers, c);
                  !(column != -1 && column < |values| && Search(indices[c], hash, values[column]) != -1)
      decreases todo
    {
      var c :| c in todo;
      var column := IndexOf(headers, c);
      if column != -1 && column < |values| {
        if Search(indices[c], hash, values[column]) != -1 {
          return true;
        }
      }
      todo := todo - {c};
    }
    return false;
  }

  /** Each index of the table after the new row: the value at its column
      inserted with the row's line number. */
  function Appended(indices: map<string, Index>, hash: string -> int, headers: seq<string>, values: seq<string>, rowIndex: nat): (r: map<string, Index>)
    requires AllOk(indices)
    ensures r.Keys == indices.Keys && AllOk(r)
  {
    map c | c in indices :: AppendedOne(indices[c], hash, headers, values, rowIndex, c)
  }

  /** The index on column c after the new row. */
  function AppendedOne(idx: Index, hash: string -> int, headers: seq<string>, values: seq<string>, rowIndex: nat, c: string): (r: Index)
    requires IndexOk(idx)
    ensures IndexOk(r)
  {
    var column := IndexOf(headers, c);
    if column != -1 && column < |values| then Insert(idx, hash, values[column], rowIndex) else idx
  }

  /** The index update loop of InsertIntoTable. */
  method AppendAll(indices: map<string, Index>, hash: string -> int, headers: seq<string>, values: seq<string>, rowIndex: nat) returns (r: map<string, Index>)
    requires AllOk(indices)
    ensures r == Appended(indices, hash, headers, values, rowIndex)
  {
    r := indices;
    var todo := indices.Keys;
    while todo != {}
      invariant todo <= indices.Keys && r.Keys == indices.Keys
      invariant forall c :: c in todo ==> r[c] == indices[c]
      invariant forall c :: c in indices && c !in todo ==> r[c] == AppendedOne(indices[c], hash, headers, values, rowIndex, c)
      decreases todo
    {
      var c :| c in todo;
      var idx := InsertColumn(indices[c], hash, headers, values, rowIndex, c);
      r := r[c := idx];
      todo := todo - {c};
    }
    AppendedByKeys(indices, hash, headers, values, rowIndex, r);
  }

  /** A map with the keys of indices that agrees with AppendedOne at every key is Appended. */
  lemma {:induction false} AppendedByKeys(indices: map<string, Index>, hash: string -> int, headers: seq<string>, values: seq<string>, rowIndex: nat, r: map<string, Index>)
    requires AllOk(indices) && r.Keys == indices.Keys
    requires forall c :: c in indices ==> r[c] == AppendedOne(indices[c], hash, headers, values, rowIndex, c)
    ensures r == Appended(indices, hash, headers, values, rowIndex)
  {
  }

  /** The body of the index update loop for the index on column c. */
  method InsertColumn(idx: Index, hash: string -> int, headers: seq<string>, values: seq<string>, rowIndex: nat, c: string) returns (r: Index)
    requires IndexOk(idx)
    ensures r == AppendedOne(idx, hash, headers, values, rowIndex, c)
  {
    r := idx;
    var column := IndexOf(headers, c);
    if column != -1 && column < |values| {
      r := Insert(idx, hash, values[column], rowIndex);
    }
  }

  /** A row once inserted is a duplicate of itself: inserting the same
      values again is rejected as soon as one index applies to them. */
  lemma {:induction false} InsertTwiceRejected(indices: map<string, Index>, hash: string -> int, headers: seq<string>, values: seq<string>, rowIndex: nat)
    requires AllOk(indices)
    requires exists c :: c in indices && 0 <= IndexOf(headers, c) < |values|
    ensures Duplicate(Appended(indices, hash, headers, values, rowIndex), hash, headers, values)
  {
    var c :| c in indices && 0 <= IndexOf(headers, c) < |values|;
    var column := IndexOf(headers, c);
    InsertThenSearch(indices[c], hash, values[column], rowIndex);
    assert Appended(indices, hash, headers, values, rowIndex)[c] == Insert(indices[c], hash, values[column], rowIndex);
  }

  // ---------------------------------------------------------------------------
  // The column read of CreateIndex

  /** The position of the first line whose first comma part is the column,
      or |lines|: where the header section of CreateIndex ends. */
  function HeaderHit(lines: seq<string>, column: string): (k: nat)
    ensures k <= |lines|
    ensures forall i :: 0 <= i < k ==> Split(lines[i], ",")[0] != column
    ensures k < |lines| ==> Split(lines[k], ",")[0] == column
  {
    if lines == [] || Split(lines[0], ",")[0] == column then 0 else 1 + HeaderHit(lines[1..], column)
  }

  /** The value CreateIndex reads from a data line: the column position it
      takes from the naming line is the place of the column name among that
      line's own comma parts, which is always 0, so it is the first ",,"
      field, double quotes trimmed. */
  function FirstValue(line: string): string {
    Trim(DecodeRow(line)[0], {'"'})
  }

  /** The values read from the data lines among lines, in order. */
  function FirstValues(lines: seq<string>): (r: seq<string>)
    ensures |r| <= |lines|
  {
    if lines == [] then []
    else
      var last := lines[|lines| - 1];
      FirstValues(lines[..|lines| - 1]) + (if IsRowLine(last) then [FirstValue(last)] else [])
  }

  /** No value occurs twice: each value is absent from those before it. */
  predicate NoRepeats(values: seq<string>) {
    values == [] || (NoRepeats(values[..|values| - 1]) && values[|values| - 1] !in values[..|values| - 1])
  }

  /** NoRepeats is pairwise distinctness. */
  lemma {:induction false} NoRepeatsPairwise(values: seq<string>)
    ensures NoRepeats(values) <==> forall i, j :: 0 <= i < j < |values| ==> values[i] != values[j]
  {
    if values != [] {
      var init, last := values[..|values| - 1], values[|values| - 1];
      NoRepeatsPairwise(init);
      if NoRepeats(values) {
        forall i, j | 0 <= i < j < |values|
          ensures values[i] != values[j]
        {
          if j < |values| - 1 {
            assert values[i] == init[i] && values[j] == init[j];
          } else {
            assert values[i] == init[i];
          }
        }
      }
    }
  }

  /** What the read of CreateIndex yields: the values of the data lines
      after the line naming the column; None when no line names it or when
      a value repeats. */
  function ColumnValues(lines: seq<string>, column: string): Option<seq<string>> {
    var h := HeaderHit(lines, column);
    if h == |lines| then None
    else
      var values := FirstValues(lines[h + 1..]);
      if NoRepeats(values) then Some(values) else None
  }

  lemma {:induction false} FirstValuesStep(init: seq<string>, line: string)
    ensures FirstValues(init + [line]) == FirstValues(init) + (if IsRowLine(line) then [FirstValue(line)] else [])
  {
    assert (init + [line])[..|init|] == init;
  }

  lemma {:induction false} FirstValuesAppend(a: seq<string>, b: seq<string>)
    ensures FirstValues(a + b) == FirstValues(a) + FirstValues(b)
    decreases |b|
  {
    if b == [] {
      assert a + b == a;
    } else {
      var init, last := b[..|b| - 1], b[|b| - 1];
      assert b == init + [last];
      FirstValuesAppend(a, init);
      FirstValuesAppendLast(a, init, last);
    }
  }

  /** The inductive step of FirstValuesAppend. */
  lemma {:induction false} FirstValuesAppendLast(a: seq<string>, init: seq<string>, last: string)
    requires FirstValues(a + init) == FirstValues(a) + FirstValues(init)
    ensures FirstValues(a + (init + [last])) == FirstValues(a) + FirstValues(init + [last])
  {
    var tail := if IsRowLine(last) then [FirstValue(last)] else [];
    assert a + (init + [last]) == (a + init) + [last];
    FirstValuesStep(a + init, last);
    FirstValuesStep(init, last);
    AppendAssociates(FirstValues(a), FirstValues(init), tail);
  }

  lemma {:induction false} AppendAssociates(x: seq<string>, y: seq<string>, z: seq<string>)
    ensures (x + y) + z == x + (y + z)
  {
  }

  /** One more line read after the naming line. */
  lemma {:induction false} ReadStep(lines: seq<string>, h: nat, i: nat)
    requires h < i < |lines|
    ensures FirstValues(lines[h + 1..i + 1]) == FirstValues(lines[h + 1..i]) + (if IsRowLine(lines[i]) then [FirstValue(lines[i])] else [])
  {
    assert lines[h + 1..i + 1] == lines[h + 1..i] + [lines[i]];
    FirstValuesStep(lines[h + 1..i], lines[i]);
  }

  /** A value read a second time makes the whole column repeat. */
  lemma {:induction false} RepeatRejected(lines: seq<string>, h: nat, i: nat)
    requires h < i < |lines| && IsRowLine(lines[i])
    requires FirstValue(lines[i]) in FirstValues(lines[h + 1..i])
    ensures !NoRepeats(FirstValues(lines[h + 1..]))
  {
    assert lines[h + 1..] == lines[h + 1..i] + [lines[i]] + lines[i + 1..];
    RepeatAt(lines[h + 1..i], lines[i], lines[i + 1..]);
  }

  /** A data line whose value was read before, wherever the rest goes. */
  lemma {:induction false} RepeatAt(read: seq<string>, line: string, rest: seq<string>)
    requires IsRowLine(line) && FirstValue(line) in FirstValues(read)
    ensures !NoRepeats(FirstValues(read + [line] + rest))
  {
    var x := FirstValue(line);
    assert FirstValues(read + [line]) == FirstValues(read) + [x] by { FirstValuesStep(read, line); }
    FirstValuesAppend(read + [line], rest);
    RepeatInPrefix(FirstValues(read), x, FirstValues(rest));
  }

  lemma {:induction false} RepeatInPrefix(before: seq<string>, x: string, after: seq<string>)
    requires x in before
    ensures !NoRepeats(before + [x] + after)
    decreases |after|
  {
    var all := before + [x] + after;
    if after == [] {
      assert all[..|all| - 1] == before && all[|all| - 1] == x;
    } else {
      var init := after[..|after| - 1];
      RepeatInPrefix(before, x, init);
      assert all[..|all| - 1] == before + [x] + init;
    }
  }

  /** The step of the read loop on a line after the naming line: a data
      line's value is added, or rejected when already read. */
  method TakeValue(line: string, columnValues: seq<string>) returns (next: Option<seq<string>>)
    requires NoRepeats(columnValues)
    ensures next.None? <==> IsRowLine(line) && FirstValue(line) in columnValues
    ensures next.Some? ==> next.value == columnValues + (if IsRowLine(line) then [FirstValue(line)] else [])
    ensures next.Some? ==> NoRepeats(next.value)
  {
    var columnIndex := 0;
    if IsRowLine(line) {
      var parts := DecodeRow(line);
      if columnIndex < |parts| {
        var value := Trim(parts[columnIndex], {'"'});
        if value in columnValues {
          return None;
        }
        assert (columnValues + [value])[..|columnValues|] == columnValues;
        return Some(columnValues + [value]);
      }
    }
    return Some(columnValues);
  }

  /** The read loop of CreateIndex, with its header flag. */
  method ReadColumn(lines: seq<string>, columnName: string) returns (r: Option<seq<string>>)
    ensures r == ColumnValues(lines, columnName)
  {
    ghost var h := HeaderHit(lines, columnName);
    var columnValues: seq<string> := [];
    var columnIndex := -1;
    var isHeaderSection := true;
    var i := 0;
    while i < |lines|
      invariant 0 <= i <= |lines|
      invariant isHeaderSection ==> i <= h && columnIndex == -1 && columnValues == []
      invariant !isHeaderSection ==> h < i && columnIndex == 0
      invariant !isHeaderSection ==> columnValues == FirstValues(lines[h + 1..i]) && NoRepeats(columnValues)
    {
      if isHeaderSection {
        var names, at := NamingLine(lines[i], columnName);
        if names {
          columnIndex := at;
          isHeaderSection := false;
          HeaderFound(lines, columnName, i);
          ReadStart(lines, i);
        }
      } else {
        var next := ReadValue(lines, h, i, columnValues);
        if next.None? {
          ColumnRepeats(lines, columnName);
          return None;
        }
        columnValues := next.value;
      }
      i := i + 1;
    }
    if columnIndex == -1 {
      return None;
    }
    assert lines[h + 1..i] == lines[h + 1..];
    ColumnRead(lines, columnName);
    return Some(columnValues);
  }

  /** The header test of the read loop: a line names the column when its
      first comma part is the column, and the position taken for the column
      is then that of the column among the line's own comma parts, which is
      0. */
  method NamingLine(line: string, columnName: string) returns (names: bool, columnIndex: int)
    ensures names <==> Split(line, ",")[0] == columnName
    ensures names ==> columnIndex == 0
  {
    var parts := Split(line, ",");
    names := parts[0] == columnName;
    columnIndex := -1;
    if names {
      columnIndex := IndexOf(parts, columnName);
    }
  }

  /** The first line naming the column, reached without passing one. */
  lemma {:induction false} HeaderFound(lines: seq<string>, column: string, i: nat)
    requires i <= HeaderHit(lines, column) && i < |lines| && Split(lines[i], ",")[0] == column
    ensures i == HeaderHit(lines, column)
  {
  }

  /** A column whose values repeat is rejected. */
  lemma {:induction false} ColumnRepeats(lines: seq<string>, column: string)
    requires HeaderHit(lines, column) < |lines| && !NoRepeats(FirstValues(lines[HeaderHit(lines, column) + 1..]))
    ensures ColumnValues(lines, column) == None
  {
  }

  /** A column read to the end without a repeat yields its values. */
  lemma {:induction false} ColumnRead(lines: seq<string>, column: string)
    requires HeaderHit(lines, column) < |lines| && NoRepeats(FirstValues(lines[HeaderHit(lines, column) + 1..]))
    ensures ColumnValues(lines, column) == Some(FirstValues(lines[HeaderHit(lines, column) + 1..]))
  {
  }

  /** Nothing is read yet right after the naming line. */
  lemma {:induction false} ReadStart(lines: seq<string>, i: nat)
    requires i < |lines|
    ensures FirstValues(lines[i + 1..i + 1]) == []
  {
    assert lines[i + 1..i + 1] == [];
  }

  /** The loop body on a line after the naming line h: TakeValue, which
      either rejects the column or extends the values read so far. */
  method ReadValue(lines: seq<string>, ghost h: nat, i: nat, columnValues: seq<string>) returns (next: Option<seq<string>>)
    requires h < i < |lines| && columnValues == FirstValues(lines[h + 1..i]) && NoRepeats(columnValues)
    ensures next.None? ==> !NoRepeats(FirstValues(lines[h + 1..]))
    ensures next.Some? ==> next.value == FirstValues(lines[h + 1..i + 1]) && NoRepeats(next.value)
  {
    next := TakeValue(lines[i], columnValues);
    ReadNext(lines, h, i, columnValues, next);
  }

  /** One step of the read loop after the naming line: a rejection means
      the column repeats, otherwise the values read so far extend by the
      line's. */
  lemma {:induction false} ReadNext(lines: seq<string>, h: nat, i: nat, columnValues: seq<string>, next: Option<seq<string>>)
    requires h < i < |lines| && columnValues == FirstValues(lines[h + 1..i])
    requires next.None? <==> IsRowLine(lines[i]) && FirstValue(lines[i]) in columnValues
    requires next.Some? ==> next.value == columnValues + (if IsRowLine(lines[i]) then [FirstValue(lines[i])] else [])
    ensures next.None? ==> !NoRepeats(FirstValues(lines[h + 1..]))
    ensures next.Some? ==> next.value == FirstValues(lines[h + 1..i + 1])
  {
    ReadStep(lines, h, i);
    if next.None? {
      RepeatRejected(lines, h, i);
    }
  }

  /** As written, indexing the second column of a table reads the first
      column's values: the column read for b is the one read for a. */
  lemma {:induction false} SecondColumnReadsFirst(first: string, second: string, rows: seq<string>, a: string, b: string)
    requires Split(first, ",")[0] == a && Split(second, ",")[0] == b && a != b && !IsRowLine(second)
    ensures ColumnValues([first, second] + rows, b) == ColumnValues([first, second] + rows, a)
  {
    var lines := [first, second] + rows;
    assert HeaderHit(lines, a) == 0;
    assert HeaderHit(lines[1..], b) == 0 by { assert lines[1..][0] == second; }
    assert HeaderHit(lines, b) == 1;
    assert lines[1..] == [second] + rows;
    assert lines[2..] == rows;
    FirstValuesAppend([second], rows);
    assert FirstValues([second]) == [] by { assert [second][..0] == []; }
    assert FirstValues(lines[1..]) == FirstValues(lines[2..]);
  }

  // ---------------------------------------------------------------------------
  // The read of CreateIndex at the column's own position, as evidently
  // intended

  /** The field at position k of a data line, double quotes trimmed. */
  function FieldValue(line: string, k: nat): string
    requires k < |DecodeRow(line)|
  {
    Trim(DecodeRow(line)[k], {'"'})
  }

  /** The fields at position k of the data lines that have one, in order. */
  function FieldValues(lines: seq<string>, k: nat): (r: seq<string>)
    ensures |r| <= |lines|
  {
    if lines == [] then []
    else
      var last := lines[|lines| - 1];
      FieldValues(lines[..|lines| - 1], k) + (if IsRowLine(last) && k < |DecodeRow(last)| then [FieldValue(last, k)] else [])
  }

  /** The read of CreateIndex with the column position it evidently means:
      the number of schema lines before the line naming the column. None
      when no line names it or a value repeats. */
  function ColumnValuesAt(lines: seq<string>, column: string): Option<seq<string>> {
    var h := HeaderHit(lines, column);
    if h == |lines| then None
    else
      var values := FieldValues(lines[h + 1..], h);
      if NoRepeats(values) then Some(values) else None
  }

  /** The read as written is the read at position 0. */
  lemma {:induction false} FirstValuesAtZero(lines: seq<string>)
    ensures FirstValues(lines) == FieldValues(lines, 0)
  {
    if lines != [] {
      FirstValuesAtZero(lines[..|lines| - 1]);
    }
  }

  /** Read at their own positions, the first column of a table gives the
      fields at position 0 and the second column those at position 1. */
  lemma {:induction false} SecondColumnReadsItsOwn(first: string, second: string, rows: seq<string>, a: string, b: string)
    requires Split(first, ",")[0] == a && Split(second, ",")[0] == b && a != b && !IsRowLine(second)
    ensures ColumnValuesAt([first, second] + rows, a) == if NoRepeats(FieldValues(rows, 0)) then Some(FieldValues(rows, 0)) else None
    ensures ColumnValuesAt([first, second] + rows, b) == if NoRepeats(FieldValues(rows, 1)) then Some(FieldValues(rows, 1)) else None
  {
    var lines := [first, second] + rows;
    assert HeaderHit(lines[1..], b) == 0 by { assert lines[1..][0] == second; }
    assert lines[1..] == [second] + rows;
    assert lines[2..] == rows;
    FieldValuesSkip(second, rows, 0);
  }

  /** A line that is not a data line adds nothing in front. */
  lemma {:induction false} FieldValuesSkip(line: string, rows: seq<string>, k: nat)
    requires !IsRowLine(line)
    ensures FieldValues([line] + rows, k) == FieldValues(rows, k)
    decreases |rows|
  {
    var xs := [line] + rows;
    if rows == [] {
      assert xs[..0] == [];
    } else {
      var init, last := rows[..|rows| - 1], rows[|rows| - 1];
      var tail := if IsRowLine(last) && k < |DecodeRow(last)| then [FieldValue(last, k)] else [];
      assert FieldValues(xs, k) == FieldValues([line] + init, k) + tail by {
        assert xs[..|xs| - 1] == [line] + init && xs[|xs| - 1] == last;
      }
      assert FieldValues([line] + init, k) == FieldValues(init, k) by {
        FieldValuesSkip(line, init, k);
      }
      assert FieldValues(rows, k) == FieldValues(init, k) + tail;
    }
  }

  // ---------------------------------------------------------------------------
  // Select

  /** The position of the first space, or |s|. */
  function SpaceAt(s: string): (k: nat)
    ensures k <= |s| && (k < |s| ==> s[k] == ' ')
    ensures forall i :: 0 <= i < k ==> s[i] != ' '
  {
    if s == [] || s[0] == ' ' then 0 else 1 + SpaceAt(s[1..])
  }

  /** string.Split(' ', 3): the text before the first space, the text
      between the first and the second space, and all the rest; fewer parts
      when there are fewer spaces. */
  function SplitThree(s: string): (r: seq<string>)
    ensures 1 <= |r| <= 3
  {
    var i := SpaceAt(s);
    if i == |s| then [s]
    else
      var rest := s[i + 1..];
      var j := SpaceAt(rest);
      if j == |rest| then [s[..i], rest]
      else [s[..i], rest[..j], rest[j + 1..]]
  }

  /** The parts join back, with spaces, into the text. */
  lemma {:induction false} SplitThreeJoin(s: string)
    ensures Join(SplitThree(s), " ") == s
  {
    var i := SpaceAt(s);
    if i < |s| {
      var rest := s[i + 1..];
      var j := SpaceAt(rest);
      assert s == s[..i] + " " + rest;
      if j < |rest| {
        assert rest == rest[..j] + " " + rest[j + 1..];
        assert Join([rest[..j], rest[j + 1..]], " ") == rest;
      }
    }
  }

  /** No part but the last holds a space, and the last holds one only when
      there are three parts. */
  lemma {:induction false} SplitThreeSpaces(s: string)
    ensures var r := SplitThree(s);
            && (forall k :: 0 <= k < |r| - 1 ==> ' ' !in r[k])
            && (|r| < 3 ==> ' ' !in r[|r| - 1])
  {
    var i := SpaceAt(s);
    if i < |s| {
      var rest := s[i + 1..];
      var j := SpaceAt(rest);
      assert ' ' !in s[..i];
      if j < |rest| {
        assert ' ' !in rest[..j];
      } else {
        assert ' ' !in rest;
      }
    } else {
      assert ' ' !in s;
    }
  }

  /** The WHERE clause of SELECT read as column, operation (upper case)
      and value when it splits into three parts; all empty otherwise. */
  function WhereParts(whereClause: string): (string, string, string) {
    if whereClause == "" then ("", "", "")
    else
      var parts := SplitThree(whereClause);
      if |parts| == 3 then (parts[0], Upper(parts[1]), parts[2]) else ("", "", "")
  }

  /** The operation read off the clause is a single word, so the index
      branch for "NOT LIKE" is never taken. */
  lemma {:induction false} NotLikeUnreachable(whereClause: string)
    ensures WhereParts(whereClause).1 != "NOT LIKE"
  {
    var parts := SplitThree(whereClause);
    SplitThreeSpaces(whereClause);
    if whereClause != "" && |parts| == 3 {
      var operation := parts[1];
      if |operation| == 8 {
        assert operation[3] in operation;
        assert Upper(operation)[3] != ' ';
        assert "NOT LIKE"[3] == ' ';
      }
    }
  }

  /** The position of the first space after a word without spaces. */
  lemma {:induction false} SpaceAtWord(x: string, y: string)
    requires ' ' !in x
    ensures SpaceAt(x + " " + y) == |x|
  {
    if x != [] {
      assert (x + " " + y)[1..] == x[1..] + " " + y;
      assert x[0] in x;
      SpaceAtWord(x[1..], y);
    }
  }

  /** A clause "column word rest" with no space in the column or the word
      reads as that column, the word upper-cased, and the rest. */
  lemma {:induction false} WherePartsOf(column: string, word: string, rest: string)
    requires ' ' !in column && ' ' !in word
    ensures WhereParts(column + " " + word + " " + rest) == (column, Upper(word), rest)
  {
    var tail := word + " " + rest;
    var s := column + " " + tail;
    assert column + " " + word + " " + rest == s;
    SpaceAtWord(column, tail);
    SpacedParts(column, tail);
    SpaceAtWord(word, rest);
    SpacedParts(word, rest);
    assert SpaceAt(s) == |column| < |s|;
    assert s[|column| + 1..] == tail;
    assert SpaceAt(tail) == |word| < |tail|;
    assert SplitThree(s) == [s[..|column|], tail[..|word|], tail[|word| + 1..]];
  }

  lemma {:induction false} SpacedParts(x: string, y: string)
    ensures (x + " " + y)[..|x|] == x && (x + " " + y)[|x| + 1..] == y
  {
  }

  /** As written, "column NOT LIKE pattern" reads as the operation "NOT",
      which the index does not serve. */
  lemma {:induction false} NotLikeReadsNot(column: string, pattern: string)
    requires ' ' !in column
    ensures WhereParts(column + " NOT LIKE " + pattern) == (column, "NOT", "LIKE " + pattern)
  {
    assert column + " NOT LIKE " + pattern == column + " " + "NOT" + " " + ("LIKE " + pattern);
    WherePartsOf(column, "NOT", "LIKE " + pattern);
    assert Upper("NOT") == "NOT";
  }

  /** The WHERE clause of SELECT read as evidently intended: a middle word
      "NOT" followed by "LIKE " is the two-word operation "NOT LIKE". */
  function WherePartsRead(whereClause: string): (r: (string, string, string))
    ensures WhereParts(whereClause).1 != "NOT" ==> r == WhereParts(whereClause)
  {
    var (column, operation, value) := WhereParts(whereClause);
    if operation == "NOT" && StartsWithIgnoreCase(value, "LIKE ") then (column, "NOT LIKE", value[5..])
    else (column, operation, value)
  }

  /** Read as intended, "column NOT LIKE pattern" gives the NOT LIKE
      operation on the pattern, which the index serves. */
  lemma {:induction false} NotLikeRead(column: string, pattern: string)
    requires ' ' !in column
    ensures WherePartsRead(column + " NOT LIKE " + pattern) == (column, "NOT LIKE", pattern)
  {
    NotLikeReadsNot(column, pattern);
    var value := "LIKE " + pattern;
    assert value[..5] == "LIKE ";
    assert Upper("LIKE ") == "LIKE ";
    assert value[5..] == pattern;
  }

  /** The row positions the index gives SELECT for an operation and value;
      None for an operation the index does not serve. */
  function IndexRows(idx: Index, hash: string -> int, operation: string, value: string): Option<seq<int>>
    requires IndexOk(idx)
  {
    if operation == "=" then Some([Search(idx, hash, value)])
    else if operation == "<" then Some(Range(idx, hash, Less, value))
    else if operation == ">" then Some(Range(idx, hash, Greater, value))
    else if operation == "<=" then Some(Range(idx, hash, LessOrEqual, value))
    else if operation == ">=" then Some(Range(idx, hash, GreaterOrEqual, value))
    else if operation == "LIKE" then Some(Like(idx, hash, value, true))
    else if operation == "NOT LIKE" then Some(Like(idx, hash, value, false))
    else None
  }

  /** The line the reader of SELECT holds after it is moved to a row
      position: the line there, or none past the end of the file; for a
      negative position nothing is read and the line held before stays. */
  function LineAt(lines: seq<string>, position: int, held: Option<string>): Option<string> {
    if position < 0 then held else if position < |lines| then Some(lines[position]) else None
  }

  /** The line the header loop of SELECT stops on: the first line starting
      with "(", or none. */
  function FirstRowLine(lines: seq<string>): Option<string> {
    if HeaderEnd(lines) < |lines| then Some(lines[HeaderEnd(lines)]) else None
  }

  /** The rows the index loop of SELECT yields after acc: for each position
      in turn, the line then held, projected, when it starts with "(". */
  function Fetched(lines: seq<string>, positions: seq<int>, held: Option<string>, columnIndices: seq<nat>, acc: seq<Row>): seq<Row>
    decreases |positions|
  {
    if positions == [] then acc
    else
      var line := LineAt(lines, positions[0], held);
      var next := if line.Some? && StartsWith(line.value, "(") then acc + [Project(DecodeRow(line.value), columnIndices)] else acc;
      Fetched(lines, positions[1..], line, columnIndices, next)
  }

  /** The reader moved to a row position: the file read from its start up
      to and including the line at that position. */
  method SeekLine(lines: seq<string>, rowIndex: int, held: Option<string>) returns (line: Option<string>)
    ensures line == LineAt(lines, rowIndex, held)
  {
    line := held;
    var i := 0;
    while i <= rowIndex
      invariant if rowIndex >= 0 then 0 <= i <= rowIndex + 1 else i == 0
      invariant i == 0 ==> line == held
      invariant i > 0 ==> line == if i - 1 < |lines| then Some(lines[i - 1]) else None
    {
      line := if i < |lines| then Some(lines[i]) else None;
      i := i + 1;
    }
  }

  /** The loop of SELECT over the positions the index gives. */
  method FetchRows(lines: seq<string>, positions: seq<int>, headers: seq<string>, columnIndices: seq<nat>) returns (results: seq<Row>)
    ensures results == Fetched(lines, positions, FirstRowLine(lines), columnIndices, [])
  {
    results := [];
    var line := FirstRowLine(lines);
    var k := 0;
    while k < |positions|
      invariant 0 <= k <= |positions|
      invariant Fetched(lines, positions, FirstRowLine(lines), columnIndices, []) == Fetched(lines, positions[k..], line, columnIndices, results)
    {
      assert positions[k..][1..] == positions[k + 1..];
      line := SeekLine(lines, positions[k], line);
      if line.Some? && StartsWith(line.value, "(") {
        var next := ProcessDataLine(line.value, headers, columnIndices, "", results);
        assert next.value == results + [Project(DecodeRow(line.value), columnIndices)];
        results := next.value;
      }
      k := k + 1;
    }
  }

  /** Every row the index loop yields beyond acc is the projection of a
      line of the file that starts with "(". */
  lemma {:induction false} FetchedSound(lines: seq<string>, positions: seq<int>, held: Option<string>, columnIndices: seq<nat>, acc: seq<Row>, row: Row)
    requires held.Some? ==> held.value in lines
    requires row in Fetched(lines, positions, held, columnIndices, acc)
    ensures row in acc || exists i :: 0 <= i < |lines| && StartsWith(lines[i], "(") && row == Project(DecodeRow(lines[i]), columnIndices)
    decreases |positions|
  {
    if positions != [] {
      var line := LineAt(lines, positions[0], held);
      var next := if line.Some? && StartsWith(line.value, "(") then acc + [Project(DecodeRow(line.value), columnIndices)] else acc;
      FetchedSound(lines, positions[1..], line, columnIndices, next, row);
      if row in next && row !in acc {
        var i :| 0 <= i < |lines| && lines[i] == line.value;
        assert row == Project(DecodeRow(lines[i]), columnIndices);
      }
    }
  }

  /** The positions of the requested columns among the headers; None when
      one of them is not a header. */
  function Positions(headers: seq<string>, columns: seq<string>): (r: Option<seq<nat>>)
    ensures r.None? <==> exists j :: 0 <= j < |columns| && columns[j] !in headers
    ensures r.Some? ==> |r.value| == |columns|
    ensures r.Some? ==> forall j :: 0 <= j < |columns| ==> r.value[j] < |headers| && headers[r.value[j]] == columns[j]
  {
    if columns == [] then Some([])
    else
      var init := columns[..|columns| - 1];
      var column := columns[|columns| - 1];
      assert forall j :: 0 <= j < |init| ==> init[j] == columns[j];
      match Positions(headers, init)
      case None => None
      case Some(found) =>
        var columnIndex := IndexOf(headers, column);
        if columnIndex == -1 then None else Some(found + [columnIndex])
  }

  /** The loop of SELECT that finds the requested columns. */
  method FindColumns(headers: seq<string>, columns: seq<string>) returns (r: Option<seq<nat>>)
    ensures r == Positions(headers, columns)
  {
    var columnIndices: seq<nat> := [];
    var k := 0;
    while k < |columns|
      invariant 0 <= k <= |columns|
      invariant Positions(headers, columns[..k]) == Some(columnIndices)
    {
      assert columns[..k + 1][..k] == columns[..k];
      var columnIndex := IndexOf(headers, columns[k]);
      if columnIndex == -1 {
        assert columns[..k + 1][k] == columns[k];
        assert Positions(headers, columns[..k + 1]).None?;
        assert columns[..k + 1] + columns[k + 1..] == columns;
        assert Positions(headers, columns).None?;
        return None;
      }
      columnIndices := columnIndices + [columnIndex];
      k := k + 1;
    }
    assert columns[..k] == columns;
    return Some(columnIndices);
  }

  /** A SELECT outcome: the status and the rows printed. */
  datatype Answer = Answer(status: Status, rows: seq<Row>)

  /** The rows SELECT prints, ordered when there is an ORDER BY clause. */
  function Ordered(results: seq<Row>, headers: seq<string>, orderByClause: string, selected: seq<string>): Answer {
    if orderByClause == "" then Answer(Success, results)
    else
      match OrderBy.ApplyOrderBy(results, headers, orderByClause, selected)
      case None => Answer(Thrown, [])
      case Some(rows) => Answer(Success, rows)
  }

  /** What SELECT answers on a table file, given the indexes kept for the
      table: a header line without a second part throws; an unknown column
      or an operation the index does not serve is an error; an indexed
      WHERE column reads the rows the index gives, any other clause is
      evaluated on every data line. */
  function Selection(indices: map<string, Index>, hash: string -> int, lines: seq<string>, columns: seq<string>, whereClause: string, orderByClause: string): Answer
    requires AllOk(indices)
  {
    var (column, operation, value) := WhereParts(whereClause);
    if exists i :: 0 <= i < HeaderEnd(lines) && Untyped(lines[i]) then Answer(Thrown, [])
    else
      var headers := Heads(lines[..HeaderEnd(lines)]);
      var selected := if columns == ["*"] then headers else columns;
      match Positions(headers, selected)
      case None => Answer(Error, [])
      case Some(columnIndices) =>
        if column in indices then
          match IndexRows(indices[column], hash, operation, value)
          case None => Answer(Error, [])
          case Some(positions) => Ordered(Fetched(lines, positions, FirstRowLine(lines), columnIndices, []), headers, orderByClause, selected)
        else
          match Selected(lines[HeaderEnd(lines)..], headers, columnIndices, whereClause)
          case None => Answer(Thrown, [])
          case Some(results) => Ordered(results, headers, orderByClause, selected)
  }

  /** A WHERE column with an index and an operation the index serves
      answers exactly the rows the index loop reads at the positions the
      index gives: the clause itself is never evaluated on them. */
  lemma {:induction false} SelectionIndexPath(indices: map<string, Index>, hash: string -> int, lines: seq<string>, columns: seq<string>,
                           whereClause: string, columnIndices: seq<nat>, positions: seq<int>)
    requires AllOk(indices)
    requires forall i :: 0 <= i < HeaderEnd(lines) ==> !Untyped(lines[i])
    requires var headers := Heads(lines[..HeaderEnd(lines)]);
             Positions(headers, if columns == ["*"] then headers else columns) == Some(columnIndices)
    requires var (column, operation, value) := WhereParts(whereClause);
             column in indices && IndexRows(indices[column], hash, operation, value) == Some(positions)
    ensures Selection(indices, hash, lines, columns, whereClause, "")
         == Answer(Success, Fetched(lines, positions, FirstRowLine(lines), columnIndices, []))
    ensures forall row :: row in Selection(indices, hash, lines, columns, whereClause, "").rows ==>
              exists i :: 0 <= i < |lines| && StartsWith(lines[i], "(") && row == Project(DecodeRow(lines[i]), columnIndices)
  {
    forall row | row in Fetched(lines, positions, FirstRowLine(lines), columnIndices, [])
      ensures exists i :: 0 <= i < |lines| && StartsWith(lines[i], "(") && row == Project(DecodeRow(lines[i]), columnIndices)
    {
      FetchedSound(lines, positions, FirstRowLine(lines), columnIndices, [], row);
    }
  }

  /** "=" on a value the index does not hold: Search gives -1, the reader
      is not moved, and the first data line, held since the header loop,
      is printed as the answer. */
  lemma {:induction false} EqualsMissPrintsFirstRow(indices: map<string, Index>, hash: string -> int, lines: seq<string>, columns: seq<string>,
                                 whereClause: string, columnIndices: seq<nat>)
    requires AllOk(indices)
    requires forall i :: 0 <= i < HeaderEnd(lines) ==> !Untyped(lines[i])
    requires var headers := Heads(lines[..HeaderEnd(lines)]);
             Positions(headers, if columns == ["*"] then headers else columns) == Some(columnIndices)
    requires var (column, operation, value) := WhereParts(whereClause);
             column in indices && operation == "=" && !Stored(indices[column], hash, value)
    requires HeaderEnd(lines) < |lines|
    ensures Selection(indices, hash, lines, columns, whereClause, "")
         == Answer(Success, [Project(DecodeRow(lines[HeaderEnd(lines)]), columnIndices)])
  {
    var (column, operation, value) := WhereParts(whereClause);
    SearchHits(indices[column], hash, value);
    SelectionIndexPath(indices, hash, lines, columns, whereClause, columnIndices, [-1]);
  }

  /** The two orders the index path and the scan path apply disagree: a
      tree index orders the key "10" below "9" as text, so the index path
      answers the row for "x < 9", which the scan's numeric comparison
      rejects. */
  lemma {:induction false} IndexOrderDisagrees()
    ensures Compare("10", "9") < 0
    ensures !Where.Compared(Less, "10", "9")
  {
    ParseDoubleSamples();
  }

  // ---------------------------------------------------------------------------
  // The index path as evidently intended

  /** The index loop of SELECT with the two checks the scan path makes: a
      position outside the file (Search's -1 for a value the index lacks)
      reads no line, and a data line read is kept only when the WHERE
      clause holds for it. None where the clause fails on a line. */
  function Checked(lines: seq<string>, positions: seq<int>, headers: seq<string>, columnIndices: seq<nat>,
                   whereClause: string, acc: seq<Row>): Option<seq<Row>>
    decreases |positions|
  {
    if positions == [] then Some(acc)
    else
      var p := positions[0];
      if 0 <= p < |lines| && StartsWith(lines[p], "(") then
        match ProcessDataLine(lines[p], headers, columnIndices, whereClause, acc)
        case None => None
        case Some(next) => Checked(lines, positions[1..], headers, columnIndices, whereClause, next)
      else Checked(lines, positions[1..], headers, columnIndices, whereClause, acc)
  }

  /** The row is the projection of the data line at position p, and the
      clause holds for that line. */
  predicate Admitted(lines: seq<string>, p: int, headers: seq<string>, columnIndices: seq<nat>, whereClause: string, row: Row) {
    && 0 <= p < |lines| && StartsWith(lines[p], "(")
    && Where.EvaluateWhereClause(headers, DecodeRow(lines[p]), whereClause) == Some(true)
    && row == Project(DecodeRow(lines[p]), columnIndices)
  }

  /** Every row the corrected loop yields beyond acc is the projection of a
      data line, at one of the positions, that the clause holds for. */
  lemma {:induction false} CheckedSound(lines: seq<string>, positions: seq<int>, headers: seq<string>, columnIndices: seq<nat>,
                                        whereClause: string, acc: seq<Row>, row: Row)
    requires Checked(lines, positions, headers, columnIndices, whereClause, acc).Some?
    requires row in Checked(lines, positions, headers, columnIndices, whereClause, acc).value
    ensures row in acc || exists k :: 0 <= k < |positions| && Admitted(lines, positions[k], headers, columnIndices, whereClause, row)
    decreases |positions|
  {
    if positions == [] {
      return;
    }
    var p := positions[0];
    var next := acc;
    if 0 <= p < |lines| && StartsWith(lines[p], "(") {
      next := ProcessDataLine(lines[p], headers, columnIndices, whereClause, acc).value;
    }
    CheckedSound(lines, positions[1..], headers, columnIndices, whereClause, next, row);
    if row !in next {
      var k :| 0 <= k < |positions[1..]| && Admitted(lines, positions[1..][k], headers, columnIndices, whereClause, row);
      assert positions[1..][k] == positions[k + 1];
    } else if row !in acc {
      assert Admitted(lines, positions[0], headers, columnIndices, whereClause, row);
    }
  }

  /** A value the index lacks gives no row. */
  lemma {:induction false} CheckedMiss(lines: seq<string>, positions: seq<int>, headers: seq<string>, columnIndices: seq<nat>,
                                       whereClause: string, acc: seq<Row>)
    requires forall k :: 0 <= k < |positions| ==> positions[k] < 0
    ensures Checked(lines, positions, headers, columnIndices, whereClause, acc) == Some(acc)
    decreases |positions|
  {
    if positions != [] {
      CheckedMiss(lines, positions[1..], headers, columnIndices, whereClause, acc);
    }
  }

  // ---------------------------------------------------------------------------
  // UpdateTable and Delete

  /** What UPDATE or DELETE does to a table: the status, the table file
      when it is written, and the index file content when one is written. */
  datatype Outcome = Outcome(status: Status, table: Option<seq<string>>, index: Option<seq<string>>)

  /** Where UPDATE and DELETE take the data to start: at the first line
      that is not a schema line, or at 0 when every line is one. */
  function DataStart(lines: seq<string>): (r: nat)
    ensures r <= |lines|
  {
    if FirstData(lines) < |lines| then FirstData(lines) else 0
  }

  /** The index file UpdateIndex writes for the lines; None where it
      fails on a data line too short. */
  function Regrouped(lines: seq<string>, dataStart: nat): Option<seq<string>>
    requires dataStart <= |lines|
  {
    match Grouped(lines, dataStart, dataStart, |lines|)
    case None => None
    case Some(g) => Some(IndexFileLines(g.keys, g.positions))
  }

  /** In a table file whose data lines hold one field per schema line, a
      data line has exactly dataStart fields, so the field UpdateIndex keys
      on lies past its end and the rebuild fails. */
  lemma {:induction false} RegroupedFailsOnFullRow(lines: seq<string>, dataStart: nat, i: nat)
    requires dataStart <= i < |lines| && IsRowLine(lines[i]) && |Fields(lines[i])| == dataStart
    ensures Regrouped(lines, dataStart) == None
  {
    assert Short(lines[i], dataStart);
  }

  /** The index file UpdateIndex evidently means to write: every data line
      from dataStart on listed under its field at the position of the
      indexed column. */
  function RegroupedAt(lines: seq<string>, dataStart: nat, column: nat): Option<seq<string>>
    requires dataStart <= |lines|
  {
    match Grouped(lines, dataStart, column, |lines|)
    case None => None
    case Some(g) => Some(IndexFileLines(g.keys, g.positions))
  }

  /** When every data line has a field at the column and no such field
      holds ':', the file is written and reads back as an index of the
      column: each value lists exactly the data lines holding it there. */
  lemma {:induction false} RegroupedAtIndexesColumn(lines: seq<string>, dataStart: nat, column: nat)
    requires dataStart <= |lines|
    requires forall i :: dataStart <= i < |lines| && IsRowLine(lines[i]) ==> column < |Fields(lines[i])| && ':' !in Fields(lines[i])[column]
    ensures RegroupedAt(lines, dataStart, column).Some?
    ensures var m := Loaded(RegroupedAt(lines, dataStart, column).value);
            && m.Some?
            && (forall k, i :: dataStart <= i < |lines| && KeyAt(lines, i, column, k) ==> k in m.value && i in m.value[k])
            && (forall k, p :: k in m.value && p in m.value[k] ==> dataStart <= p < |lines| && KeyAt(lines, p, column, k))
  {
    var g := Grouped(lines, dataStart, column, |lines|);
    assert g.Some?;
    GroupedSound(lines, dataStart, column, |lines|);
    GroupedComplete(lines, dataStart, column, |lines|);
    IndexFileRoundTrip(lines, dataStart, column);
    var m := g.value.positions;
    forall k, p | k in m && p in m[k]
      ensures dataStart <= p < |lines| && KeyAt(lines, p, column, k)
    {
      var a :| 0 <= a < |m[k]| && m[k][a] == p;
    }
  }

  /** UPDATE on a table file, given the table's index files by column: the
      condition split at '='; an unknown column is an error; with an index
      file for the column, the rows it lists for the value are rewritten
      (a value it does not list is an error) and, when the column is itself
      set, its index file is rebuilt; otherwise every data line is
      scanned, and no matching line is an error. */
  function Updated(lines: seq<string>, files: map<string, seq<string>>, sets: Assignment, whereCondition: string): (r: Outcome)
    ensures r.status == Success ==> r.table.Some?
    ensures r.index.Some? ==> r.status == Success && ParseEquality(whereCondition).Some?
  {
    var dataStart := DataStart(lines);
    var names := Heads(lines[..FirstData(lines)]);
    match ParseEquality(whereCondition)
    case None => Outcome(Thrown, None, None)
    case Some((whereColumn, whereValue)) =>
      var columnIndex := IndexOf(names, whereColumn);
      if columnIndex == -1 then Outcome(Error, None, None)
      else if whereColumn in files then
        match Loaded(files[whereColumn])
        case None => Outcome(Thrown, None, None)
        case Some(index) =>
          if whereValue !in index then Outcome(Error, None, None)
          else
            match AtPositions(lines, index[whereValue], dataStart, sets, names)
            case None => Outcome(Thrown, None, None)
            case Some(newLines) =>
              if !exists k :: 0 <= k < |sets| && sets[k].0 == whereColumn then Outcome(Success, Some(newLines), None)
              else
                match Regrouped(newLines, dataStart)
                case None => Outcome(Thrown, Some(newLines), None)
                case Some(indexLines) => Outcome(Success, Some(newLines), Some(indexLines))
      else
        match ScanUpdated(lines, dataStart, columnIndex, whereValue, sets, names)
        case None => Outcome(Thrown, None, None)
        case Some(newLines) =>
          if exists i :: dataStart <= i < |lines| && Matches(lines[i], columnIndex, whereValue) then Outcome(Success, Some(newLines), None)
          else Outcome(Error, None, None)
  }

  /** The lines the scan of DELETE leaves: those before the data start,
      then the data lines kept; None where a data line is too short. */
  function ScanDeleted(lines: seq<string>, dataStart: nat, column: nat, value: string): (r: Option<seq<string>>)
    requires dataStart <= |lines|
    ensures r.Some? ==> dataStart <= |r.value| <= |lines| && r.value[..dataStart] == lines[..dataStart]
  {
    match Kept(lines[dataStart..], column, value)
    case None => None
    case Some(kept) => Some(lines[..dataStart] + kept)
  }

  /** The lines DELETE leaves through an index file: the rows it lists for
      the value removed, highest position first; None where the index file
      does not load. */
  function IndexDeleted(lines: seq<string>, indexFile: seq<string>, value: string, dataStart: nat): (r: Option<seq<string>>)
    requires dataStart <= |lines|
    ensures r.Some? ==> dataStart <= |r.value| <= |lines| && r.value[..dataStart] == lines[..dataStart]
  {
    match Loaded(indexFile)
    case None => None
    case Some(index) =>
      Some(if value in index then RemoveListed(lines, SortDescending(index[value]), dataStart) else lines)
  }

  /** The end of DELETE once the new lines are known: the table file is
      written, then every index file of the table is rebuilt from them. */
  function Rebuilt(newLines: seq<string>, files: map<string, seq<string>>, dataStart: nat): (r: Outcome)
    requires dataStart <= |newLines|
    ensures r.table == Some(newLines)
    ensures r.index.Some? ==> r.status == Success && files != map[]
    ensures r.status != Error
  {
    if files == map[] then Outcome(Success, Some(newLines), None)
    else
      match Regrouped(newLines, dataStart)
      case None => Outcome(Thrown, Some(newLines), None)
      case Some(indexLines) => Outcome(Success, Some(newLines), Some(indexLines))
  }

  /** DELETE on a table file, given the table's index files by column: the
      condition split at '='; an unknown column is an error; the rows are
      removed through the column's index file when there is one, by a scan
      otherwise. The table file is written, and then every index file of
      the table is rebuilt from the new lines. */
  function Deleted(lines: seq<string>, files: map<string, seq<string>>, whereClause: string): (r: Outcome)
    ensures r.status == Success ==> r.table.Some?
    ensures r.index.Some? ==> r.status == Success && files != map[]
  {
    var dataStart := DataStart(lines);
    var names := Heads(lines[..FirstData(lines)]);
    match ParseEquality(whereClause)
    case None => Outcome(Thrown, None, None)
    case Some((whereColumn, whereValue)) =>
      var columnIndex := IndexOf(names, whereColumn);
      if columnIndex == -1 then Outcome(Error, None, None)
      else
        var remaining :=
          if whereColumn in files then IndexDeleted(lines, files[whereColumn], whereValue, dataStart)
          else ScanDeleted(lines, dataStart, columnIndex, whereValue);
        if remaining.None? then Outcome(Thrown, None, None) else Rebuilt(remaining.value, files, dataStart)
  }

  /** The scan of DELETE removes exactly the matching data lines: the
      lines before the data start stay, every line left after it comes
      from the file and does not match, and every data line that does not
      match is left. */
  lemma {:induction false} DeleteScanExact(lines: seq<string>, dataStart: nat, column: nat, value: string)
    requires dataStart <= |lines| && ScanDeleted(lines, dataStart, column, value).Some?
    ensures var newLines := ScanDeleted(lines, dataStart, column, value).value;
            && dataStart <= |newLines| && newLines[..dataStart] == lines[..dataStart]
            && (forall x :: x in newLines[dataStart..] ==> x in lines && !Matches(x, column, value))
            && (forall i :: dataStart <= i < |lines| && !Matches(lines[i], column, value) ==> lines[i] in newLines)
  {
    var kept := Kept(lines[dataStart..], column, value).value;
    KeptMembers(lines[dataStart..], column, value);
    var newLines := lines[..dataStart] + kept;
    assert newLines[dataStart..] == kept;
    forall i | dataStart <= i < |lines| && !Matches(lines[i], column, value)
      ensures lines[i] in newLines
    {
      assert lines[dataStart..][i - dataStart] == lines[i];
    }
  }

  /** DELETE through an index file that lists distinct positions for the
      value leaves the table without exactly the data lines they name. */
  lemma {:induction false} DeleteIndexedExact(lines: seq<string>, indexFile: seq<string>, value: string, dataStart: nat)
    requires Loaded(indexFile).Some? && value in Loaded(indexFile).value
    requires var positions := Loaded(indexFile).value[value];
             forall i, j :: 0 <= i < j < |positions| ==> positions[i] != positions[j]
    requires dataStart <= |lines|
    ensures IndexDeleted(lines, indexFile, value, dataStart)
         == Some(Without(lines, DataPositions(Loaded(indexFile).value[value], dataStart, |lines|)))
  {
    DeleteExactly(lines, Loaded(indexFile).value[value], dataStart);
  }

  // ---------------------------------------------------------------------------
  // The store's catalog and files

  /** The index files of a table, by column. */
  function IndexFilesOf(indexFiles: map<(string, string, string), seq<string>>, database: string, table: string): (r: map<string, seq<string>>)
    ensures forall c :: c in r <==> (database, table, c) in indexFiles
    ensures forall c :: c in r ==> r[c] == indexFiles[(database, table, c)]
  {
    map k | k in indexFiles && k.0 == database && k.1 == table :: k.2 := indexFiles[k]
  }

  /** Every index file of the table holding the same new content. */
  function Refreshed(indexFiles: map<(string, string, string), seq<string>>, database: string, table: string, content: seq<string>): (r: map<(string, string, string), seq<string>>)
    ensures r.Keys == indexFiles.Keys
  {
    map k | k in indexFiles :: if k.0 == database && k.1 == table then content else indexFiles[k]
  }

  /** The index files without those of the table. */
  function WithoutTable(indexFiles: map<(string, string, string), seq<string>>, database: string, table: string): (r: map<(string, string, string), seq<string>>)
    ensures forall k :: k in r <==> k in indexFiles && !(k.0 == database && k.1 == table)
  {
    map k | k in indexFiles && !(k.0 == database && k.1 == table) :: indexFiles[k]
  }

  /** The tables ledger lines DropTable removes: "database,table" in any
      case. */
  function TableEntry(database: string, table: string): string -> bool {
    line => EqualsIgnoreCase(line, database + "," + table)
  }

  /** The index ledger lines DropTable removes: those starting with
      "database,table," in any case. */
  function IndexEntry(database: string, table: string): string -> bool {
    line => StartsWithIgnoreCase(line, database + "," + table + ",")
  }

  /** A line with a comma where the prefix has none, or the other way
      round, does not start with the prefix in any case. */
  lemma {:induction false} CommaMismatch(line: string, prefix: string, k: nat)
    requires k < |prefix| && k < |line| && (line[k] == ',') != (prefix[k] == ',')
    ensures !StartsWithIgnoreCase(line, prefix)
  {
    if |prefix| <= |line| {
      assert Upper(line[..|prefix|])[k] == UpperChar(line[k]);
      assert Upper(prefix)[k] == UpperChar(prefix[k]);
    }
  }

  /** CreateIndex writes its catalog line as "table,column,name,type",
      without the database, so the prefix "database,table," DropTable looks
      for misses it: when the two names differ in length, the line of an
      index on the dropped table stays in the catalog. */
  lemma {:induction false} IndexLineSurvivesDrop(ledger: seq<string>, database: string, table: string, rest: string)
    requires ',' !in database && ',' !in table && |database| != |table|
    ensures table + "," + rest in Remaining(ledger + [table + "," + rest], IndexEntry(database, table))
  {
    var line := table + "," + rest;
    var prefix := database + "," + table + ",";
    if |database| < |table| {
      assert prefix[|database|] == ',' && line[|database|] == table[|database|];
      CommaMismatch(line, prefix, |database|);
    } else {
      assert line[|table|] == ',' && prefix[|table|] == database[|table|];
      CommaMismatch(line, prefix, |table|);
    }
    assert line in ledger + [line];
  }

  /** The index catalog lines of a table as CreateIndex writes them: those
      starting with "table," in any case. */
  function IndexEntryOfTable(table: string): string -> bool {
    line => StartsWithIgnoreCase(line, table + ",")
  }

  /** Dropping by the table's own prefix removes the catalog line of every
      index on the table, and keeps the lines of the indexes on any table
      whose name differs from it in length. */
  lemma {:induction false} IndexLineDropped(ledger: seq<string>, table: string, other: string, column: string, rest: string)
    requires ',' !in table && ',' !in other && |other| != |table|
    ensures table + "," + column + "," + rest !in Remaining(ledger + [table + "," + column + "," + rest], IndexEntryOfTable(table))
    ensures other + "," + rest in Remaining(ledger + [other + "," + rest], IndexEntryOfTable(table))
  {
    var line := table + "," + column + "," + rest;
    assert line[..|table| + 1] == table + ",";
    var kept := other + "," + rest;
    var prefix := table + ",";
    if |table| < |other| {
      assert prefix[|table|] == ',' && kept[|table|] == other[|table|];
      CommaMismatch(kept, prefix, |table|);
    } else {
      assert kept[|other|] == ',' && prefix[|other|] == table[|other|];
      CommaMismatch(kept, prefix, |other|);
    }
    assert kept in ledger + [kept];
  }

  /** The line CreateTable appends to the tables ledger makes the ledger
      check refuse the same table in the same database, in any case. */
  lemma {:induction false} CreatedTableListed(ledger: seq<string>, database: string, table: string, again: string)
    requires ',' !in database && ',' !in table && EqualsIgnoreCase(again, table)
    ensures TableListed(ledger + [database + "," + table], database, again)
  {
    NoSeparator(database, ',');
    NoSeparator(table, ',');
    SplitClean(database, ",", table);
    var line := (ledger + [database + "," + table])[|ledger|];
    assert Split(line, ",") == [database, table];
  }

  /** The duplicate check of InsertIntoTable on a table file: it applies
      when the file has a first line. */
  predicate Rejected(indices: map<string, Index>, hash: string -> int, lines: seq<string>, values: seq<string>)
    requires AllOk(indices)
  {
    lines != [] && Duplicate(indices, hash, Split(lines[0], ","), values)
  }

  /** After a row is inserted, inserting the same values again is refused
      as soon as one index of the table applies to them. */
  lemma {:induction false} SecondInsertRejected(indices: map<string, Index>, hash: string -> int, lines: seq<string>, values: seq<string>)
    requires AllOk(indices)
    requires var newLines := lines + [Join(values, ",")];
             exists c :: c in indices && 0 <= IndexOf(Split(newLines[0], ","), c) < |values|
    ensures var newLines := lines + [Join(values, ",")];
            Rejected(Appended(indices, hash, Split(newLines[0], ","), values, |newLines| - 1), hash, newLines, values)
  {
    var newLines := lines + [Join(values, ",")];
    InsertTwiceRejected(indices, hash, Split(newLines[0], ","), values, |newLines| - 1);
  }

  /** CreateIndex finds every value it read at the ordinal it was read
      at. */
  lemma {:induction false} ColumnIndexed(lines: seq<string>, column: string, multiway: bool, hash: string -> int)
    requires ColumnValues(lines, column).Some?
    ensures var values := ColumnValues(lines, column).value;
            forall i :: 0 <= i < |values| ==> Maps(InsertAll(NewIndex(multiway), hash, values), hash, values[i], i)
  {
    NoRepeatsPairwise(ColumnValues(lines, column).value);
    BuildIndexMaps(multiway, hash, ColumnValues(lines, column).value);
  }

  /** The indexes kept per table after a row is inserted into the table
      with the new lines: those of the table take the row, the others stay. */
  function IndicesAfterInsert(tableIndices: map<string, map<string, Index>>, table: string, hash: string -> int,
                              newLines: seq<string>, values: seq<string>): (r: map<string, map<string, Index>>)
    requires forall t :: t in tableIndices ==> AllOk(tableIndices[t])
    requires newLines != []
    ensures forall t :: t in r ==> AllOk(r[t])
    ensures r.Keys == tableIndices.Keys
    ensures forall t :: t in tableIndices && t != table ==> r[t] == tableIndices[t]
    ensures table in tableIndices ==> r[table] == Appended(tableIndices[table], hash, Split(newLines[0], ","), values, |newLines| - 1)
  {
    if table in tableIndices then tableIndices[table := Appended(tableIndices[table], hash, Split(newLines[0], ","), values, |newLines| - 1)]
    else tableIndices
  }

  /** The indexes of the table replaced by those with the row appended
      are the indexes after the insertion. */
  lemma {:induction false} AfterInsertTaken(tableIndices: map<string, map<string, Index>>, table: string, hash: string -> int,
                         newLines: seq<string>, values: seq<string>, appended: map<string, Index>)
    requires forall t :: t in tableIndices ==> AllOk(tableIndices[t])
    requires newLines != [] && table in tableIndices
    requires appended == Appended(tableIndices[table], hash, Split(newLines[0], ","), values, |newLines| - 1)
    ensures tableIndices[table := appended] == IndicesAfterInsert(tableIndices, table, hash, newLines, values)
  {
  }

  /** As written, the line InsertIntoTable appends is the values joined
      with single commas, without parentheses; when the first value does
      not itself start with "(", the SELECT scan passes over that line and
      the inserted row is never selected. */
  lemma {:induction false} InsertedLineUnseen(lines: seq<string>, values: seq<string>, headers: seq<string>, columnIndices: seq<nat>, whereClause: string)
    requires |values| >= 1 && values[0] != [] && values[0][0] != '('
    ensures Selected(lines + [Join(values, ",")], headers, columnIndices, whereClause)
         == Selected(lines, headers, columnIndices, whereClause)
  {
    var line := Join(values, ",");
    assert line[0] == values[0][0];
    assert !StartsWith(line, "(");
    assert (lines + [line])[..|lines|] == lines;
  }

  /** The line InsertIntoTable evidently means to append is the data line
      UPDATE writes: the values joined with ",," between parentheses. The
      SELECT scan then reads the new line, decodes the inserted values back
      and applies the WHERE clause to them. */
  lemma {:induction false} InsertedRowSeen(lines: seq<string>, values: seq<string>, headers: seq<string>, columnIndices: seq<nat>, whereClause: string)
    requires |values| >= 1 && forall i :: 0 <= i < |values| ==> Plain(values[i])
    requires Unbracketed(Join(values, ",,"))
    ensures var before := Selected(lines, headers, columnIndices, whereClause);
            var verdict := Where.EvaluateWhereClause(headers, values, whereClause);
            Selected(lines + [EncodeRow(values)], headers, columnIndices, whereClause)
            == if before.None? || verdict.None? then None
               else if verdict == Some(true) then Some(before.value + [Project(values, columnIndices)])
               else before
  {
    var line := EncodeRow(values);
    DecodeEncoded(values);
    assert (lines + [line])[..|lines|] == lines;
  }

  /** Replacing the indexes of one table by well-formed ones keeps every
      table's indexes well formed. */
  lemma {:induction false} KeepIndices(tableIndices: map<string, map<string, Index>>, table: string, kept: map<string, Index>, updated: map<string, map<string, Index>>)
    requires forall t :: t in tableIndices ==> AllOk(tableIndices[t])
    requires AllOk(kept) && updated == tableIndices[table := kept]
    ensures forall t :: t in updated ==> AllOk(updated[t])
  {
  }

  /** InsertIntoTable once a database is selected, on the table files
      and the indexes kept per table: no table file is an error; a row an
      index of the table already holds is an error; otherwise the values
      joined with commas are appended as a line and each index of the
      table takes the value at its column with the new line's number. */
  method Insertion(tableFiles: map<(string, string), seq<string>>, tableIndices: map<string, map<string, Index>>, hash: string -> int,
                   database: string, table: string, values: seq<string>)
    returns (r: Status, files: map<(string, string), seq<string>>, indices: map<string, map<string, Index>>)
    requires forall t :: t in tableIndices ==> AllOk(tableIndices[t])
    ensures forall t :: t in indices ==> AllOk(indices[t])
    ensures r == if (database, table) !in tableFiles
                    || Rejected(if table in tableIndices then tableIndices[table] else map[], hash, tableFiles[(database, table)], values)
                 then Error else Success
    ensures r == Success ==>
              var newLines := tableFiles[(database, table)] + [Join(values, ",")];
              && files == tableFiles[(database, table) := newLines]
              && indices == IndicesAfterInsert(tableIndices, table, hash, newLines, values)
    ensures r == Error ==> files == tableFiles && indices == tableIndices
  {
    files, indices := tableFiles, tableIndices;
    var key := (database, table);
    if key !in tableFiles {
      return Error, files, indices;
    }
    var lines := tableFiles[key];
    if table in tableIndices && lines != [] {
      var duplicate := FindDuplicate(tableIndices[table], hash, Split(lines[0], ","), values);
      if duplicate {
        return Error, files, indices;
      }
    }
    var newLines := lines + [Join(values, ",")];
    files := tableFiles[key := newLines];
    if table in tableIndices {
      var appended := AppendAll(tableIndices[table], hash, Split(newLines[0], ","), values, |newLines| - 1);
      indices := tableIndices[table := appended];
      AfterInsertTaken(tableIndices, table, hash, newLines, values, appended);
    }
    r := Success;
  }

  /** The column UPDATE keys its index file by: the left side of the
      condition. */
  function WhereColumn(condition: string): (r: string)
    ensures ParseEquality(condition).Some? ==> r == ParseEquality(condition).value.0
  {
    match ParseEquality(condition)
    case None => ""
    case Some((column, _)) => column
  }

  /** The files after a file is written when there is content for it. */
  function Written<K, V>(files: map<K, V>, key: K, content: Option<V>): (r: map<K, V>)
    ensures content.None? ==> r == files
    ensures content.Some? ==> key in r && r[key] == content.value && r.Keys == files.Keys + {key}
    ensures forall k :: k in files && k != key ==> k in r && r[k] == files[k]
  {
    if content.Some? then files[key := content.value] else files
  }

  /** Every index file of the table rewritten when there is content for
      them. */
  function RefreshedWith(indexFiles: map<(string, string, string), seq<string>>, database: string, table: string, content: Option<seq<string>>): (r: map<(string, string, string), seq<string>>)
    ensures content.None? ==> r == indexFiles
    ensures content.Some? ==> r == Refreshed(indexFiles, database, table, content.value)
  {
    if content.Some? then Refreshed(indexFiles, database, table, content.value) else indexFiles
  }

  // ---------------------------------------------------------------------------
  // The store

  /** The store: the selected database and the indexes kept per table name
      and column, over the disk it reads and writes. */
  class Store {
    /** string.GetHashCode, which the B-tree orders its keys by. */
    const hash: string -> int
    var currentDatabase: string
    var tableIndices: map<string, map<string, Index>>

    /** The database directories. */
    var databases: set<string>
    /** The lines of the three catalog files. */
    var databaseLedger: seq<string>
    var tableLedger: seq<string>
    var indexLedger: seq<string>
    /** The table files by database and table, the index files by database,
        table and column. */
    var tableFiles: map<(string, string), seq<string>>
    var indexFiles: map<(string, string, string), seq<string>>

    ghost predicate Valid()
      reads this`tableIndices, this`currentDatabase, this`databases
    {
      && (forall t :: t in tableIndices ==> AllOk(tableIndices[t]))
      && (currentDatabase == "" || currentDatabase in databases)
    }

    /** The indexes kept for a table; none when the table has no entry. */
    function IndicesOf(table: string): (r: map<string, Index>)
      reads this`tableIndices, this`currentDatabase, this`databases
      requires Valid()
      ensures AllOk(r)
      ensures table !in tableIndices ==> r == map[]
    {
      if table in tableIndices then tableIndices[table] else map[]
    }

    /** The store over the disk as found, with no database selected. The
        indexes listed in the index catalog are created again, each
        through CreateIndex; with no database selected each of those calls
        fails, so the store starts without indexes. */
    constructor (hash: string -> int, databases: set<string>, databaseLedger: seq<string>, tableLedger: seq<string>, indexLedger: seq<string>,
                 tableFiles: map<(string, string), seq<string>>, indexFiles: map<(string, string, string), seq<string>>)
      ensures Valid()
      ensures this.hash == hash && currentDatabase == "" && tableIndices == map[]
      ensures this.databases == databases && this.databaseLedger == databaseLedger && this.tableLedger == tableLedger
      ensures this.indexLedger == indexLedger && this.tableFiles == tableFiles && this.indexFiles == indexFiles
    {
      this.hash := hash;
      this.databases := databases;
      this.databaseLedger := databaseLedger;
      this.tableLedger := tableLedger;
      this.indexLedger := indexLedger;
      this.tableFiles := tableFiles;
      this.indexFiles := indexFiles;
      currentDatabase := "";
      tableIndices := map[];
      new;
      var lines := indexLedger;
      var i := 0;
      while i < |lines|
        invariant 0 <= i <= |lines|
        invariant Valid() && this.hash == hash && currentDatabase == "" && tableIndices == map[]
        invariant this.databases == databases && this.databaseLedger == databaseLedger && this.tableLedger == tableLedger
        invariant this.indexLedger == indexLedger && this.tableFiles == tableFiles && this.indexFiles == indexFiles
      {
        var parts := Split(lines[i], ",");
        if |parts| == 4 {
          var _ := CreateIndex(parts[2], parts[0], parts[1], parts[3]);
        }
        i := i + 1;
      }
    }

    /** USE: a blank name or a name with no database directory is an
        error; otherwise the database becomes the current one. */
    method SetDatabase(databaseName: string) returns (r: Status)
      requires Valid()
      modifies this`currentDatabase
      ensures Valid()
      ensures r == if IsBlank(databaseName) || databaseName !in databases then Error else Success
      ensures currentDatabase == if r == Success then databaseName else old(currentDatabase)
    {
      if IsBlank(databaseName) {
        return Error;
      }
      if databaseName !in databases {
        return Error;
      }
      currentDatabase := databaseName;
      return Success;
    }

    /** CREATE DATABASE: the name without trailing ';'; a blank name, an
        existing directory or a catalog line naming it in any case is an
        error; otherwise the directory is made and the name appended to
        the catalog. */
    method CreateDatabase(databaseName: string) returns (r: Status)
      requires Valid()
      modifies this`databases, this`databaseLedger
      ensures Valid()
      ensures var name := TrimEnd(databaseName, {';'});
              r == if IsBlank(name) || name in old(databases) || NameInUse(old(databaseLedger), name) then Error else Success
      ensures r == Success ==> var name := TrimEnd(databaseName, {';'});
                               databases == old(databases) + {name} && databaseLedger == old(databaseLedger) + [name]
      ensures r == Error ==> databases == old(databases) && databaseLedger == old(databaseLedger)
    {
      var name := TrimEnd(databaseName, {';'});
      if IsBlank(name) {
        return Error;
      }
      if name in databases {
        return Error;
      }
      if NameInUse(databaseLedger, name) {
        return Error;
      }
      databases := databases + {name};
      databaseLedger := databaseLedger + [name];
      return Success;
    }

    /** CREATE TABLE: a blank name, no columns, no database selected, an
        existing table file or a catalog line for the table is an error;
        otherwise the schema lines are written, the table appended to the
        catalog, and any indexes kept under the table's name are filled
        from the new file. */
    method CreateTable(tableName: string, columns: seq<(string, string)>) returns (r: Status)
      requires Valid()
      modifies this`tableFiles, this`tableLedger, this`tableIndices
      ensures Valid()
      ensures r == if IsBlank(tableName) || columns == [] || currentDatabase == ""
                      || (currentDatabase, tableName) in old(tableFiles)
                      || TableListed(old(tableLedger), currentDatabase, tableName)
                   then Error else Success
      ensures r == Success ==> && tableFiles == old(tableFiles)[(currentDatabase, tableName) := SchemaLines(columns)]
                               && tableLedger == old(tableLedger) + [currentDatabase + "," + tableName]
                               && tableIndices == if tableName in old(tableIndices)
                                                  then old(tableIndices)[tableName := Refilled(old(tableIndices)[tableName], hash, SchemaLines(columns))]
                                                  else old(tableIndices)
      ensures r == Error ==> tableFiles == old(tableFiles) && tableLedger == old(tableLedger) && tableIndices == old(tableIndices)
    {
      if IsBlank(tableName) || columns == [] {
        return Error;
      }
      if currentDatabase == "" {
        return Error;
      }
      var key := (currentDatabase, tableName);
      if key in tableFiles {
        return Error;
      }
      if TableListed(tableLedger, currentDatabase, tableName) {
        return Error;
      }
      var lines := SchemaLines(columns);
      tableFiles := tableFiles[key := lines];
      tableLedger := tableLedger + [currentDatabase + "," + tableName];
      if tableName in tableIndices {
        var refilled := RefillAll(tableIndices[tableName], hash, lines);
        tableIndices := tableIndices[tableName := refilled];
      }
      return Success;
    }

    /** CREATE INDEX: blank arguments, no database selected, no table
        file, an index already kept for the column, a column no header
        line starts with, a repeated value or a type other than BTREE or
        BST (in any case) is an error; otherwise the values read are
        inserted at their ordinals into a new index, which is kept for the
        table and column, and the index is appended to the catalog as
        "table,column,name,type". */
    method CreateIndex(indexName: string, tableName: string, columnName: string, indexType: string) returns (r: Status)
      requires Valid()
      modifies this`tableIndices, this`indexLedger
      ensures Valid()
      ensures r == Success <==> && !IsBlank(indexName) && !IsBlank(tableName) && !IsBlank(columnName) && !IsBlank(indexType)
                                && currentDatabase != "" && (currentDatabase, tableName) in tableFiles
                                && columnName !in old(IndicesOf(tableName))
                                && ColumnValues(tableFiles[(currentDatabase, tableName)], columnName).Some?
                                && (Upper(indexType) == "BTREE" || Upper(indexType) == "BST")
      ensures r != Thrown
      ensures r == Success ==>
                var values := ColumnValues(tableFiles[(currentDatabase, tableName)], columnName).value;
                && tableIndices == old(tableIndices)[tableName := old(IndicesOf(tableName))[columnName := InsertAll(NewIndex(Upper(indexType) == "BTREE"), hash, values)]]
                && indexLedger == old(indexLedger) + [tableName + "," + columnName + "," + indexName + "," + indexType]
      ensures r != Success ==> tableIndices == old(tableIndices) && indexLedger == old(indexLedger)
    {
      if IsBlank(indexName) || IsBlank(tableName) || IsBlank(columnName) || IsBlank(indexType) {
        return Error;
      }
      if currentDatabase == "" {
        return Error;
      }
      var key := (currentDatabase, tableName);
      if key !in tableFiles {
        return Error;
      }
      if tableName in tableIndices && columnName in tableIndices[tableName] {
        return Error;
      }
      var columnValues := ReadColumn(tableFiles[key], columnName);
      if columnValues.None? {
        return Error;
      }
      var index;
      if Upper(indexType) == "BTREE" {
        index := NewIndex(true);
      } else if Upper(indexType) == "BST" {
        index := NewIndex(false);
      } else {
        return Error;
      }
      index := BuildIndex(index, hash, columnValues.value);
      var kept := IndicesOf(tableName)[columnName := index];
      KeepIndices(tableIndices, tableName, kept, tableIndices[tableName := kept]);
      tableIndices := tableIndices[tableName := kept];
      indexLedger := indexLedger + [tableName + "," + columnName + "," + indexName + "," + indexType];
      return Success;
    }

    /** INSERT: no database selected or no table file is an error, and so
        is a value some index of the table already finds; otherwise the
        values joined with commas are appended as a line and each index of
        the table takes the value at its column with the new line's
        number. */
    method InsertIntoTable(tableName: string, values: seq<string>) returns (r: Status)
      requires Valid()
      modifies this`tableFiles, this`tableIndices
      ensures Valid()
      ensures r == if currentDatabase == "" || (currentDatabase, tableName) !in old(tableFiles)
                      || Rejected(old(IndicesOf(tableName)), hash, old(tableFiles)[(currentDatabase, tableName)], values)
                   then Error else Success
      ensures r == Success ==>
                var newLines := old(tableFiles)[(currentDatabase, tableName)] + [Join(values, ",")];
                && tableFiles == old(tableFiles)[(currentDatabase, tableName) := newLines]
                && tableIndices == IndicesAfterInsert(old(tableIndices), tableName, hash, newLines, values)
      ensures r == Error ==> tableFiles == old(tableFiles) && tableIndices == old(tableIndices)
    {
      if currentDatabase == "" {
        r := Error;
      } else {
        var files, indices;
        r, files, indices := Insertion(tableFiles, tableIndices, hash, currentDatabase, tableName, values);
        tableFiles := files;
        tableIndices := indices;
      }
    }

    /** DROP TABLE: no database selected or no table file is an error;
        otherwise the file is deleted, the catalog loses the line naming
        the table in any case, the indexes kept under the table's name are
        dropped, the table's index files are deleted and the index catalog
        loses the lines starting with "database,table," in any case. */
    method DropTable(tableName: string) returns (r: Status)
      requires Valid()
      modifies this`tableFiles, this`tableLedger, this`tableIndices, this`indexFiles, this`indexLedger
      ensures Valid()
      ensures r == if currentDatabase == "" || (currentDatabase, tableName) !in old(tableFiles) then Error else Success
      ensures tableFiles == if r == Success then old(tableFiles) - {(currentDatabase, tableName)} else old(tableFiles)
      ensures tableLedger == if r == Success then Remaining(old(tableLedger), TableEntry(currentDatabase, tableName)) else old(tableLedger)
      ensures tableIndices == if r == Success then old(tableIndices) - {tableName} else old(tableIndices)
      ensures indexFiles == if r == Success then WithoutTable(old(indexFiles), currentDatabase, tableName) else old(indexFiles)
      ensures indexLedger == if r == Success then Remaining(old(indexLedger), IndexEntry(currentDatabase, tableName)) else old(indexLedger)
    {
      if currentDatabase == "" || (currentDatabase, tableName) !in tableFiles {
        r := Error;
      } else {
        tableFiles := tableFiles - {(currentDatabase, tableName)};
        tableLedger := RewriteLedger(tableLedger, TableEntry(currentDatabase, tableName));
        tableIndices := tableIndices - {tableName};
        indexFiles := WithoutTable(indexFiles, currentDatabase, tableName);
        indexLedger := RewriteLedger(indexLedger, IndexEntry(currentDatabase, tableName));
        r := Success;
      }
    }

    /** SELECT: with no database selected the table path throws; no table
        file is an error; otherwise the answer on the table file, read
        through the indexes kept for the table. Nothing changes. */
    method Select(tableName: string, columns: seq<string>, whereClause: string, orderByClause: string) returns (a: Answer)
      requires Valid()
      ensures currentDatabase == "" ==> a == Answer(Thrown, [])
      ensures currentDatabase != "" && (currentDatabase, tableName) !in tableFiles ==> a == Answer(Error, [])
      ensures currentDatabase != "" && (currentDatabase, tableName) in tableFiles ==>
                a == Selection(IndicesOf(tableName), hash, tableFiles[(currentDatabase, tableName)], columns, whereClause, orderByClause)
    {
      if currentDatabase == "" {
        return Answer(Thrown, []);
      }
      var key := (currentDatabase, tableName);
      if key !in tableFiles {
        return Answer(Error, []);
      }
      a := Selection(IndicesOf(tableName), hash, tableFiles[key], columns, whereClause, orderByClause);
    }

    /** UPDATE: with no database selected the table path throws; no table
        file is an error; otherwise the outcome on the table file and the
        table's index files. The table file is written whenever the
        outcome has new lines, and the index file of the WHERE column when
        the outcome rebuilt it; the indexes kept in memory do not change. */
    method UpdateTable(tableName: string, sets: Assignment, whereCondition: string) returns (r: Status)
      requires Valid()
      modifies this`tableFiles, this`indexFiles
      ensures Valid()
      ensures currentDatabase == "" ==> r == Thrown && tableFiles == old(tableFiles) && indexFiles == old(indexFiles)
      ensures currentDatabase != "" && (currentDatabase, tableName) !in old(tableFiles) ==>
                r == Error && tableFiles == old(tableFiles) && indexFiles == old(indexFiles)
      ensures currentDatabase != "" && (currentDatabase, tableName) in old(tableFiles) ==>
                var key := (currentDatabase, tableName);
                var out := Updated(old(tableFiles)[key], IndexFilesOf(old(indexFiles), currentDatabase, tableName), sets, whereCondition);
                && r == out.status
                && tableFiles == Written(old(tableFiles), key, out.table)
                && indexFiles == Written(old(indexFiles), (currentDatabase, tableName, WhereColumn(whereCondition)), out.index)
    {
      if currentDatabase == "" {
        return Thrown;
      }
      var key := (currentDatabase, tableName);
      if key !in tableFiles {
        return Error;
      }
      var out := Updated(tableFiles[key], IndexFilesOf(indexFiles, currentDatabase, tableName), sets, whereCondition);
      tableFiles := Written(tableFiles, key, out.table);
      indexFiles := Written(indexFiles, (currentDatabase, tableName, WhereColumn(whereCondition)), out.index);
      r := out.status;
    }

    /** DELETE: with no database selected the table path throws; no table
        file is an error; otherwise the outcome on the table file and the
        table's index files. The table file is written whenever the
        outcome has new lines, and then every index file of the table is
        rewritten with the index rebuilt from them; the indexes kept in
        memory do not change. */
    method Delete(tableName: string, whereClause: string) returns (r: Status)
      requires Valid()
      modifies this`tableFiles, this`indexFiles
      ensures Valid()
      ensures currentDatabase == "" ==> r == Thrown && tableFiles == old(tableFiles) && indexFiles == old(indexFiles)
      ensures currentDatabase != "" && (currentDatabase, tableName) !in old(tableFiles) ==>
                r == Error && tableFiles == old(tableFiles) && indexFiles == old(indexFiles)
      ensures currentDatabase != "" && (currentDatabase, tableName) in old(tableFiles) ==>
                var key := (currentDatabase, tableName);
                var out := Deleted(old(tableFiles)[key], IndexFilesOf(old(indexFiles), currentDatabase, tableName), whereClause);
                && r == out.status
                && tableFiles == Written(old(tableFiles), key, out.table)
                && indexFiles == RefreshedWith(old(indexFiles), currentDatabase, tableName, out.index)
    {
      if currentDatabase == "" {
        return Thrown;
      }
      var key := (currentDatabase, tableName);
      if key !in tableFiles {
        return Error;
      }
      var out := Deleted(tableFiles[key], IndexFilesOf(indexFiles, currentDatabase, tableName), whereClause);
      tableFiles := Written(tableFiles, key, out.table);
      indexFiles := RefreshedWith(indexFiles, currentDatabase, tableName, out.index);
      r := out.status;
    }
  }
}
