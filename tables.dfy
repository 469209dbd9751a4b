/** UPDATE and DELETE over the lines of a table file, and the index files
    they keep beside it (Store.UpdateTableWithoutIndex,
    Store.UpdateTableUsingIndex, Store.Delete, Store.LoadIndex,
    Store.UpdateIndex). Each loop works on the lines held in memory; None
    stands for the exception the source lets escape, after which nothing is
    written. */
module Tables {
  import opened Text
  import opened Rows

  // ---------------------------------------------------------------------------
  // The WHERE "column = value" of UPDATE and DELETE

  /** The condition split at '=', both sides trimmed of white space; None
      when there is no '=' (the source reads a second part that is not
      there). */
  function ParseEquality(condition: string): (r: Option<(string, string)>)
    ensures r.None? <==> |Split(condition, "=")| < 2
  {
    var parts := Split(condition, "=");
    if |parts| < 2 then None else Some((TrimWhiteSpace(parts[0]), TrimWhiteSpace(parts[1])))
  }

  /** Text without the one-character separator is a single piece. */
  lemma {:induction false} NoSeparator(x: string, c: char)
    requires c !in x
    ensures Clean(x, [c]) && Split(x, [c]) == [x]
  {
    forall p | 0 <= p < |x| ensures !([c] <= (x + [c])[p..]) {
      assert (x + [c])[p..][0] == x[p];
    }
    SplitCleanLast(x, [c]);
  }

  /** "column = value" with no other '=' gives the trimmed column and
      value; a condition without '=' fails. */
  lemma {:induction false} EqualityParts(column: string, value: string)
    requires '=' !in column && '=' !in value
    ensures ParseEquality(column + "=" + value) == Some((TrimWhiteSpace(column), TrimWhiteSpace(value)))
    ensures ParseEquality(column) == None
  {
    NoSeparator(column, '=');
    NoSeparator(value, '=');
    SplitClean(column, "=", value);
    assert Split(column + "=" + value, "=") == [column, value];
  }

  // ---------------------------------------------------------------------------
  // SET

  /** The SET pairs in the enumeration order of the source's dictionary. */
  type Assignment = seq<(string, string)>

  /** Dictionary keys are distinct. */
  predicate DistinctKeys(sets: Assignment) {
    forall i, j :: 0 <= i < j < |sets| ==> sets[i].0 != sets[j].0
  }

  /** The SET loop on the fields of one row: a pair naming a known column
      overwrites the field at that column's position, a pair naming an
      unknown column is skipped; None when the position is past the end of
      the row (the array index fails). */
  function Assign(values: Row, sets: Assignment, names: seq<string>): (r: Option<Row>)
    ensures r.None? <==> exists k :: 0 <= k < |sets| && IndexOf(names, sets[k].0) >= |values|
    ensures r.Some? ==> |r.value| == |values|
    decreases |sets|
  {
    if sets == [] then Some(values)
    else
      var c := IndexOf(names, sets[0].0);
      var rest := if c == -1 then Assign(values, sets[1..], names)
                  else if c < |values| then Assign(values[c := sets[0].1], sets[1..], names)
                  else None;
      assert forall k :: 0 <= k < |sets[1..]| ==> sets[1..][k] == sets[k + 1];
      rest
  }

  /** With distinct keys, every known column named by SET holds its new
      value and every other field is unchanged. */
  lemma {:induction false} AssignFields(values: Row, sets: Assignment, names: seq<string>)
    requires DistinctKeys(sets) && Assign(values, sets, names).Some?
    ensures var r := Assign(values, sets, names).value;
            && (forall k :: 0 <= k < |sets| && IndexOf(names, sets[k].0) != -1 ==> r[IndexOf(names, sets[k].0)] == sets[k].1)
            && (forall j :: 0 <= j < |values| && (forall k :: 0 <= k < |sets| ==> IndexOf(names, sets[k].0) != j) ==> r[j] == values[j])
    decreases |sets|
  {
    if sets != [] {
      var c := IndexOf(names, sets[0].0);
      var next := if c == -1 then values else values[c := sets[0].1];
      var rest := sets[1..];
      assert DistinctKeys(rest);
      AssignFields(next, rest, names);
      var r := Assign(values, sets, names).value;
      assert r == Assign(next, rest, names).value;
      if c != -1 {
        forall k | 0 <= k < |rest|
          ensures IndexOf(names, rest[k].0) != c
        {
          assert rest[k] == sets[k + 1];
        }
        assert r[c] == sets[0].1;
      }
      forall k | 0 <= k < |sets| && IndexOf(names, sets[k].0) != -1
        ensures r[IndexOf(names, sets[k].0)] == sets[k].1
      {
        if k > 0 {
          assert rest[k - 1] == sets[k];
        }
      }
      forall j | 0 <= j < |values| && (forall k :: 0 <= k < |sets| ==> IndexOf(names, sets[k].0) != j)
        ensures r[j] == values[j]
      {
        forall k | 0 <= k < |rest|
          ensures IndexOf(names, rest[k].0) != j
        {
          assert rest[k] == sets[k + 1];
        }
      }
    }
  }

  /** The foreach over the SET pairs, on one row. */
  method AssignRow(values: Row, sets: Assignment, names: seq<string>) returns (r: Option<Row>)
    ensures r == Assign(values, sets, names)
  {
    var row := values;
    var k := 0;
    while k < |sets|
      invariant 0 <= k <= |sets|
      invariant Assign(values, sets, names) == Assign(row, sets[k..], names)
    {
      assert sets[k..][1..] == sets[k + 1..];
      var c := IndexOf(names, sets[k].0);
      if c != -1 {
        if c >= |row| {
          return None;
        }
        row := row[c := sets[k].1];
      }
      k := k + 1;
    }
    return Some(row);
  }

  // ---------------------------------------------------------------------------
  // UPDATE by scanning

  /** A data line whose field at the WHERE column equals the value. */
  predicate Matches(line: string, column: nat, value: string) {
    IsRowLine(line) && column < |Fields(line)| && Fields(line)[column] == value
  }

  /** A data line with no field at the WHERE column: reading it fails. */
  predicate Short(line: string, column: nat) {
    IsRowLine(line) && column >= |Fields(line)|
  }

  /** A data line with the SET pairs applied to its fields and written
      back; any other line as it is. */
  function Reassigned(line: string, sets: Assignment, names: seq<string>): Option<string> {
    if !IsRowLine(line) then Some(line)
    else
      match Assign(Fields(line), sets, names)
      case None => None
      case Some(v) => Some(EncodeRow(v))
  }

  /** One line of the UPDATE scan. */
  function UpdatedLine(line: string, column: nat, value: string, sets: Assignment, names: seq<string>): Option<string> {
    if Short(line, column) then None
    else if Matches(line, column, value) then Reassigned(line, sets, names)
    else Some(line)
  }

  /** Only a short data line or a matching one whose SET fails makes the
      scan fail; a line that does not match stays as it is; a matching line
      of plain values, given plain SET values with distinct columns, reads
      back as its fields with the SET applied. */
  lemma {:induction false} UpdatedLineEffect(line: string, column: nat, value: string, sets: Assignment, names: seq<string>)
    ensures UpdatedLine(line, column, value, sets, names).None? <==>
              Short(line, column) || (Matches(line, column, value) && Assign(Fields(line), sets, names).None?)
    ensures !Short(line, column) && !Matches(line, column, value) ==> UpdatedLine(line, column, value, sets, names) == Some(line)
    ensures Matches(line, column, value) && DistinctKeys(sets) && Assign(Fields(line), sets, names).Some?
            && (forall j :: 0 <= j < |Fields(line)| ==> Plain(Fields(line)[j]))
            && (forall k :: 0 <= k < |sets| ==> Plain(sets[k].1))
            ==> var r := UpdatedLine(line, column, value, sets, names);
                r.Some? && IsRowLine(r.value) && Fields(r.value) == Assign(Fields(line), sets, names).value
  {
    if Matches(line, column, value) && DistinctKeys(sets) && Assign(Fields(line), sets, names).Some?
       && (forall j :: 0 <= j < |Fields(line)| ==> Plain(Fields(line)[j]))
       && (forall k :: 0 <= k < |sets| ==> Plain(sets[k].1))
    {
      var fields := Fields(line);
      var v := Assign(fields, sets, names).value;
      AssignFields(fields, sets, names);
      forall j | 0 <= j < |v|
        ensures Plain(v[j])
      {
        if k :| 0 <= k < |sets| && IndexOf(names, sets[k].0) == j {
          assert v[j] == sets[k].1;
        } else {
          assert v[j] == fields[j];
        }
      }
      EncodeDecode(v);
    }
  }

  /** The body of the UPDATE scan on one line. */
  method UpdateLine(line: string, column: nat, value: string, sets: Assignment, names: seq<string>) returns (r: Option<string>)
    ensures r == UpdatedLine(line, column, value, sets, names)
  {
    if !IsRowLine(line) {
      return Some(line);
    }
    var values := Fields(line);
    if column >= |values| {
      return None;
    }
    if values[column] != value {
      return Some(line);
    }
    var newValues := AssignRow(values, sets, names);
    if newValues.None? {
      return None;
    }
    return Some(EncodeRow(newValues.value));
  }

  /** The lines after the scan of UPDATE: every line from dataStart
      replaced by its UpdatedLine, those before kept; None as soon as one
      of them fails. */
  function ScanUpdated(lines: seq<string>, dataStart: nat, column: nat, value: string, sets: Assignment, names: seq<string>): (r: Option<seq<string>>)
    requires dataStart <= |lines|
    ensures r.None? <==> exists i :: dataStart <= i < |lines| && UpdatedLine(lines[i], column, value, sets, names).None?
    ensures r.Some? ==> |r.value| == |lines| && r.value[..dataStart] == lines[..dataStart]
    ensures r.Some? ==> forall i :: dataStart <= i < |lines| ==> UpdatedLine(lines[i], column, value, sets, names) == Some(r.value[i])
    decreases |lines|
  {
    if |lines| == dataStart then Some(lines)
    else
      var init := lines[..|lines| - 1];
      assert forall i :: 0 <= i < |init| ==> init[i] == lines[i];
      match ScanUpdated(init, dataStart, column, value, sets, names)
      case None => None
      case Some(prefix) =>
        match UpdatedLine(lines[|lines| - 1], column, value, sets, names)
        case None => None
        case Some(line) =>
          assert (prefix + [line])[..dataStart] == prefix[..dataStart];
          Some(prefix + [line])
  }

  /** The loop of UpdateTableWithoutIndex from the first data line: every
      line is replaced by its UpdatedLine, and the flag says whether any
      line matched; None when some line makes the loop fail. */
  method UpdateScan(lines: seq<string>, dataStart: nat, column: nat, value: string, sets: Assignment, names: seq<string>)
    returns (r: Option<(seq<string>, bool)>)
    requires dataStart <= |lines|
    ensures r.None? <==> exists i :: dataStart <= i < |lines| && UpdatedLine(lines[i], column, value, sets, names).None?
    ensures r.Some? ==> |r.value.0| == |lines| && r.value.0[..dataStart] == lines[..dataStart]
    ensures r.Some? ==> forall i :: dataStart <= i < |lines| ==> UpdatedLine(lines[i], column, value, sets, names) == Some(r.value.0[i])
    ensures r.Some? ==> (r.value.1 <==> exists i :: dataStart <= i < |lines| && Matches(lines[i], column, value))
    ensures r.None? == ScanUpdated(lines, dataStart, column, value, sets, names).None?
    ensures r.Some? ==> r.value.0 == ScanUpdated(lines, dataStart, column, value, sets, names).value
  {
    var current := lines;
    var updated := false;
    var i := dataStart;
    while i < |current|
      invariant dataStart <= i <= |current| == |lines|
      invariant current[..dataStart] == lines[..dataStart] && current[i..] == lines[i..]
      invariant forall j :: dataStart <= j < i ==> UpdatedLine(lines[j], column, value, sets, names) == Some(current[j])
      invariant updated <==> exists j :: dataStart <= j < i && Matches(lines[j], column, value)
    {
      assert current[i] == lines[i] by { assert current[i..][0] == lines[i..][0]; }
      var matched := Matches(current[i], column, value);
      var line := UpdateLine(current[i], column, value, sets, names);
      if line.None? {
        return None;
      }
      current := current[i := line.value];
      updated := updated || matched;
      i := i + 1;
    }
    ghost var spec := ScanUpdated(lines, dataStart, column, value, sets, names);
    assert current == spec.value by {
      forall j | 0 <= j < |lines|
        ensures current[j] == spec.value[j]
      {
        if j < dataStart {
          assert current[..dataStart][j] == spec.value[..dataStart][j];
        }
      }
    }
    return Some((current, updated));
  }

  // ---------------------------------------------------------------------------
  // UPDATE through an index file

  /** The loop of UpdateTableUsingIndex over the positions the index file
      lists for the value, in order: a position of a line from the first
      data line on is reassigned; other positions are skipped. The WHERE
      value is not compared again. */
  function AtPositions(lines: seq<string>, positions: seq<int>, dataStart: nat, sets: Assignment, names: seq<string>): (r: Option<seq<string>>)
    ensures r.Some? ==> |r.value| == |lines|
    ensures r.Some? ==> forall i :: 0 <= i < |lines| && (i < dataStart || i !in positions) ==> r.value[i] == lines[i]
    decreases |positions|
  {
    if positions == [] then Some(lines)
    else
      var p := positions[0];
      var rest := positions[1..];
      assert forall i :: i in rest ==> i in positions;
      if dataStart <= p < |lines| then
        match Reassigned(lines[p], sets, names)
        case None => None
        case Some(line) => AtPositions(lines[p := line], rest, dataStart, sets, names)
      else AtPositions(lines, rest, dataStart, sets, names)
  }

  /** On distinct positions every listed line from the first data line on
      is reassigned once; the update fails exactly when one of them fails. */
  lemma {:induction false} AtDistinctPositions(lines: seq<string>, positions: seq<int>, dataStart: nat, sets: Assignment, names: seq<string>)
    requires forall a, b :: 0 <= a < b < |positions| ==> positions[a] != positions[b]
    ensures var r := AtPositions(lines, positions, dataStart, sets, names);
            && (r.None? <==> exists k :: 0 <= k < |positions| && dataStart <= positions[k] < |lines| && Reassigned(lines[positions[k]], sets, names).None?)
            && (r.Some? ==> forall k :: 0 <= k < |positions| && dataStart <= positions[k] < |lines| ==> Some(r.value[positions[k]]) == Reassigned(lines[positions[k]], sets, names))
    decreases |positions|
  {
    if positions != [] {
      var p := positions[0];
      var rest := positions[1..];
      assert forall k :: 0 <= k < |rest| ==> rest[k] == positions[k + 1];
      if dataStart <= p < |lines| {
        match Reassigned(lines[p], sets, names)
        case None =>
        case Some(line) =>
          var next := lines[p := line];
          AtDistinctPositions(next, rest, dataStart, sets, names);
          forall k | 0 <= k < |rest| && dataStart <= rest[k] < |lines|
            ensures next[rest[k]] == lines[rest[k]]
          {
            assert rest[k] != p;
          }
          var r := AtPositions(next, rest, dataStart, sets, names);
          if r.Some? {
            assert p !in rest;
            assert r.value[p] == line;
          }
      } else {
        AtDistinctPositions(lines, rest, dataStart, sets, names);
      }
    }
  }

  /** The loop of UpdateTableUsingIndex. */
  method UpdateAtPositions(lines: seq<string>, positions: seq<int>, dataStart: nat, sets: Assignment, names: seq<string>)
    returns (r: Option<seq<string>>)
    ensures r == AtPositions(lines, positions, dataStart, sets, names)
  {
    var current := lines;
    var k := 0;
    while k < |positions|
      invariant 0 <= k <= |positions| && |current| == |lines|
      invariant AtPositions(lines, positions, dataStart, sets, names) == AtPositions(current, positions[k..], dataStart, sets, names)
    {
      assert positions[k..][1..] == positions[k + 1..];
      var p := positions[k];
      if dataStart <= p < |current| {
        var line := current[p];
        if IsRowLine(line) {
          var newValues := AssignRow(Fields(line), sets, names);
          if newValues.None? {
            return None;
          }
          current := current[p := EncodeRow(newValues.value)];
        } else {
          assert current[p := line] == current;
        }
      }
      k := k + 1;
    }
    return Some(current);
  }

  // ---------------------------------------------------------------------------
  // DELETE by scanning

  /** The lines the DELETE scan keeps, in order: every line but the
      matching data lines; None when a short data line makes it fail. */
  function Kept(lines: seq<string>, column: nat, value: string): (r: Option<seq<string>>)
    ensures r.None? <==> exists i :: 0 <= i < |lines| && Short(lines[i], column)
    ensures r.Some? ==> |r.value| <= |lines|
  {
    if lines == [] then Some([])
    else
      var init := lines[..|lines| - 1];
      var last := lines[|lines| - 1];
      assert forall i :: 0 <= i < |init| ==> init[i] == lines[i];
      match Kept(init, column, value)
      case None => None
      case Some(kept) =>
        if Short(last, column) then None
        else if Matches(last, column, value) then Some(kept)
        else Some(kept + [last])
  }

  /** The kept lines are the lines of the file that do not match, and
      every such line is kept. */
  lemma {:induction false} KeptMembers(lines: seq<string>, column: nat, value: string)
    requires Kept(lines, column, value).Some?
    ensures forall x :: x in Kept(lines, column, value).value ==> x in lines && !Matches(x, column, value)
    ensures forall i :: 0 <= i < |lines| && !Matches(lines[i], column, value) ==> lines[i] in Kept(lines, column, value).value
    decreases |lines|
  {
    if lines != [] {
      var init := lines[..|lines| - 1];
      var last := lines[|lines| - 1];
      assert lines == init + [last];
      KeptMembers(init, column, value);
      var kept := Kept(init, column, value).value;
      forall i | 0 <= i < |lines| && !Matches(lines[i], column, value)
        ensures lines[i] in Kept(lines, column, value).value
      {
        if i < |init| {
          assert init[i] == lines[i];
        }
      }
    }
  }

  /** Kept over one more line. */
  lemma {:induction false} KeptSnoc(xs: seq<string>, line: string, column: nat, value: string)
    requires Kept(xs, column, value).Some?
    ensures var kept := Kept(xs, column, value).value;
            Kept(xs + [line], column, value)
            == if Short(line, column) then None
               else if Matches(line, column, value) then Some(kept)
               else Some(kept + [line])
  {
    assert (xs + [line])[..|xs|] == xs;
  }

  lemma {:induction false} KeptStep(lines: seq<string>, dataStart: nat, j: nat, column: nat, value: string)
    requires dataStart <= j < |lines| && Kept(lines[dataStart..j], column, value).Some?
    ensures var kept := Kept(lines[dataStart..j], column, value).value;
            Kept(lines[dataStart..j + 1], column, value)
            == if Short(lines[j], column) then None
               else if Matches(lines[j], column, value) then Some(kept)
               else Some(kept + [lines[j]])
  {
    assert lines[dataStart..j + 1] == lines[dataStart..j] + [lines[j]];
    KeptSnoc(lines[dataStart..j], lines[j], column, value);
  }

  /** The scan's lines around the one it examines: the kept lines, that
      line, and the rest. */
  lemma {:induction false} Unfold(head: seq<string>, kept: seq<string>, rest: seq<string>)
    requires rest != []
    ensures var s := head + kept + rest;
            && s[|head| + |kept|] == rest[0]
            && s[..|head| + |kept|] + s[|head| + |kept| + 1..] == head + kept + rest[1..]
            && s == head + (kept + [rest[0]]) + rest[1..]
  {
    var s := head + kept + rest;
    assert s[..|head| + |kept|] == head + kept;
    assert s[|head| + |kept| + 1..] == rest[1..];
    assert rest == [rest[0]] + rest[1..];
  }

  /** The body of the DELETE scan on one line: whether it goes, None when
      it is a data line too short to read. */
  method Doomed(line: string, column: nat, value: string) returns (r: Option<bool>)
    ensures r.None? <==> Short(line, column)
    ensures r.Some? ==> (r.value <==> Matches(line, column, value))
  {
    if !IsRowLine(line) {
      return Some(false);
    }
    var values := Fields(line);
    if column >= |values| {
      return None;
    }
    return Some(values[column] == value);
  }

  /** The loop of Delete without an index: a matching data line is removed
      and the position stepped back, so the line moved into its place is
      examined next. */
  method DeleteScan(lines: seq<string>, dataStart: nat, column: nat, value: string) returns (r: Option<seq<string>>)
    requires dataStart <= |lines|
    ensures r.None? <==> Kept(lines[dataStart..], column, value).None?
    ensures r.Some? ==> r.value == lines[..dataStart] + Kept(lines[dataStart..], column, value).value
  {
    var current := lines;
    var i: int := dataStart;
    ghost var j := dataStart;
    assert lines[dataStart..dataStart] == [];
    while i < |current|
      invariant dataStart <= j <= |lines|
      invariant Kept(lines[dataStart..j], column, value).Some?
      invariant current == lines[..dataStart] + Kept(lines[dataStart..j], column, value).value + lines[j..]
      invariant i == dataStart + |Kept(lines[dataStart..j], column, value).value|
      decreases |current| - i
    {
      ghost var kept := Kept(lines[dataStart..j], column, value).value;
      KeptStep(lines, dataStart, j, column, value);
      Unfold(lines[..dataStart], kept, lines[j..]);
      assert current[i] == lines[j];
      var doomed := Doomed(current[i], column, value);
      if doomed.None? {
        assert Short(lines[dataStart..][j - dataStart], column);
        return None;
      }
      if doomed.value {
        current := current[..i] + current[i + 1..];
        i := i - 1;
      }
      i := i + 1;
      j := j + 1;
    }
    assert lines[j..] == [] && lines[dataStart..j] == lines[dataStart..];
    assert current == lines[..dataStart] + Kept(lines[dataStart..], column, value).value;
    return Some(current);
  }

  // ---------------------------------------------------------------------------
  // DELETE through an index file

  predicate Descending(s: seq<int>) {
    forall i, j :: 0 <= i < j < |s| ==> s[i] >= s[j]
  }

  lemma {:induction false} DescendingCons(x: int, t: seq<int>)
    requires Descending(t) && forall k :: 0 <= k < |t| ==> t[k] <= x
    ensures Descending([x] + t)
  {
  }

  function InsertDescending(p: int, s: seq<int>): (r: seq<int>)
    requires Descending(s)
    ensures multiset(r) == multiset(s) + multiset{p} && Descending(r)
  {
    if s == [] || p >= s[0] then
      DescendingCons(p, s);
      [p] + s
    else
      assert s == [s[0]] + s[1..];
      var t := InsertDescending(p, s[1..]);
      assert forall k :: 0 <= k < |t| ==> t[k] <= s[0] by {
        forall k | 0 <= k < |t|
          ensures t[k] <= s[0]
        {
          assert t[k] in multiset(s[1..]) + multiset{p};
        }
      }
      DescendingCons(s[0], t);
      [s[0]] + t
  }

  /** rowsToDelete.Sort((a, b) => b.CompareTo(a)): the positions from the
      largest down. */
  function SortDescending(s: seq<int>): (r: seq<int>)
    ensures multiset(r) == multiset(s) && Descending(r)
  {
    if s == [] then []
    else
      assert s == [s[0]] + s[1..];
      InsertDescending(s[0], SortDescending(s[1..]))
  }

  /** The removal loop over the sorted positions: each position from the
      first data line to the current end is removed in turn. */
  function RemoveListed(lines: seq<string>, positions: seq<int>, dataStart: nat): (r: seq<string>)
    ensures |r| <= |lines|
    ensures dataStart <= |lines| ==> dataStart <= |r| && r[..dataStart] == lines[..dataStart]
    decreases |positions|
  {
    if positions == [] then lines
    else
      var p := positions[0];
      var next := if dataStart <= p < |lines| then lines[..p] + lines[p + 1..] else lines;
      assert dataStart <= |lines| ==> next[..dataStart] == lines[..dataStart];
      RemoveListed(next, positions[1..], dataStart)
  }

  /** Delete with an index file: the positions listed for the value,
      sorted from the largest down, are removed one by one. */
  method DeleteAtPositions(lines: seq<string>, positions: seq<int>, dataStart: nat) returns (r: seq<string>)
    ensures r == RemoveListed(lines, SortDescending(positions), dataStart)
  {
    var order := SortDescending(positions);
    r := lines;
    var k := 0;
    while k < |order|
      invariant 0 <= k <= |order|
      invariant RemoveListed(lines, order, dataStart) == RemoveListed(r, order[k..], dataStart)
    {
      assert order[k..][1..] == order[k + 1..];
      var p := order[k];
      if dataStart <= p < |r| {
        r := r[..p] + r[p + 1..];
      }
      k := k + 1;
    }
  }

  /** The lines whose positions are not in gone, in order. */
  function Without(lines: seq<string>, gone: set<int>): (r: seq<string>)
    ensures |r| <= |lines|
  {
    if lines == [] then []
    else
      var n := |lines| - 1;
      Without(lines[..n], gone) + (if n in gone then [] else [lines[n]])
  }

  lemma {:induction false} WithoutAppend(a: seq<string>, b: seq<string>, gone: set<int>)
    requires forall g :: g in gone ==> g < |a|
    ensures Without(a + b, gone) == Without(a, gone) + b
    decreases |b|
  {
    if b != [] {
      var n := |b| - 1;
      assert (a + b)[..|a + b| - 1] == a + b[..n];
      WithoutAppend(a, b[..n], gone);
      assert b == b[..n] + [b[n]];
    } else {
      assert a + b == a;
    }
  }

  lemma {:induction false} WithoutIgnores(a: seq<string>, gone: set<int>, g: int)
    requires g >= |a|
    ensures Without(a, gone + {g}) == Without(a, gone)
    decreases |a|
  {
    if a != [] {
      WithoutIgnores(a[..|a| - 1], gone, g);
    }
  }

  lemma {:induction false} WithoutLastGone(a: seq<string>, gone: set<int>)
    requires a != [] && |a| - 1 in gone
    ensures Without(a, gone) == Without(a[..|a| - 1], gone)
  {
  }

  /** Removing the position p, which lies above every other one removed,
      leaves what removing them all leaves. */
  lemma {:induction false} RemoveTop(lines: seq<string>, p: int, rest: set<int>)
    requires 0 <= p < |lines| && forall g :: g in rest ==> g < p
    ensures Without(lines[..p] + lines[p + 1..], rest) == Without(lines, rest + {p})
  {
    var head, tail := lines[..p + 1], lines[p + 1..];
    assert lines == head + tail;
    assert head[..p] == lines[..p];
    WithoutAppend(lines[..p], tail, rest);
    WithoutAppend(head, tail, rest + {p});
    WithoutLastGone(head, rest + {p});
    WithoutIgnores(lines[..p], rest, p);
  }

  /** The positions of ps that name a data line of a file of n lines. */
  function DataPositions(ps: seq<int>, dataStart: nat, n: nat): set<int> {
    set x | x in ps && dataStart <= x < n
  }

  /** Strictly descending positions remove exactly the data lines they
      name; a position before the data start or past the end is skipped. */
  lemma {:induction false} RemoveDescending(lines: seq<string>, positions: seq<int>, dataStart: nat)
    requires forall i, j :: 0 <= i < j < |positions| ==> positions[i] > positions[j]
    ensures RemoveListed(lines, positions, dataStart) == Without(lines, DataPositions(positions, dataStart, |lines|))
    decreases |positions|
  {
    if positions == [] {
      assert DataPositions(positions, dataStart, |lines|) == {};
      WithoutNone(lines);
    } else {
      var p, rest := positions[0], positions[1..];
      DataPositionsCons(positions, dataStart, |lines|);
      var below := DataPositions(rest, dataStart, |lines|);
      DataPositionsBelow(positions, dataStart, |lines|);
      if dataStart <= p < |lines| {
        var next := lines[..p] + lines[p + 1..];
        assert RemoveListed(lines, positions, dataStart) == RemoveListed(next, rest, dataStart);
        assert |next| == |lines| - 1;
        RemoveDescending(next, rest, dataStart);
        RemoveTop(lines, p, below);
        assert DataPositions(positions, dataStart, |lines|) == below + {p};
      } else {
        assert RemoveListed(lines, positions, dataStart) == RemoveListed(lines, rest, dataStart);
        assert DataPositions(positions, dataStart, |lines|) == below;
        RemoveDescending(lines, rest, dataStart);
      }
    }
  }

  lemma {:induction false} DataPositionsCons(positions: seq<int>, dataStart: nat, n: nat)
    requires positions != []
    ensures DataPositions(positions, dataStart, n)
         == DataPositions(positions[1..], dataStart, n) + (if dataStart <= positions[0] < n then {positions[0]} else {})
  {
    ElementsCons(positions);
  }

  /** Below a strictly descending head that lies in the file, the later
      positions name the same lines once the head's line is gone. */
  lemma {:induction false} DataPositionsBelow(positions: seq<int>, dataStart: nat, n: nat)
    requires positions != []
    requires forall i, j :: 0 <= i < j < |positions| ==> positions[i] > positions[j]
    ensures 0 <= positions[0] < n ==> DataPositions(positions[1..], dataStart, n - 1) == DataPositions(positions[1..], dataStart, n)
    ensures forall g :: g in DataPositions(positions[1..], dataStart, n) ==> g < positions[0]
    ensures forall i, j :: 0 <= i < j < |positions[1..]| ==> positions[1..][i] > positions[1..][j]
  {
    assert forall i :: 0 <= i < |positions[1..]| ==> positions[1..][i] == positions[i + 1] < positions[0];
  }

  lemma {:induction false} ElementsCons(positions: seq<int>)
    requires positions != []
    ensures (set x | x in positions) == (set x | x in positions[1..]) + {positions[0]}
  {
    assert positions == [positions[0]] + positions[1..];
  }

  lemma {:induction false} WithoutNone(lines: seq<string>)
    ensures Without(lines, {}) == lines
    decreases |lines|
  {
    if lines != [] {
      WithoutNone(lines[..|lines| - 1]);
    }
  }

  lemma {:induction false} Copies(order: seq<int>, i: nat, j: nat)
    requires i < j < |order|
    ensures multiset(order)[order[i]] >= 1 + (if order[j] == order[i] then 1 else 0)
  {
    assert order == order[..j] + order[j..];
    assert order[..j][i] == order[i] && order[j..][0] == order[j];
    assert multiset(order) == multiset(order[..j]) + multiset(order[j..]);
  }

  /** A descending arrangement of distinct positions is strictly
      descending. */
  lemma {:induction false} StrictlyDescending(order: seq<int>, positions: seq<int>)
    requires forall i, j :: 0 <= i < j < |positions| ==> positions[i] != positions[j]
    requires multiset(order) == multiset(positions) && Descending(order)
    ensures forall i, j :: 0 <= i < j < |order| ==> order[i] > order[j]
  {
    forall i, j | 0 <= i < j < |order|
      ensures order[i] > order[j]
    {
      assert order[i] in multiset(positions);
      var a :| 0 <= a < |positions| && positions[a] == order[i];
      Unique(positions, a);
      Copies(order, i, j);
    }
  }

  /** Delete with an index file, on distinct positions, removes exactly
      the data lines those positions name, whatever their order in the
      index file; positions outside the data lines remove nothing. */
  lemma {:induction false} DeleteExactly(lines: seq<string>, positions: seq<int>, dataStart: nat)
    requires forall i, j :: 0 <= i < j < |positions| ==> positions[i] != positions[j]
    ensures RemoveListed(lines, SortDescending(positions), dataStart)
         == Without(lines, DataPositions(positions, dataStart, |lines|))
  {
    var order := SortDescending(positions);
    StrictlyDescending(order, positions);
    RemoveDescending(lines, order, dataStart);
    assert DataPositions(order, dataStart, |lines|) == DataPositions(positions, dataStart, |lines|) by {
      forall x
        ensures x in order <==> x in positions
      {
        assert x in order <==> x in multiset(order);
      }
    }
  }

  /** A value that occurs once in distinct positions has multiplicity one. */
  lemma {:induction false} Unique(positions: seq<int>, a: int)
    requires forall i, j :: 0 <= i < j < |positions| ==> positions[i] != positions[j]
    requires 0 <= a < |positions|
    ensures multiset(positions)[positions[a]] == 1
    decreases |positions|
  {
    var n := |positions| - 1;
    var init := positions[..n];
    assert positions == init + [positions[n]];
    if a < n {
      Unique(init, a);
      assert init[a] == positions[a];
    } else {
      assert positions[n] !in init by {
        forall i | 0 <= i < n ensures init[i] != positions[n] {
          assert init[i] == positions[i];
        }
      }
    }
  }

  // ---------------------------------------------------------------------------
  // Index files: written by UpdateIndex, read by LoadIndex

  /** A dictionary from key to positions, with its keys in the order they
      were first added (the order it enumerates them in). */
  datatype Postings = Postings(keys: seq<string>, positions: map<string, seq<int>>)

  /** The line at position i is a data line whose field at the column is key. */
  predicate KeyAt(lines: seq<string>, i: nat, column: nat, key: string)
    requires i < |lines|
  {
    IsRowLine(lines[i]) && column < |Fields(lines[i])| && Fields(lines[i])[column] == key
  }

  /** A dictionary built from the lines before upto: every data line from
      dataStart on is listed under its field at position column; None when
      a data line has no such field. UpdateIndex builds it with column set
      to dataStart, whatever column the index is on. */
  function Grouped(lines: seq<string>, dataStart: nat, column: nat, upto: nat): (r: Option<Postings>)
    requires upto <= |lines|
    ensures r.None? <==> exists i :: dataStart <= i < upto && Short(lines[i], column)
    ensures r.Some? ==> forall k :: k in r.value.keys <==> k in r.value.positions
    decreases upto
  {
    if upto <= dataStart then Some(Postings([], map[]))
    else
      var i := upto - 1;
      match Grouped(lines, dataStart, column, i)
      case None => None
      case Some(g) =>
        if !IsRowLine(lines[i]) then Some(g)
        else if column >= |Fields(lines[i])| then None
        else
          var key := Fields(lines[i])[column];
          if key in g.positions then Some(Postings(g.keys, g.positions[key := g.positions[key] + [i]]))
          else Some(Postings(g.keys + [key], g.positions[key := [i]]))
  }

  predicate Increasing(s: seq<int>) {
    forall a, b :: 0 <= a < b < |s| ==> s[a] < s[b]
  }

  /** The keys of the dictionary UpdateIndex builds are distinct. */
  lemma {:induction false} GroupedDistinct(lines: seq<string>, dataStart: nat, column: nat, upto: nat)
    requires upto <= |lines| && Grouped(lines, dataStart, column, upto).Some?
    ensures var keys := Grouped(lines, dataStart, column, upto).value.keys;
            forall a, b :: 0 <= a < b < |keys| ==> keys[a] != keys[b]
    decreases upto
  {
    if upto > dataStart {
      GroupedDistinct(lines, dataStart, column, upto - 1);
    }
  }

  /** Each key lists at least one position, and only data lines from
      dataStart on that carry the key. */
  lemma {:induction false} GroupedSound(lines: seq<string>, dataStart: nat, column: nat, upto: nat)
    requires upto <= |lines| && Grouped(lines, dataStart, column, upto).Some?
    ensures var m := Grouped(lines, dataStart, column, upto).value.positions;
            forall k :: k in m ==> m[k] != [] && forall a :: 0 <= a < |m[k]| ==> dataStart <= m[k][a] < upto && KeyAt(lines, m[k][a], column, k)
    decreases upto
  {
    if upto > dataStart {
      var i := upto - 1;
      GroupedSound(lines, dataStart, column, i);
      var m := Grouped(lines, dataStart, column, i).value.positions;
      if IsRowLine(lines[i]) {
        var key := Fields(lines[i])[column];
        var m' := Grouped(lines, dataStart, column, upto).value.positions;
        if key in m {
          assert m' == m[key := m[key] + [i]];
          forall a | 0 <= a < |m'[key]|
            ensures dataStart <= m'[key][a] < upto && KeyAt(lines, m'[key][a], column, key)
          {
            if a < |m[key]| {
              assert m'[key][a] == m[key][a];
            }
          }
        } else {
          assert m' == m[key := [i]];
        }
      }
    }
  }

  lemma {:induction false} GroupedBounds(lines: seq<string>, dataStart: nat, column: nat, upto: nat)
    requires upto <= |lines| && Grouped(lines, dataStart, column, upto).Some?
    ensures var m := Grouped(lines, dataStart, column, upto).value.positions;
            forall k, a :: k in m && 0 <= a < |m[k]| ==> dataStart <= m[k][a] < upto
    decreases upto
  {
    if upto > dataStart {
      GroupedBounds(lines, dataStart, column, upto - 1);
    }
  }

  /** Each key lists its positions in increasing order. */
  lemma {:induction false} GroupedIncreasing(lines: seq<string>, dataStart: nat, column: nat, upto: nat)
    requires upto <= |lines| && Grouped(lines, dataStart, column, upto).Some?
    ensures var m := Grouped(lines, dataStart, column, upto).value.positions;
            forall k :: k in m ==> Increasing(m[k])
    decreases upto
  {
    if upto > dataStart {
      var i := upto - 1;
      GroupedIncreasing(lines, dataStart, column, i);
      var m := Grouped(lines, dataStart, column, i).value.positions;
      if IsRowLine(lines[i]) {
        var key := Fields(lines[i])[column];
        if key in m {
          GroupedBounds(lines, dataStart, column, i);
          IncreasingSnoc(m[key], i);
        }
      }
    }
  }

  lemma {:induction false} IncreasingSnoc(ps: seq<int>, i: int)
    requires Increasing(ps) && forall a :: 0 <= a < |ps| ==> ps[a] < i
    ensures Increasing(ps + [i])
  {
  }

  /** Every data line from dataStart on is listed under its key. */
  lemma {:induction false} GroupedComplete(lines: seq<string>, dataStart: nat, column: nat, upto: nat)
    requires upto <= |lines| && Grouped(lines, dataStart, column, upto).Some?
    ensures var m := Grouped(lines, dataStart, column, upto).value.positions;
            forall k, i :: dataStart <= i < upto && KeyAt(lines, i, column, k) ==> k in m && i in m[k]
    decreases upto
  {
    if upto > dataStart {
      var i := upto - 1;
      GroupedComplete(lines, dataStart, column, i);
    }
  }

  /** UpdateIndex's loop over the lines. */
  method GroupLines(lines: seq<string>, dataStart: nat, column: nat) returns (r: Option<Postings>)
    requires dataStart <= |lines|
    ensures r == Grouped(lines, dataStart, column, |lines|)
  {
    var keys: seq<string> := [];
    var positions: map<string, seq<int>> := map[];
    var i := dataStart;
    while i < |lines|
      invariant dataStart <= i <= |lines|
      invariant Grouped(lines, dataStart, column, i) == Some(Postings(keys, positions))
    {
      var line := lines[i];
      if IsRowLine(line) {
        var values := Fields(line);
        if column >= |values| {
          GroupedFails(lines, dataStart, column, i + 1, |lines|);
          return None;
        }
        var key := values[column];
        assert Grouped(lines, dataStart, column, i + 1) == Some(
          if key in positions then Postings(keys, positions[key := positions[key] + [i]])
          else Postings(keys + [key], positions[key := [i]]));
        if key !in positions {
          keys := keys + [key];
          positions := positions[key := [i]];
        } else {
          positions := positions[key := positions[key] + [i]];
        }
      }
      i := i + 1;
    }
    return Some(Postings(keys, positions));
  }

  lemma {:induction false} GroupedFails(lines: seq<string>, dataStart: nat, column: nat, upto: nat, end: nat)
    requires upto <= end <= |lines| && Grouped(lines, dataStart, column, upto).None?
    ensures Grouped(lines, dataStart, column, end).None?
    decreases end - upto
  {
    if upto < end {
      GroupedFails(lines, dataStart, column, upto + 1, end);
    }
  }

  /** The decimal texts of positions, as string.Join writes them. */
  function Texts(ps: seq<int>): (r: seq<string>)
    ensures |r| == |ps| && forall i :: 0 <= i < |ps| ==> r[i] == DecimalText(ps[i])
  {
    if ps == [] then [] else [DecimalText(ps[0])] + Texts(ps[1..])
  }

  /** One index file line: "key:p1,p2,...". */
  function EntryLine(key: string, ps: seq<int>): string {
    key + ":" + Join(Texts(ps), ",")
  }

  /** The lines UpdateIndex writes, one per key in enumeration order. */
  function IndexFileLines(keys: seq<string>, positions: map<string, seq<int>>): (r: seq<string>)
    requires forall k :: k in keys ==> k in positions
    ensures |r| == |keys|
  {
    if keys == [] then []
    else
      var last := keys[|keys| - 1];
      IndexFileLines(keys[..|keys| - 1], positions) + [EntryLine(last, positions[last])]
  }

  /** UpdateIndex: the file it writes for the table's lines; None when a
      data line has no field at position dataStart. */
  method UpdateIndex(lines: seq<string>, dataStart: nat) returns (r: Option<seq<string>>)
    requires dataStart <= |lines|
    ensures var g := Grouped(lines, dataStart, dataStart, |lines|);
            && (r.None? <==> g.None?)
            && (r.Some? ==> r.value == IndexFileLines(g.value.keys, g.value.positions))
  {
    var grouped := GroupLines(lines, dataStart, dataStart);
    if grouped.None? {
      return None;
    }
    return Some(IndexFileLines(grouped.value.keys, grouped.value.positions));
  }

  /** int.Parse over the comma parts; None at a part that does not parse. */
  function ParseAll(parts: seq<string>): (r: Option<seq<int>>)
    ensures r.None? <==> exists i :: 0 <= i < |parts| && ParseNumber(parts[i]).None?
    ensures r.Some? ==> |r.value| == |parts| && forall i :: 0 <= i < |parts| ==> ParseNumber(parts[i]) == Some(r.value[i])
  {
    if parts == [] then Some([])
    else
      assert forall i :: 0 < i < |parts| ==> parts[1..][i - 1] == parts[i];
      match ParseNumber(parts[0])
      case None => None
      case Some(p) =>
        match ParseAll(parts[1..])
        case None => None
        case Some(rest) => Some([p] + rest)
  }

  /** LoadIndex: every line with exactly one ':' gives the positions of
      its key, a later line replacing an earlier one; other lines are
      skipped; None when a position does not parse. */
  function Loaded(lines: seq<string>): Option<map<string, seq<int>>> {
    if lines == [] then Some(map[])
    else
      match Loaded(lines[..|lines| - 1])
      case None => None
      case Some(m) =>
        var parts := Split(lines[|lines| - 1], ":");
        if |parts| != 2 then Some(m)
        else
          match ParseAll(Split(parts[1], ","))
          case None => None
          case Some(ps) => Some(m[parts[0] := ps])
  }

  /** The loop of LoadIndex. */
  method LoadIndex(lines: seq<string>) returns (r: Option<map<string, seq<int>>>)
    ensures r == Loaded(lines)
  {
    var index: map<string, seq<int>> := map[];
    var i := 0;
    while i < |lines|
      invariant 0 <= i <= |lines|
      invariant Loaded(lines[..i]) == Some(index)
    {
      assert lines[..i + 1][..i] == lines[..i];
      var parts := Split(lines[i], ":");
      if |parts| == 2 {
        var values := ParseAll(Split(parts[1], ","));
        if values.None? {
          LoadedFails(lines, i + 1);
          return None;
        }
        index := index[parts[0] := values.value];
      }
      i := i + 1;
    }
    assert lines[..i] == lines;
    return Some(index);
  }

  lemma {:induction false} LoadedFails(lines: seq<string>, k: nat)
    requires k <= |lines| && Loaded(lines[..k]).None?
    ensures Loaded(lines).None?
    decreases |lines| - k
  {
    if k < |lines| {
      assert lines[..k + 1][..k] == lines[..k];
      LoadedFails(lines, k + 1);
    } else {
      assert lines[..k] == lines;
    }
  }

  // The round trip of an index file

  lemma {:induction false} DecimalTextChars(i: int)
    ensures forall c :: c in DecimalText(i) ==> c == '-' || IsDigit(c)
  {
    if i >= 0 {
      assert forall c :: c in NatText(i) ==> IsDigit(c);
    } else {
      assert forall c :: c in NatText(-i) ==> IsDigit(c);
      assert forall c :: c in DecimalText(i) ==> c == '-' || c in NatText(-i);
    }
  }

  lemma {:induction false} JoinAvoids(xs: seq<string>, sep: string, c: char)
    requires c !in sep && forall i :: 0 <= i < |xs| ==> c !in xs[i]
    ensures c !in Join(xs, sep)
    decreases |xs|
  {
    if |xs| > 1 {
      assert forall i :: 0 <= i < |xs[1..]| ==> xs[1..][i] == xs[i + 1];
      JoinAvoids(xs[1..], sep, c);
    }
  }

  /** An entry line of a key without ':' reads back as that key and its
      positions. */
  lemma {:induction false} EntryRoundTrip(key: string, ps: seq<int>)
    requires ':' !in key && ps != []
    ensures var parts := Split(EntryLine(key, ps), ":");
            |parts| == 2 && parts[0] == key && ParseAll(Split(parts[1], ",")) == Some(ps)
  {
    var texts := Texts(ps);
    forall i | 0 <= i < |texts|
      ensures ':' !in texts[i] && Clean(texts[i], ",")
    {
      DecimalTextChars(ps[i]);
      NoSeparator(texts[i], ',');
    }
    JoinAvoids(texts, ",", ':');
    var body := Join(texts, ",");
    NoSeparator(key, ':');
    NoSeparator(body, ':');
    SplitClean(key, ":", body);
    SplitJoin(texts, ",");
    forall i | 0 <= i < |ps|
      ensures ParseNumber(texts[i]) == Some(ps[i])
    {
      ParseDecimalText(ps[i]);
    }
    var r := ParseAll(texts);
    assert r.Some?;
    assert r.value == ps;
  }

  /** Reading the lines written for some keys gives each of those keys
      its positions. */
  lemma {:induction false} LoadWritten(keys: seq<string>, positions: map<string, seq<int>>)
    requires forall k :: k in keys ==> k in positions && ':' !in k && positions[k] != []
    ensures Loaded(IndexFileLines(keys, positions)) == Some(map k | k in keys :: positions[k])
    decreases |keys|
  {
    if keys != [] {
      var init, last := keys[..|keys| - 1], keys[|keys| - 1];
      assert forall k :: k in init ==> k in keys;
      LoadWritten(init, positions);
      var lines := IndexFileLines(keys, positions);
      assert lines[..|lines| - 1] == IndexFileLines(init, positions);
      EntryRoundTrip(last, positions[last]);
      var m := map k | k in init :: positions[k];
      assert Loaded(lines) == Some(m[last := positions[last]]);
      ExtendKeys(keys, positions);
    }
  }

  lemma {:induction false} ExtendKeys(keys: seq<string>, positions: map<string, seq<int>>)
    requires keys != [] && forall k :: k in keys ==> k in positions
    ensures var init, last := keys[..|keys| - 1], keys[|keys| - 1];
            (map k | k in init :: positions[k])[last := positions[last]] == map k | k in keys :: positions[k]
  {
    var init, last := keys[..|keys| - 1], keys[|keys| - 1];
    assert keys == init + [last];
    assert forall k :: k in keys <==> k in init || k == last;
  }

  /** The index file UpdateIndex writes reads back, through LoadIndex, as
      the dictionary it was written from, when no key holds ':'. */
  lemma {:induction false} IndexFileRoundTrip(lines: seq<string>, dataStart: nat, column: nat)
    requires dataStart <= |lines| && Grouped(lines, dataStart, column, |lines|).Some?
    requires forall i :: dataStart <= i < |lines| && IsRowLine(lines[i]) && column < |Fields(lines[i])| ==> ':' !in Fields(lines[i])[column]
    ensures var g := Grouped(lines, dataStart, column, |lines|).value;
            Loaded(IndexFileLines(g.keys, g.positions)) == Some(g.positions)
  {
    var g := Grouped(lines, dataStart, column, |lines|).value;
    GroupedSound(lines, dataStart, column, |lines|);
    forall k | k in g.keys
      ensures ':' !in k && g.positions[k] != []
    {
      var i := g.positions[k][0];
      assert KeyAt(lines, i, column, k);
    }
    LoadWritten(g.keys, g.positions);
    assert (map k | k in g.keys :: g.positions[k]) == g.positions;
  }
}
