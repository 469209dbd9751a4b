/** The lines of a table file: schema lines "Name,Type" first, then data
    lines "(v1,,v2,,...)". How SELECT, UPDATE and DELETE tell the two kinds
    apart, how a data line is decoded and projected, and the SELECT scan
    (Store.ProcessDataLine and the loops of Store.Select). */
module Rows {
  import opened Text
  import opened Where

  type Row = seq<string>

  // ---------------------------------------------------------------------------
  // Data lines

  /** A data line as UPDATE, DELETE and the index rebuild recognise it. */
  predicate IsRowLine(line: string) {
    StartsWith(line, "(") && EndsWith(line, ")")
  }

  lemma {:induction false} RowLineLength(line: string)
    requires IsRowLine(line)
    ensures |line| >= 2 && line[0] == '(' && line[|line| - 1] == ')'
  {
    assert line[|line| - 1..][0] == line[|line| - 1];
  }

  /** The fields of a data line as UPDATE and DELETE read them: the text
      between the outer parentheses, split at ",,". */
  function Fields(line: string): (r: seq<string>)
    requires IsRowLine(line)
    ensures |r| >= 1
  {
    RowLineLength(line);
    Split(line[1..|line| - 1], ",,")
  }

  /** The data line UPDATE writes back for a row. */
  function EncodeRow(values: Row): string {
    "(" + Join(values, ",,") + ")"
  }

  /** A value the ",," encoding carries unchanged: no two adjacent commas
      and no trailing comma. */
  predicate Plain(v: string) {
    && (forall p :: 0 <= p < |v| - 1 ==> !(v[p] == ',' && v[p + 1] == ','))
    && (v == [] || v[|v| - 1] != ',')
  }

  /** A row of plain values is written as a data line whose fields are
      that row again. */
  lemma {:induction false} EncodeDecode(values: Row)
    requires |values| >= 1 && forall i :: 0 <= i < |values| ==> Plain(values[i])
    ensures IsRowLine(EncodeRow(values)) && Fields(EncodeRow(values)) == values
  {
    forall i | 0 <= i < |values|
      ensures Clean(values[i], ",,")
    {
      DoubleCommaClean(values[i]);
    }
    SplitJoin(values, ",,");
    var line := EncodeRow(values);
    assert line[1..|line| - 1] == Join(values, ",,");
  }

  /** The values of a data line as SELECT and CREATE INDEX read them: every
      leading and trailing parenthesis trimmed, then split at ",,". */
  function DecodeRow(line: string): (r: Row)
    ensures |r| >= 1
  {
    Split(Trim(line, {'(', ')'}), ",,")
  }

  /** A value Trim of the parentheses leaves alone at the ends of a data
      line. */
  predicate Unbracketed(body: string) {
    body != [] && body[0] !in {'(', ')'} && body[|body| - 1] !in {'(', ')'}
  }

  /** The SELECT scan reads a data line of plain values back as those
      values, unless Trim eats into the first or the last of them. */
  lemma {:induction false} DecodeEncoded(values: Row)
    requires |values| >= 1 && forall i :: 0 <= i < |values| ==> Plain(values[i])
    requires Unbracketed(Join(values, ",,"))
    ensures StartsWith(EncodeRow(values), "(") && DecodeRow(EncodeRow(values)) == values
  {
    var body := Join(values, ",,");
    var line := EncodeRow(values);
    EncodeDecode(values);
    TrimBrackets(body);
    assert line[1..|line| - 1] == body;
  }

  /** Trim takes the parentheses off a bracketed unbracketed body. */
  lemma {:induction false} TrimBrackets(body: string)
    requires Unbracketed(body)
    ensures Trim("(" + body + ")", {'(', ')'}) == body
  {
    var cs := {'(', ')'};
    TrimStartOne('(', body + ")", cs);
    assert "(" + body + ")" == ['('] + (body + ")");
    TrimEndOne(body, ')', cs);
  }

  // ---------------------------------------------------------------------------
  // Projection and the per-line step of SELECT

  /** One projected value: a position past the end of the row reads
      "NULL", a present value loses surrounding single quotes and spaces. */
  function Pick(values: Row, i: nat): string {
    if i < |values| then Trim(values[i], {'\'', ' '}) else "NULL"
  }

  /** The projection of a decoded row on the requested column positions. */
  function Project(values: Row, columnIndices: seq<nat>): (r: Row)
    ensures |r| == |columnIndices|
    ensures forall j :: 0 <= j < |r| && columnIndices[j] >= |values| ==> r[j] == "NULL"
    ensures forall j :: 0 <= j < |r| && columnIndices[j] < |values| ==> r[j] == Trim(values[columnIndices[j]], {'\'', ' '})
  {
    if columnIndices == [] then []
    else [Pick(values, columnIndices[0])] + Project(values, columnIndices[1..])
  }

  /** ProcessDataLine: the row is decoded and, exactly when the clause holds
      for it, its projection is appended to the results; None where the
      clause evaluation fails. */
  function ProcessDataLine(line: string, headers: seq<string>, columnIndices: seq<nat>, whereClause: string, results: seq<Row>): (r: Option<seq<Row>>)
    ensures var verdict := EvaluateWhereClause(headers, DecodeRow(line), whereClause);
            && (r.None? <==> verdict.None?)
            && (r.Some? ==> |r.value| >= |results| && r.value[..|results|] == results)
            && (r.Some? ==> (|r.value| == |results| + 1 <==> verdict == Some(true)))
            && (r.Some? && verdict == Some(false) ==> r.value == results)
            && (r.Some? && verdict == Some(true) ==> r.value[|results|] == Project(DecodeRow(line), columnIndices))
  {
    var values := DecodeRow(line);
    match EvaluateWhereClause(headers, values, whereClause)
    case None => None
    case Some(holds) => if holds then Some(results + [Project(values, columnIndices)]) else Some(results)
  }

  // ---------------------------------------------------------------------------
  // Schema lines

  /** A schema line: exactly two comma-separated parts. */
  predicate IsSchemaLine(line: string) {
    |Split(line, ",")| == 2
  }

  /** The position of the first line that is not a schema line, or |lines|. */
  function FirstData(lines: seq<string>): (k: nat)
    ensures k <= |lines|
    ensures forall i :: 0 <= i < k ==> IsSchemaLine(lines[i])
    ensures k < |lines| ==> !IsSchemaLine(lines[k])
  {
    if lines == [] || !IsSchemaLine(lines[0]) then 0 else 1 + FirstData(lines[1..])
  }

  /** The first comma-separated part of every line. */
  function Heads(lines: seq<string>): (r: seq<string>)
    ensures |r| == |lines|
    ensures forall i :: 0 <= i < |lines| ==> r[i] == Split(lines[i], ",")[0]
  {
    if lines == [] then [] else [Split(lines[0], ",")[0]] + Heads(lines[1..])
  }

  /** The heads of one more line. */
  lemma {:induction false} HeadsStep(lines: seq<string>, i: nat)
    requires i < |lines|
    ensures Heads(lines[..i + 1]) == Heads(lines[..i]) + [Split(lines[i], ",")[0]]
  {
    assert lines[..i + 1] == lines[..i] + [lines[i]];
  }

  /** The schema loop of UPDATE and DELETE: the column names are the first
      parts of the leading schema lines, and data starts at the first other
      line, or at 0 when every line is a schema line. */
  method ParseColumns(lines: seq<string>) returns (columnNames: seq<string>, dataStartIndex: nat)
    ensures columnNames == Heads(lines[..FirstData(lines)])
    ensures dataStartIndex == if FirstData(lines) < |lines| then FirstData(lines) else 0
  {
    columnNames, dataStartIndex := [], 0;
    var i := 0;
    while i < |lines|
      invariant 0 <= i <= FirstData(lines)
      invariant columnNames == Heads(lines[..i])
      invariant dataStartIndex == 0
    {
      var parts := Split(lines[i], ",");
      if |parts| == 2 {
        HeadsStep(lines, i);
        columnNames := columnNames + [parts[0]];
      } else {
        dataStartIndex := i;
        break;
      }
      i := i + 1;
    }
  }

  /** The position of the first line starting with "(", or |lines|: where
      the header loop of SELECT stops. */
  function HeaderEnd(lines: seq<string>): (k: nat)
    ensures k <= |lines|
    ensures forall i :: 0 <= i < k ==> !StartsWith(lines[i], "(")
    ensures k < |lines| ==> StartsWith(lines[k], "(")
  {
    if lines == [] || StartsWith(lines[0], "(") then 0 else 1 + HeaderEnd(lines[1..])
  }

  /** A line with no second comma part, where SELECT reads a type. */
  predicate Untyped(line: string) {
    |Split(line, ",")| < 2
  }

  /** The header loop of SELECT: every line before the first data line
      gives its first comma part as a header; a line there without a second
      part makes the source fail (None). */
  method ReadHeaders(lines: seq<string>) returns (headers: Option<seq<string>>)
    ensures headers.None? <==> exists i :: 0 <= i < HeaderEnd(lines) && Untyped(lines[i])
    ensures headers.Some? ==> headers.value == Heads(lines[..HeaderEnd(lines)])
  {
    var names := [];
    var i := 0;
    while i < |lines| && !StartsWith(lines[i], "(")
      invariant 0 <= i <= HeaderEnd(lines)
      invariant names == Heads(lines[..i])
      invariant forall j :: 0 <= j < i ==> !Untyped(lines[j])
    {
      var parts := Split(lines[i], ",");
      if |parts| < 2 {
        assert i < HeaderEnd(lines) && Untyped(lines[i]);
        return None;
      }
      HeadsStep(lines, i);
      names := names + [parts[0]];
      i := i + 1;
    }
    HeaderEndAt(lines, i);
    return Some(names);
  }

  /** A position no later than HeaderEnd that holds a data line, or is the
      end, is HeaderEnd itself. */
  lemma {:induction false} HeaderEndAt(lines: seq<string>, i: nat)
    requires i <= HeaderEnd(lines)
    requires i == |lines| || (i < |lines| && StartsWith(lines[i], "("))
    ensures i == HeaderEnd(lines)
  {
  }

  // ---------------------------------------------------------------------------
  // The SELECT scan

  /** What the scan of SELECT yields over lines: ProcessDataLine applied, in
      file order, to every line starting with "("; None once a line makes
      the clause evaluation fail. */
  function Selected(lines: seq<string>, headers: seq<string>, columnIndices: seq<nat>, whereClause: string): Option<seq<Row>> {
    if lines == [] then Some([])
    else
      var before := Selected(lines[..|lines| - 1], headers, columnIndices, whereClause);
      var line := lines[|lines| - 1];
      if before.None? || !StartsWith(line, "(") then before
      else ProcessDataLine(line, headers, columnIndices, whereClause, before.value)
  }

  /** One step of the scan: the verdict on a prefix one line longer. */
  lemma {:induction false} SelectedStep(xs: seq<string>, j: nat, headers: seq<string>, columnIndices: seq<nat>, whereClause: string)
    requires j < |xs|
    ensures var before := Selected(xs[..j], headers, columnIndices, whereClause);
            Selected(xs[..j + 1], headers, columnIndices, whereClause)
            == if before.None? || !StartsWith(xs[j], "(") then before
               else ProcessDataLine(xs[j], headers, columnIndices, whereClause, before.value)
  {
    assert xs[..j + 1][..j] == xs[..j];
  }

  /** Once the scan has failed on a prefix it fails on the whole. */
  lemma {:induction false} SelectedFails(xs: seq<string>, k: nat, headers: seq<string>, columnIndices: seq<nat>, whereClause: string)
    requires k <= |xs| && Selected(xs[..k], headers, columnIndices, whereClause).None?
    ensures Selected(xs, headers, columnIndices, whereClause).None?
    decreases |xs| - k
  {
    if k < |xs| {
      SelectedStep(xs, k, headers, columnIndices, whereClause);
      SelectedFails(xs, k + 1, headers, columnIndices, whereClause);
    } else {
      assert xs[..k] == xs;
    }
  }

  /** The scan loop of SELECT from position start on. */
  method ScanTable(lines: seq<string>, start: nat, headers: seq<string>, columnIndices: seq<nat>, whereClause: string) returns (results: Option<seq<Row>>)
    requires start <= |lines|
    ensures results == Selected(lines[start..], headers, columnIndices, whereClause)
  {
    var xs := lines[start..];
    var acc: seq<Row> := [];
    var j := 0;
    while j < |xs|
      invariant 0 <= j <= |xs|
      invariant Selected(xs[..j], headers, columnIndices, whereClause) == Some(acc)
    {
      SelectedStep(xs, j, headers, columnIndices, whereClause);
      if StartsWith(xs[j], "(") {
        var next := ProcessDataLine(xs[j], headers, columnIndices, whereClause, acc);
        if next.None? {
          SelectedFails(xs, j + 1, headers, columnIndices, whereClause);
          return None;
        }
        acc := next.value;
      }
      j := j + 1;
    }
    assert xs[..j] == xs;
    return Some(acc);
  }

  /** The projections of every line starting with "(", in file order. */
  function AllProjected(lines: seq<string>, columnIndices: seq<nat>): seq<Row> {
    if lines == [] then []
    else
      var line := lines[|lines| - 1];
      AllProjected(lines[..|lines| - 1], columnIndices)
        + (if StartsWith(line, "(") then [Project(DecodeRow(line), columnIndices)] else [])
  }

  /** With no WHERE clause the scan yields every data line, projected, in
      file order. */
  lemma {:induction false} EmptyClauseKeepsAll(lines: seq<string>, headers: seq<string>, columnIndices: seq<nat>)
    ensures Selected(lines, headers, columnIndices, "") == Some(AllProjected(lines, columnIndices))
  {
    if lines != [] {
      var init, line := lines[..|lines| - 1], lines[|lines| - 1];
      EmptyClauseKeepsAll(init, headers, columnIndices);
      if StartsWith(line, "(") {
        var acc := AllProjected(init, columnIndices);
        var next := ProcessDataLine(line, headers, columnIndices, "", acc);
        assert next.value == acc + [Project(DecodeRow(line), columnIndices)];
        assert Selected(lines, headers, columnIndices, "") == next;
      } else {
        var acc := AllProjected(init, columnIndices);
        assert AllProjected(lines, columnIndices) == acc + [] == acc;
      }
    }
  }

  /** Every row the scan yields is the projection of a data line the clause
      holds for. */
  lemma {:induction false} SelectedSound(lines: seq<string>, headers: seq<string>, columnIndices: seq<nat>, whereClause: string, row: Row)
    requires Selected(lines, headers, columnIndices, whereClause).Some?
    requires row in Selected(lines, headers, columnIndices, whereClause).value
    ensures exists i :: 0 <= i < |lines| && StartsWith(lines[i], "(")
                        && EvaluateWhereClause(headers, DecodeRow(lines[i]), whereClause) == Some(true)
                        && row == Project(DecodeRow(lines[i]), columnIndices)
  {
    var init := lines[..|lines| - 1];
    var before := Selected(init, headers, columnIndices, whereClause);
    var line := lines[|lines| - 1];
    var verdict := EvaluateWhereClause(headers, DecodeRow(line), whereClause);
    if StartsWith(line, "(") && verdict == Some(true) && row !in before.value {
      var r := Selected(lines, headers, columnIndices, whereClause).value;
      assert r == before.value + [Project(DecodeRow(line), columnIndices)];
      assert row == Project(DecodeRow(line), columnIndices);
    } else {
      SelectedSound(init, headers, columnIndices, whereClause, row);
      var i :| 0 <= i < |init| && StartsWith(init[i], "(")
               && EvaluateWhereClause(headers, DecodeRow(init[i]), whereClause) == Some(true)
               && row == Project(DecodeRow(init[i]), columnIndices);
      assert lines[i] == init[i];
    }
  }

  /** Every data line the clause holds for is answered, projected: the
      converse of SelectedSound. */
  lemma {:induction false} SelectedComplete(lines: seq<string>, headers: seq<string>, columnIndices: seq<nat>, whereClause: string, i: int)
    requires Selected(lines, headers, columnIndices, whereClause).Some?
    requires 0 <= i < |lines| && StartsWith(lines[i], "(")
    requires EvaluateWhereClause(headers, DecodeRow(lines[i]), whereClause) == Some(true)
    ensures Project(DecodeRow(lines[i]), columnIndices) in Selected(lines, headers, columnIndices, whereClause).value
  {
    var init := lines[..|lines| - 1];
    var before := Selected(init, headers, columnIndices, whereClause);
    var line := lines[|lines| - 1];
    var r := Selected(lines, headers, columnIndices, whereClause).value;
    assert before.Some?;
    if i == |lines| - 1 {
      assert r[|before.value|] == Project(DecodeRow(line), columnIndices);
    } else {
      assert init[i] == lines[i];
      SelectedComplete(init, headers, columnIndices, whereClause, i);
      var k :| 0 <= k < |before.value| && before.value[k] == Project(DecodeRow(lines[i]), columnIndices);
      if StartsWith(line, "(") {
        assert r[..|before.value|] == before.value;
        assert r[k] == before.value[k];
      }
    }
  }
}
