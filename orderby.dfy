/** ORDER BY (Store.ApplyOrderBy): the clause names a column of the full
    header list and a direction; the rows are sorted on that column's value
    with the original position as tie-break, and each row is then re-read
    on the selected columns. */
module OrderBy {
  import opened Text
  import opened Rows

  // ---------------------------------------------------------------------------
  // The clause

  /** The position of the sort column among the headers, and whether the
      order is descending. */
  datatype Target = Target(column: nat, descending: bool)

  /** The clause "column direction": None when it is blank, has fewer than
      two space-separated parts, names a direction other than ASC or DESC
      (in any case) or a column that is not a header. */
  function ParseOrderBy(orderByClause: string, headers: seq<string>): (t: Option<Target>)
    ensures t.Some? ==> t.value.column < |headers| && headers[t.value.column] == Split(orderByClause, " ")[0]
    ensures t.Some? ==> |Split(orderByClause, " ")| >= 2 && t.value.descending == (Upper(Split(orderByClause, " ")[1]) == "DESC")
    ensures t.None? <==> || IsBlank(orderByClause)
                         || |Split(orderByClause, " ")| < 2
                         || Upper(Split(orderByClause, " ")[1]) !in {"ASC", "DESC"}
                         || Split(orderByClause, " ")[0] !in headers
  {
    if IsBlank(orderByClause) then None
    else
      var parts := Split(orderByClause, " ");
      if |parts| < 2 then None
      else
        var direction := Upper(parts[1]);
        if direction != "ASC" && direction != "DESC" then None
        else
          var columnIndex := IndexOf(headers, parts[0]);
          if columnIndex == -1 then None else Some(Target(columnIndex, direction == "DESC"))
  }

  // ---------------------------------------------------------------------------
  // The temporary list

  /** An entry of the temporary list: the row's original position, its
      sort value and its values on the selected columns. */
  datatype Item = Item(index: nat, sortValue: string, selected: Row)

  /** The row has the sort column and every selected column, each read at
      its position in the full header list; otherwise building its entry
      indexes out of the row. */
  predicate Fits(row: Row, column: nat, headers: seq<string>, selectedColumns: seq<string>) {
    column < |row| && forall k :: 0 <= k < |selectedColumns| ==> 0 <= IndexOf(headers, selectedColumns[k]) < |row|
  }

  /** The row re-read on the selected columns, by header position. */
  function Reproject(row: Row, headers: seq<string>, selectedColumns: seq<string>): (r: Row)
    requires forall k :: 0 <= k < |selectedColumns| ==> 0 <= IndexOf(headers, selectedColumns[k]) < |row|
    ensures |r| == |selectedColumns|
    ensures forall k :: 0 <= k < |r| ==> r[k] == row[IndexOf(headers, selectedColumns[k])]
  {
    if selectedColumns == [] then []
    else [row[IndexOf(headers, selectedColumns[0])]] + Reproject(row, headers, selectedColumns[1..])
  }

  /** The temporary list for rows, the first of them at original position
      base. */
  function Items(rows: seq<Row>, base: nat, column: nat, headers: seq<string>, selectedColumns: seq<string>): (r: seq<Item>)
    requires forall i :: 0 <= i < |rows| ==> Fits(rows[i], column, headers, selectedColumns)
    ensures |r| == |rows|
    ensures forall i :: 0 <= i < |rows| ==> r[i].index == base + i
    ensures forall i :: 0 <= i < |rows| ==> Fits(rows[i], column, headers, selectedColumns) && r[i].sortValue == rows[i][column]
    ensures forall i :: 0 <= i < |rows| ==> Fits(rows[i], column, headers, selectedColumns) && r[i].selected == Reproject(rows[i], headers, selectedColumns)
  {
    if rows == [] then []
    else
      assert Fits(rows[0], column, headers, selectedColumns);
      [Item(base, rows[0][column], Reproject(rows[0], headers, selectedColumns))]
        + Items(rows[1..], base + 1, column, headers, selectedColumns)
  }

  function Selections(items: seq<Item>): (r: seq<Row>)
    ensures |r| == |items| && forall i :: 0 <= i < |r| ==> r[i] == items[i].selected
  {
    if items == [] then [] else [items[0].selected] + Selections(items[1..])
  }

  // ---------------------------------------------------------------------------
  // The comparison

  function Sign(d: int): int {
    if d < 0 then -1 else if d > 0 then 1 else 0
  }

  /** The comparison of two sort values: numeric when both parse, otherwise
      case-insensitive ordinal. int.TryParse is tried before double.TryParse,
      but every Int32 is a double, so one numeric comparison covers both. */
  function KeyCompare(a: string, b: string): int {
    var x, y := ParseDouble(a), ParseDouble(b);
    if x.Some? && y.Some? then RealSign(x.value - y.value) else CompareIgnoreCase(a, b)
  }

  /** The comparison handed to the sort: equal sort values fall back to the
      original positions BEFORE the direction is applied, so ties keep
      their order under DESC as under ASC. */
  function Cmp(a: Item, b: Item, descending: bool): int {
    var c := KeyCompare(a.sortValue, b.sortValue);
    if c == 0 then Sign(a.index - b.index)
    else if descending then -c else c
  }

  lemma {:induction false} KeyCompareAntisymmetric(a: string, b: string)
    ensures KeyCompare(a, b) == -KeyCompare(b, a)
  {
    CompareAntisymmetric(Upper(a), Upper(b));
  }

  lemma {:induction false} CmpAntisymmetric(a: Item, b: Item, descending: bool)
    ensures Cmp(a, b, descending) == -Cmp(b, a, descending)
  {
    KeyCompareAntisymmetric(a.sortValue, b.sortValue);
  }

  /** Numeric values compare below, equal or above as their numbers do. */
  lemma {:induction false} KeyCompareTransitive(a: string, b: string, c: string)
    requires ParseDouble(a).Some? == ParseDouble(b).Some? == ParseDouble(c).Some?
    ensures KeyCompare(a, b) <= 0 && KeyCompare(b, c) <= 0 ==> KeyCompare(a, c) <= 0
    ensures KeyCompare(a, b) < 0 && KeyCompare(b, c) <= 0 ==> KeyCompare(a, c) < 0
    ensures KeyCompare(a, b) <= 0 && KeyCompare(b, c) < 0 ==> KeyCompare(a, c) < 0
  {
    if ParseDouble(a).None? {
      var x, y, z := Upper(a), Upper(b), Upper(c);
      CompareZero(x, y);
      CompareZero(y, z);
      CompareZero(x, z);
      if Compare(x, y) < 0 && Compare(y, z) < 0 {
        CompareTransitive(x, y, z);
      }
    }
  }

  /** Under the sort values' common kind the comparison of entries is a
      strict order. */
  lemma {:induction false} CmpTransitive(a: Item, b: Item, c: Item, descending: bool)
    requires ParseDouble(a.sortValue).Some? == ParseDouble(b.sortValue).Some? == ParseDouble(c.sortValue).Some?
    requires Cmp(a, b, descending) < 0 && Cmp(b, c, descending) < 0
    ensures Cmp(a, c, descending) < 0
  {
    KeyCompareTransitive(a.sortValue, b.sortValue, c.sortValue);
    KeyCompareTransitive(c.sortValue, b.sortValue, a.sortValue);
    KeyCompareAntisymmetric(a.sortValue, b.sortValue);
    KeyCompareAntisymmetric(b.sortValue, c.sortValue);
    KeyCompareAntisymmetric(a.sortValue, c.sortValue);
  }

  /** The comparison mixes kinds: "2" < "10" as numbers, "10" < "1a" and
      "1a" < "2" as text, so it is not an order on such values. */
  lemma {:induction false} ComparisonCycle()
    ensures KeyCompare("2", "10") < 0 && KeyCompare("10", "1a") < 0 && KeyCompare("1a", "2") < 0
  {
    ParseDoubleSamples();
    assert Upper("10") == "10" && Upper("1a") == "1A" && Upper("2") == "2";
    assert Compare("10", "1A") < 0 by { assert Compare("0", "A") < 0; }
    assert Compare("1A", "2") < 0;
  }

  /** The comparison as evidently intended: an order on all sort values,
      with every number before every text and each kind compared as
      KeyCompare compares it. */
  function KeyOrder(a: string, b: string): (c: int)
    ensures ParseDouble(a).Some? == ParseDouble(b).Some? ==> c == KeyCompare(a, b)
    ensures ParseDouble(a).Some? && ParseDouble(b).None? ==> c < 0
    ensures ParseDouble(a).None? && ParseDouble(b).Some? ==> c > 0
  {
    var x, y := ParseDouble(a), ParseDouble(b);
    if x.Some? && y.Some? then RealSign(x.value - y.value)
    else if x.Some? then -1
    else if y.Some? then 1
    else CompareIgnoreCase(a, b)
  }

  lemma {:induction false} KeyOrderAntisymmetric(a: string, b: string)
    ensures KeyOrder(a, b) == -KeyOrder(b, a)
  {
    KeyCompareAntisymmetric(a, b);
  }

  /** KeyOrder is transitive on all sort values, whatever their kinds, so
      the values of the cycle above are ordered by it. */
  lemma {:induction false} KeyOrderTransitive(a: string, b: string, c: string)
    ensures KeyOrder(a, b) <= 0 && KeyOrder(b, c) <= 0 ==> KeyOrder(a, c) <= 0
    ensures KeyOrder(a, b) < 0 && KeyOrder(b, c) <= 0 ==> KeyOrder(a, c) < 0
    ensures KeyOrder(a, b) <= 0 && KeyOrder(b, c) < 0 ==> KeyOrder(a, c) < 0
  {
    if ParseDouble(a).Some? == ParseDouble(b).Some? == ParseDouble(c).Some? {
      KeyCompareTransitive(a, b, c);
    }
  }

  /** KeyOrder puts the values of the cycle in one line: "2", "10", "1a". */
  lemma {:induction false} KeyOrderBreaksCycle()
    ensures KeyOrder("2", "10") < 0 && KeyOrder("10", "1a") < 0 && KeyOrder("2", "1a") < 0
  {
    ComparisonCycle();
    ParseDoubleSamples();
  }

  /** Fractions sort by value: "2.5" before "10". */
  lemma {:induction false} FractionOrder()
    ensures KeyCompare("2.5", "10") < 0
  {
    ParseDoubleFraction();
    ParseDoubleSamples();
  }

  // ---------------------------------------------------------------------------
  // The sort

  /** x placed before the first entry it compares below. */
  function InsertItem(x: Item, s: seq<Item>, descending: bool): (r: seq<Item>)
    ensures multiset(r) == multiset(s) + multiset{x}
    ensures |r| == |s| + 1 && (r[0] == x || (s != [] && r[0] == s[0]))
  {
    if s == [] then [x]
    else if Cmp(x, s[0], descending) < 0 then [x] + s
    else
      assert s == [s[0]] + s[1..];
      [s[0]] + InsertItem(x, s[1..], descending)
  }

  /** List.Sort with the comparison above. */
  function Sort(s: seq<Item>, descending: bool): (r: seq<Item>)
    ensures multiset(r) == multiset(s) && |r| == |s|
  {
    if s == [] then []
    else
      assert s == [s[0]] + s[1..];
      InsertItem(s[0], Sort(s[1..], descending), descending)
  }

  predicate DistinctIndices(s: seq<Item>) {
    forall i, j :: 0 <= i < j < |s| ==> s[i].index != s[j].index
  }

  /** Each entry compares below the next. */
  predicate Chained(s: seq<Item>, descending: bool) {
    forall i :: 0 <= i < |s| - 1 ==> Cmp(s[i], s[i + 1], descending) < 0
  }

  /** Every earlier entry compares below every later one. */
  predicate SortedBy(s: seq<Item>, descending: bool) {
    forall i, j :: 0 <= i < j < |s| ==> Cmp(s[i], s[j], descending) < 0
  }

  /** All sort values parse as numbers, or none does. */
  predicate OneKind(s: seq<Item>) {
    (forall i :: 0 <= i < |s| ==> ParseDouble(s[i].sortValue).Some?)
    || (forall i :: 0 <= i < |s| ==> ParseDouble(s[i].sortValue).None?)
  }

  lemma {:induction false} InsertChained(x: Item, s: seq<Item>, descending: bool)
    requires Chained(s, descending)
    requires forall i :: 0 <= i < |s| ==> s[i].index != x.index
    ensures Chained(InsertItem(x, s, descending), descending)
  {
    if s != [] && Cmp(x, s[0], descending) >= 0 {
      CmpAntisymmetric(x, s[0], descending);
      assert Cmp(s[0], x, descending) < 0;
      InsertChained(x, s[1..], descending);
      var t := InsertItem(x, s[1..], descending);
      assert s[1..] != [] ==> Cmp(s[0], s[1..][0], descending) < 0;
      assert InsertItem(x, s, descending) == [s[0]] + t;
    }
  }

  lemma {:induction false} SortChained(s: seq<Item>, descending: bool)
    requires DistinctIndices(s)
    ensures Chained(Sort(s, descending), descending)
  {
    if s != [] {
      SortChained(s[1..], descending);
      var t := Sort(s[1..], descending);
      forall i | 0 <= i < |t|
        ensures t[i].index != s[0].index
      {
        assert t[i] in multiset(s[1..]);
        var j :| 0 <= j < |s[1..]| && s[1..][j] == t[i];
      }
      InsertChained(s[0], t, descending);
    }
  }

  /** With one kind of sort value, chained entries are sorted. */
  lemma {:induction false} ChainedSorted(s: seq<Item>, descending: bool)
    requires OneKind(s) && Chained(s, descending)
    ensures SortedBy(s, descending)
    decreases |s|
  {
    if |s| >= 2 {
      var t := s[1..];
      assert OneKind(t);
      ChainedSorted(t, descending);
      forall j | 1 < j < |s|
        ensures Cmp(s[0], s[j], descending) < 0
      {
        assert Cmp(s[1], s[j], descending) < 0 by { assert t[0] == s[1] && t[j - 1] == s[j]; }
        CmpTransitive(s[0], s[1], s[j], descending);
      }
    }
  }

  /** The sorted list is a permutation of the input whose entries compare in
      order; with one kind of sort value it is sorted, each value ascending
      (ASC) or descending (DESC), and entries with equal values keep their
      original order under both directions. */
  lemma {:induction false} SortOrder(s: seq<Item>, descending: bool)
    requires DistinctIndices(s) && OneKind(s)
    ensures var r := Sort(s, descending);
            && multiset(r) == multiset(s)
            && SortedBy(r, descending)
            && (forall i, j :: 0 <= i < j < |r| && KeyCompare(r[i].sortValue, r[j].sortValue) == 0
                  ==> r[i].index < r[j].index)
            && (forall i, j :: 0 <= i < j < |r| ==>
                  if descending then KeyCompare(r[i].sortValue, r[j].sortValue) >= 0
                  else KeyCompare(r[i].sortValue, r[j].sortValue) <= 0)
  {
    var r := Sort(s, descending);
    SortChained(s, descending);
    OneKindPermuted(s, r);
    ChainedSorted(r, descending);
  }

  lemma {:induction false} OneKindPermuted(s: seq<Item>, r: seq<Item>)
    requires OneKind(s) && multiset(r) == multiset(s)
    ensures OneKind(r)
  {
    forall i | 0 <= i < |r|
      ensures exists j :: 0 <= j < |s| && s[j] == r[i]
    {
      assert r[i] in multiset(s);
    }
  }

  /** The entries of the input's temporary list have distinct positions. */
  lemma {:induction false} ItemsDistinct(results: seq<Row>, column: nat, headers: seq<string>, selectedColumns: seq<string>)
    requires forall i :: 0 <= i < |results| ==> Fits(results[i], column, headers, selectedColumns)
    ensures DistinctIndices(Items(results, 0, column, headers, selectedColumns))
  {
  }

  lemma {:induction false} InsertSelections(x: Item, s: seq<Item>, descending: bool)
    ensures multiset(Selections(InsertItem(x, s, descending))) == multiset(Selections(s)) + multiset{x.selected}
  {
    if s != [] && Cmp(x, s[0], descending) >= 0 {
      InsertSelections(x, s[1..], descending);
      assert Selections(s) == [s[0].selected] + Selections(s[1..]);
    }
  }

  /** Sorting permutes the selected rows. */
  lemma {:induction false} SortSelections(s: seq<Item>, descending: bool)
    ensures multiset(Selections(Sort(s, descending))) == multiset(Selections(s))
  {
    if s != [] {
      SortSelections(s[1..], descending);
      InsertSelections(s[0], Sort(s[1..], descending), descending);
      assert Selections(s) == [s[0].selected] + Selections(s[1..]);
    }
  }

  // ---------------------------------------------------------------------------
  // ApplyOrderBy

  /** ApplyOrderBy(results, headers, clause, selectedColumns): the results
      unchanged when the clause is unusable; None where building the
      temporary list indexes out of a row; otherwise the rows, sorted,
      re-read on the selected columns. */
  function ApplyOrderBy(results: seq<Row>, headers: seq<string>, orderByClause: string, selectedColumns: seq<string>): (r: Option<seq<Row>>)
    ensures ParseOrderBy(orderByClause, headers).None? ==> r == Some(results)
    ensures var t := ParseOrderBy(orderByClause, headers);
            t.Some? ==> (r.None? <==> exists i :: 0 <= i < |results| && !Fits(results[i], t.value.column, headers, selectedColumns))
    ensures r.Some? ==> |r.value| == |results|
  {
    match ParseOrderBy(orderByClause, headers)
    case None => Some(results)
    case Some(t) =>
      if exists i :: 0 <= i < |results| && !Fits(results[i], t.column, headers, selectedColumns) then None
      else Some(Selections(Sort(Items(results, 0, t.column, headers, selectedColumns), t.descending)))
  }

  /** The ordered rows are a permutation of the input rows re-read on the
      selected columns. */
  lemma {:induction false} OrderByPermutes(results: seq<Row>, headers: seq<string>, orderByClause: string, selectedColumns: seq<string>)
    requires ParseOrderBy(orderByClause, headers).Some?
    requires ApplyOrderBy(results, headers, orderByClause, selectedColumns).Some?
    ensures var t := ParseOrderBy(orderByClause, headers).value;
            multiset(ApplyOrderBy(results, headers, orderByClause, selectedColumns).value)
            == multiset(Selections(Items(results, 0, t.column, headers, selectedColumns)))
  {
    var t := ParseOrderBy(orderByClause, headers).value;
    var items := Items(results, 0, t.column, headers, selectedColumns);
    SortSelections(items, t.descending);
  }

  /** A full SELECT * row list, ordered: every row fits, and re-reading on
      the distinct headers gives the row back, so the result is a
      permutation of the input rows. */
  lemma {:induction false} SelectAllPermutes(results: seq<Row>, headers: seq<string>, orderByClause: string)
    requires ParseOrderBy(orderByClause, headers).Some?
    requires forall i, j :: 0 <= i < j < |headers| ==> headers[i] != headers[j]
    requires forall i :: 0 <= i < |results| ==> |results[i]| == |headers|
    ensures var r := ApplyOrderBy(results, headers, orderByClause, headers);
            r.Some? && multiset(r.value) == multiset(results)
  {
    var t := ParseOrderBy(orderByClause, headers).value;
    forall k | 0 <= k < |headers|
      ensures IndexOf(headers, headers[k]) == k
    {
    }
    forall i | 0 <= i < |results|
      ensures Fits(results[i], t.column, headers, headers)
      ensures Reproject(results[i], headers, headers) == results[i]
    {
    }
    var items := Items(results, 0, t.column, headers, headers);
    assert Selections(items) == results;
    OrderByPermutes(results, headers, orderByClause, headers);
  }

  /** The ordered rows are the selections of a sorted list: with one kind
      of sort value, ties keep their original order and the sort values
      run ascending (ASC) or descending (DESC). */
  lemma {:induction false} OrderByStable(results: seq<Row>, headers: seq<string>, orderByClause: string, selectedColumns: seq<string>)
    requires ParseOrderBy(orderByClause, headers).Some?
    requires ApplyOrderBy(results, headers, orderByClause, selectedColumns).Some?
    requires var t := ParseOrderBy(orderByClause, headers).value;
             OneKind(Items(results, 0, t.column, headers, selectedColumns))
    ensures var t := ParseOrderBy(orderByClause, headers).value;
            var s := Sort(Items(results, 0, t.column, headers, selectedColumns), t.descending);
            && ApplyOrderBy(results, headers, orderByClause, selectedColumns).value == Selections(s)
            && (forall i, j :: 0 <= i < j < |s| && KeyCompare(s[i].sortValue, s[j].sortValue) == 0
                  ==> s[i].index < s[j].index)
            && (forall i, j :: 0 <= i < j < |s| ==>
                  if t.descending then KeyCompare(s[i].sortValue, s[j].sortValue) >= 0
                  else KeyCompare(s[i].sortValue, s[j].sortValue) <= 0)
  {
    var t := ParseOrderBy(orderByClause, headers).value;
    var items := Items(results, 0, t.column, headers, selectedColumns);
    ItemsDistinct(results, t.column, headers, selectedColumns);
    SortOrder(items, t.descending);
  }
}
