/** The WHERE predicate of a SELECT scan (Store.EvaluateWhereClause): one
    clause "column operator literal" read against a decoded row. A clause
    the evaluator cannot use is false for every row, not an error; the only
    failure is a column that lies past the end of the row, where the source
    indexes out of range (None here). */
module Where {
  import opened Text
  import opened Like

  // ---------------------------------------------------------------------------
  // Reading the clause

  /** The tokens of a clause: trailing commas dropped, then the pieces
      between single spaces, empty pieces removed. */
  function Tokens(whereClause: string): seq<string> {
    NonEmpty(Split(TrimEnd(whereClause, {','}), " "))
  }

  /** The first piece that is not blank, or "" when there is none. */
  function FirstNonBlank(xs: seq<string>): (r: string)
    ensures r == "" || (r in xs && !IsBlank(r))
    ensures forall i :: 0 <= i < |xs| && !IsBlank(xs[i]) ==> r != ""
  {
    if xs == [] then ""
    else if !IsBlank(xs[0]) then xs[0]
    else FirstNonBlank(xs[1..])
  }

  /** The value a clause compares, read off a raw field: parentheses
      stripped, the first non-blank piece between ",," separators kept, then
      white space, double quotes and commas trimmed. */
  function Cell(raw: string): string {
    var pieces := Split(Trim(raw, {'(', ')'}), ",,");
    Trim(Trim(TrimWhiteSpace(FirstNonBlank(pieces)), {'"'}), {','})
  }

  /** The literal of a clause: the tokens after the operator joined by
      single spaces, then trimmed of white space and double quotes. */
  function Literal(rest: seq<string>): string {
    Trim(TrimWhiteSpace(Join(rest, " ")), {'"'})
  }

  /** An ordering operator: numeric when both sides parse as doubles,
      otherwise by case-insensitive ordinal comparison. */
  predicate Compared(rel: Relation, cell: string, literal: string) {
    var a, b := ParseDouble(cell), ParseDouble(literal);
    if a.Some? && b.Some? then Holds(rel, RealSign(a.value - b.value))
    else Holds(rel, CompareIgnoreCase(cell, literal))
  }

  /** Fractions compare as numbers: "2.5" is below "10", where the text
      "2.5" sorts above "10". */
  lemma {:induction false} FractionCompared()
    ensures Compared(Less, "2.5", "10") && !Compared(Less, "10", "2.5")
  {
    ParseDoubleFraction();
    ParseDoubleSamples();
  }

  /** The operators of the switch. */
  datatype Op = Equal | NotEqual | Ordering(rel: Relation) | LikeOp | NotOp | Unsupported

  /** The operator an upper-cased operator token names. */
  function OperatorOf(operation: string): Op {
    if operation == "=" then Equal
    else if operation == "<>" then NotEqual
    else if operation == ">" then Ordering(Greater)
    else if operation == "<" then Ordering(Less)
    else if operation == ">=" then Ordering(GreaterOrEqual)
    else if operation == "<=" then Ordering(LessOrEqual)
    else if operation == "LIKE" then LikeOp
    else if operation == "NOT" then NotOp
    else Unsupported
  }

  /** The operator switch, on the upper-cased operator token and the
      tokens after it. NOT reads the first of them as LIKE and the second,
      as it stands, as the pattern. */
  predicate Decide(operation: string, cell: string, rest: seq<string>)
    requires |rest| >= 1
  {
    match OperatorOf(operation)
    case Equal => EqualsIgnoreCase(cell, Literal(rest))
    case NotEqual => !EqualsIgnoreCase(cell, Literal(rest))
    case Ordering(rel) => Compared(rel, cell, Literal(rest))
    case LikeOp => IsWhereLikeMatch(cell, Literal(rest))
    case NotOp => |rest| >= 2 && Upper(rest[0]) == "LIKE" && !IsWhereLikeMatch(cell, rest[1])
    case Unsupported => false
  }

  /** The verdict on a row once the clause is read into tokens. */
  function Judge(headers: seq<string>, values: seq<string>, parts: seq<string>): (r: Option<bool>)
    ensures |parts| < 3 || parts[0] !in headers ==> r == Some(false)
    ensures r.None? <==> |parts| >= 3 && IndexOf(headers, parts[0]) >= |values|
  {
    if |parts| < 3 then Some(false)
    else
      var columnIndex := IndexOf(headers, parts[0]);
      if columnIndex == -1 then Some(false)
      else if columnIndex >= |values| then None
      else Some(Decide(Upper(parts[1]), Cell(values[columnIndex]), parts[2..]))
  }

  /** EvaluateWhereClause(headers, values, clause): Some(verdict) for the
      row, or None where the source fails on a column index past the row.
      The empty clause holds for every row. */
  function EvaluateWhereClause(headers: seq<string>, values: seq<string>, whereClause: string): (r: Option<bool>)
    ensures whereClause == "" ==> r == Some(true)
  {
    if whereClause == "" then Some(true) else Judge(headers, values, Tokens(whereClause))
  }

  // ---------------------------------------------------------------------------
  // Clauses written out as text

  /** A token: non-empty and free of spaces. */
  predicate Word(s: string) {
    s != [] && forall i :: 0 <= i < |s| ==> s[i] != ' '
  }

  /** The clause "column operation x". */
  function Clause(column: string, operation: string, x: string): string {
    column + " " + operation + " " + x
  }

  lemma {:induction false} TrimEndAfter(p: string, x: string, cs: set<char>)
    requires p != [] && p[|p| - 1] !in cs
    ensures TrimEnd(p + x, cs) == p + TrimEnd(x, cs)
    decreases |x|
  {
    if x != [] && x[|x| - 1] in cs {
      assert (p + x)[..|p + x| - 1] == p + x[..|x| - 1];
      TrimEndAfter(p, x[..|x| - 1], cs);
    } else if x == [] {
      assert p + x == p;
    }
  }

  lemma {:induction false} WordClean(w: string)
    requires Word(w)
    ensures Clean(w, " ")
  {
    forall p | 0 <= p < |w| ensures !(" " <= (w + " ")[p..]) {
      assert (w + " ")[p..][0] == w[p];
    }
  }

  lemma {:induction false} NonEmptyAfter(w: string, rest: seq<string>)
    requires w != ""
    ensures NonEmpty([w] + rest) == [w] + NonEmpty(rest)
  {
    assert ([w] + rest)[1..] == rest;
  }

  /** A word followed by a space is read as one token before the tokens of
      what follows. */
  lemma {:induction false} TokensAfterWord(w: string, x: string)
    requires Word(w)
    ensures Tokens(w + " " + x) == [w] + Tokens(x)
  {
    TrimEndAfter(w + " ", x, {','});
    assert w + " " + x == (w + " ") + x;
    WordClean(w);
    SplitClean(w, " ", TrimEnd(x, {','}));
    assert w + " " + TrimEnd(x, {','}) == (w + " ") + TrimEnd(x, {','});
    NonEmptyAfter(w, Split(TrimEnd(x, {','}), " "));
  }

  /** The clause "column operation x" is read as the column token, the
      operator token and the tokens of x. */
  lemma {:induction false} ClauseTokens(column: string, operation: string, x: string)
    requires Word(column) && Word(operation)
    ensures Tokens(Clause(column, operation, x)) == [column, operation] + Tokens(x)
  {
    assert Clause(column, operation, x) == column + " " + (operation + " " + x);
    TokensAfterWord(column, operation + " " + x);
    TokensAfterWord(operation, x);
  }

  /** A clause written out as text is judged on the column token, the
      operator token and the tokens of x. */
  lemma {:induction false} ClauseEvaluates(headers: seq<string>, values: seq<string>, column: string, operation: string, x: string)
    requires Word(column) && Word(operation)
    ensures EvaluateWhereClause(headers, values, Clause(column, operation, x))
         == Judge(headers, values, [column, operation] + Tokens(x))
  {
    ClauseTokens(column, operation, x);
  }

  /** How the tokens [column, operation] + t are judged: false when t is
      empty or the column is unknown, a failure when the column lies past
      the row, and otherwise the operator switch on the column's cell and
      the literal read from t. */
  lemma {:induction false} JudgeTokens(headers: seq<string>, values: seq<string>, column: string, operation: string, t: seq<string>)
    ensures var i := IndexOf(headers, column);
            Judge(headers, values, [column, operation] + t)
            == if t == [] || i == -1 then Some(false)
               else if i >= |values| then None
               else Some(Decide(Upper(operation), Cell(values[i]), t))
  {
    var parts := [column, operation] + t;
    assert parts[0] == column && parts[1] == operation && parts[2..] == t;
  }

  // ---------------------------------------------------------------------------
  // The switch, one operator at a time

  lemma {:induction false} DecideEqual(u: string, cell: string, rest: seq<string>)
    requires u == "=" && |rest| >= 1
    ensures Decide(u, cell, rest) == EqualsIgnoreCase(cell, Literal(rest))
  {
  }

  lemma {:induction false} DecideNotEqual(u: string, cell: string, rest: seq<string>)
    requires u == "<>" && |rest| >= 1
    ensures Decide(u, cell, rest) == !EqualsIgnoreCase(cell, Literal(rest))
  {
  }

  lemma {:induction false} DecideOrdering(u: string, rel: Relation, cell: string, rest: seq<string>)
    requires u == OrderingText(rel) && |rest| >= 1
    ensures Decide(u, cell, rest) == Compared(rel, cell, Literal(rest))
  {
    OrderingOperator(rel);
  }

  lemma {:induction false} DecideLike(u: string, cell: string, rest: seq<string>)
    requires u == "LIKE" && |rest| >= 1
    ensures Decide(u, cell, rest) == IsWhereLikeMatch(cell, Literal(rest))
  {
  }

  lemma {:induction false} DecideNotLike(u: string, cell: string, rest: seq<string>)
    requires u == "NOT" && |rest| >= 1
    ensures Decide(u, cell, rest) == (|rest| >= 2 && Upper(rest[0]) == "LIKE" && !IsWhereLikeMatch(cell, rest[1]))
  {
  }

  /** The text of the four ordering operators. */
  function OrderingText(rel: Relation): string {
    match rel
    case Less => "<"
    case Greater => ">"
    case LessOrEqual => "<="
    case GreaterOrEqual => ">="
  }

  lemma {:induction false} OrderingOperator(rel: Relation)
    ensures OperatorOf(OrderingText(rel)) == Ordering(rel)
  {
    match rel
    case Less =>
    case Greater =>
    case LessOrEqual =>
    case GreaterOrEqual =>
  }

  // ---------------------------------------------------------------------------
  // The operators

  /** "=" (in any case) is case-insensitive equality of the cell and the
      literal. */
  lemma {:induction false} EqualsClause(headers: seq<string>, values: seq<string>, column: string, op: string, x: string)
    requires Word(column) && Word(op) && Upper(op) == "=" && Tokens(x) != []
    requires 0 <= IndexOf(headers, column) < |values|
    ensures EvaluateWhereClause(headers, values, Clause(column, op, x))
         == Some(EqualsIgnoreCase(Cell(values[IndexOf(headers, column)]), Literal(Tokens(x))))
  {
    ClauseEvaluates(headers, values, column, op, x);
    JudgeTokens(headers, values, column, op, Tokens(x));
    DecideEqual(Upper(op), Cell(values[IndexOf(headers, column)]), Tokens(x));
  }

  /** "<>" is exactly the negation of "=": on every row both fail or both
      give a verdict, the verdicts differ whenever the column is known and
      the literal is present, and otherwise both are false. */
  lemma {:induction false} NotEqualsNegates(headers: seq<string>, values: seq<string>, column: string, eqOp: string, neOp: string, x: string)
    requires Word(column) && Word(eqOp) && Word(neOp) && Upper(eqOp) == "=" && Upper(neOp) == "<>"
    ensures var eq := EvaluateWhereClause(headers, values, Clause(column, eqOp, x));
            var ne := EvaluateWhereClause(headers, values, Clause(column, neOp, x));
            && (eq.None? <==> ne.None?)
            && (Tokens(x) != [] && column in headers && eq.Some? ==> ne.value == !eq.value)
            && (Tokens(x) == [] || column !in headers ==> eq == ne == Some(false))
  {
    ClauseEvaluates(headers, values, column, eqOp, x);
    ClauseEvaluates(headers, values, column, neOp, x);
    JudgeTokens(headers, values, column, eqOp, Tokens(x));
    JudgeTokens(headers, values, column, neOp, Tokens(x));
    var i := IndexOf(headers, column);
    if Tokens(x) != [] && 0 <= i < |values| {
      DecideEqual(Upper(eqOp), Cell(values[i]), Tokens(x));
      DecideNotEqual(Upper(neOp), Cell(values[i]), Tokens(x));
    }
  }

  /** The operator token is read without regard to case. */
  lemma {:induction false} OperatorCase(headers: seq<string>, values: seq<string>, column: string, op1: string, op2: string, x: string)
    requires Word(column) && Word(op1) && Word(op2) && Upper(op1) == Upper(op2)
    ensures EvaluateWhereClause(headers, values, Clause(column, op1, x))
         == EvaluateWhereClause(headers, values, Clause(column, op2, x))
  {
    ClauseEvaluates(headers, values, column, op1, x);
    ClauseEvaluates(headers, values, column, op2, x);
    JudgeTokens(headers, values, column, op1, Tokens(x));
    JudgeTokens(headers, values, column, op2, Tokens(x));
  }

  /** On tokens, an ordering operator gives the comparison of the cell with
      the literal. */
  lemma {:induction false} JudgeOrdering(headers: seq<string>, values: seq<string>, column: string, op: string, rel: Relation, t: seq<string>)
    requires Upper(op) == OrderingText(rel) && t != []
    requires 0 <= IndexOf(headers, column) < |values|
    ensures Judge(headers, values, [column, op] + t)
         == Some(Compared(rel, Cell(values[IndexOf(headers, column)]), Literal(t)))
  {
    JudgeTokens(headers, values, column, op, t);
    DecideOrdering(Upper(op), rel, Cell(values[IndexOf(headers, column)]), t);
  }

  /** An ordering operator compares numerically when the cell and the
      literal both parse, and by case-insensitive ordinal order otherwise
      (Compared). */
  lemma {:induction false} OrderingClause(headers: seq<string>, values: seq<string>, column: string, op: string, rel: Relation, x: string)
    requires Word(column) && Word(op) && Upper(op) == OrderingText(rel) && Tokens(x) != []
    requires 0 <= IndexOf(headers, column) < |values|
    ensures EvaluateWhereClause(headers, values, Clause(column, op, x))
         == Some(Compared(rel, Cell(values[IndexOf(headers, column)]), Literal(Tokens(x))))
  {
    ClauseEvaluates(headers, values, column, op, x);
    JudgeOrdering(headers, values, column, op, rel, Tokens(x));
  }

  /** LIKE matches the cell against the literal, anchored and without
      regard to case. */
  lemma {:induction false} LikeClause(headers: seq<string>, values: seq<string>, column: string, op: string, x: string)
    requires Word(column) && Word(op) && Upper(op) == "LIKE" && Tokens(x) != []
    requires 0 <= IndexOf(headers, column) < |values|
    ensures EvaluateWhereClause(headers, values, Clause(column, op, x))
         == Some(IsWhereLikeMatch(Cell(values[IndexOf(headers, column)]), Literal(Tokens(x))))
  {
    ClauseEvaluates(headers, values, column, op, x);
    JudgeTokens(headers, values, column, op, Tokens(x));
    DecideLike(Upper(op), Cell(values[IndexOf(headers, column)]), Tokens(x));
  }

  /** On tokens, NOT followed by a LIKE token negates the match against
      the token after it, and is false when there is none. */
  lemma {:induction false} JudgeNotLike(headers: seq<string>, values: seq<string>, column: string, notOp: string, likeOp: string, t: seq<string>)
    requires Upper(notOp) == "NOT" && Upper(likeOp) == "LIKE"
    requires 0 <= IndexOf(headers, column) < |values|
    ensures Judge(headers, values, [column, notOp] + ([likeOp] + t))
         == Some(t != [] && !IsWhereLikeMatch(Cell(values[IndexOf(headers, column)]), t[0]))
  {
    var rest := [likeOp] + t;
    JudgeTokens(headers, values, column, notOp, rest);
    DecideNotLike(Upper(notOp), Cell(values[IndexOf(headers, column)]), rest);
    assert rest[0] == likeOp;
    if t != [] {
      assert rest[1] == t[0];
    }
  }

  /** NOT LIKE negates the match against the first token after LIKE, taken
      as it stands, and is false when that token is missing. */
  lemma {:induction false} NotLikeClause(headers: seq<string>, values: seq<string>, column: string, notOp: string, likeOp: string, x: string)
    requires Word(column) && Word(notOp) && Word(likeOp) && Upper(notOp) == "NOT" && Upper(likeOp) == "LIKE"
    requires 0 <= IndexOf(headers, column) < |values|
    ensures EvaluateWhereClause(headers, values, Clause(column, notOp, likeOp + " " + x))
         == Some(Tokens(x) != [] && !IsWhereLikeMatch(Cell(values[IndexOf(headers, column)]), Tokens(x)[0]))
  {
    ClauseEvaluates(headers, values, column, notOp, likeOp + " " + x);
    TokensAfterWord(likeOp, x);
    JudgeNotLike(headers, values, column, notOp, likeOp, Tokens(x));
  }

  /** An operator the switch does not know makes the clause false. */
  lemma {:induction false} UnsupportedClause(headers: seq<string>, values: seq<string>, column: string, op: string, x: string)
    requires Word(column) && Word(op)
    requires OperatorOf(Upper(op)) == Unsupported
    requires 0 <= IndexOf(headers, column) < |values|
    ensures EvaluateWhereClause(headers, values, Clause(column, op, x)) == Some(false)
  {
    ClauseEvaluates(headers, values, column, op, x);
    JudgeTokens(headers, values, column, op, Tokens(x));
  }

  /** A word with nothing to trim is its own literal. */
  lemma {:induction false} PlainLiteral(w: string)
    requires Word(w) && !IsWhiteSpace(w[0]) && !IsWhiteSpace(w[|w| - 1])
    requires w[0] != '"' && w[|w| - 1] != '"'
    ensures Literal([w]) == w
  {
    assert TrimWhiteSpaceStart(w) == w;
    assert TrimWhiteSpaceEnd(w) == w;
    assert TrimStart(w, {'"'}) == w;
    assert TrimEnd(w, {'"'}) == w;
  }

  /** For a one-token pattern with nothing to trim, NOT LIKE is the
      negation of LIKE on every row whose column is present. */
  lemma NotLikeNegatesLike(headers: seq<string>, values: seq<string>, column: string, notOp: string, likeOp: string, pattern: string)
    requires Word(column) && Word(notOp) && Word(likeOp) && Upper(notOp) == "NOT" && Upper(likeOp) == "LIKE"
    requires Tokens(pattern) == [pattern]
    requires !IsWhiteSpace(pattern[0]) && !IsWhiteSpace(pattern[|pattern| - 1])
    requires pattern[0] != '"' && pattern[|pattern| - 1] != '"'
    requires 0 <= IndexOf(headers, column) < |values|
    ensures var notLike := EvaluateWhereClause(headers, values, Clause(column, notOp, likeOp + " " + pattern));
            var like := EvaluateWhereClause(headers, values, Clause(column, likeOp, pattern));
            notLike.Some? && like.Some? && notLike.value == !like.value
  {
    assert Word(pattern) by {
      assert pattern in Tokens(pattern);
      SplitPieceNoSpace(TrimEnd(pattern, {','}), pattern);
    }
    LikeClause(headers, values, column, likeOp, pattern);
    NotLikeClause(headers, values, column, notOp, likeOp, pattern);
    PlainLiteral(pattern);
  }

  lemma {:induction false} NonEmptyMember(xs: seq<string>, w: string)
    requires w in NonEmpty(xs)
    ensures w in xs
  {
    if xs != [] {
      if xs[0] == "" || w != xs[0] {
        NonEmptyMember(xs[1..], w);
      }
    }
  }

  /** The pieces of a split on " " hold no space. */
  lemma {:induction false} SplitPieceNoSpace(s: string, w: string)
    requires w in NonEmpty(Split(s, " "))
    ensures Word(w)
    decreases |s|
  {
    NonEmptyMember(Split(s, " "), w);
    SplitNoSpace(s);
  }

  lemma {:induction false} SplitNoSpace(s: string)
    ensures forall w :: w in Split(s, " ") ==> forall i :: 0 <= i < |w| ==> w[i] != ' '
    decreases |s|
  {
    if s != [] {
      SplitNoSpace(s[1..]);
      if !(" " <= s) {
        var rest := Split(s[1..], " ");
        assert s[0] != ' ';
        forall w | w in Split(s, " ") ensures forall i :: 0 <= i < |w| ==> w[i] != ' ' {
          if w != [s[0]] + rest[0] {
            assert w in rest[1..];
          }
        }
      } else {
        SplitNoSpace(s[1..]);
      }
    }
  }
}
