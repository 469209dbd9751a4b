/** String primitives the store relies on from the .NET base library, written out:
    ordinal comparison, ASCII case folding, Split/Join, Trim, IndexOf, the
    decimal text of an integer and the numeric parse used by predicates and
    ORDER BY. */
module Text {

  datatype Option<T> = None | Some(value: T)

  // ---------------------------------------------------------------------------
  // Characters

  /** Upper-case image of a character; case folding is restricted to ASCII. */
  function UpperChar(c: char): char {
    if 'a' <= c <= 'z' then (c as int - 32) as char else c
  }

  function Upper(s: string): (r: string)
    ensures |r| == |s|
    ensures forall i :: 0 <= i < |s| ==> r[i] == UpperChar(s[i])
  {
    if s == [] then [] else [UpperChar(s[0])] + Upper(s[1..])
  }

  /** string.Equals(a, b, StringComparison.OrdinalIgnoreCase) */
  predicate EqualsIgnoreCase(a: string, b: string) {
    Upper(a) == Upper(b)
  }

  /** Char.IsWhiteSpace: the Unicode space separators, line and paragraph
      separators, and the control characters U+0009..U+000D, U+0085. */
  predicate IsWhiteSpace(c: char) {
    || ('\t' <= c <= '\r') || c == ' ' || c == 0x85 as char || c == 0xA0 as char
    || c == 0x1680 as char || (0x2000 as char <= c <= 0x200A as char)
    || c == 0x2028 as char || c == 0x2029 as char || c == 0x202F as char
    || c == 0x205F as char || c == 0x3000 as char
  }

  /** string.IsNullOrWhiteSpace (a .NET null string is not modelled). */
  predicate IsBlank(s: string) {
    forall i :: 0 <= i < |s| ==> IsWhiteSpace(s[i])
  }

  predicate IsDigit(c: char) { '0' <= c <= '9' }

  // ---------------------------------------------------------------------------
  // Prefixes, suffixes, search

  predicate StartsWith(s: string, p: string) { p <= s }

  predicate EndsWith(s: string, p: string) {
    |p| <= |s| && s[|s| - |p|..] == p
  }

  predicate StartsWithIgnoreCase(s: string, p: string) {
    |p| <= |s| && EqualsIgnoreCase(s[..|p|], p)
  }

  /** List<string>.IndexOf / Array.IndexOf: the first position of x, or -1. */
  function IndexOf(xs: seq<string>, x: string): (r: int)
    ensures -1 <= r < |xs|
    ensures r == -1 <==> x !in xs
    ensures r >= 0 ==> xs[r] == x && forall j :: 0 <= j < r ==> xs[j] != x
  {
    if xs == [] then -1
    else if xs[0] == x then 0
    else var r := IndexOf(xs[1..], x); if r == -1 then -1 else r + 1
  }

  // ---------------------------------------------------------------------------
  // Trim

  /** Removes every leading character that belongs to cs. */
  function TrimStart(s: string, cs: set<char>): (r: string)
    ensures |r| <= |s| && (|r| == |s| ==> r == s) && (|r| < |s| ==> r == s[|s| - |r|..])
    ensures r == [] || r[0] !in cs
    ensures forall i :: 0 <= i < |s| - |r| ==> s[i] in cs
  {
    if s != [] && s[0] in cs then TrimStart(s[1..], cs) else s
  }

  /** Removes every trailing character that belongs to cs. */
  function TrimEnd(s: string, cs: set<char>): (r: string)
    ensures |r| <= |s| && (|r| == |s| ==> r == s) && (|r| < |s| ==> r == s[..|r|])
    ensures r == [] || r[|r| - 1] !in cs
    ensures forall i :: |r| <= i < |s| ==> s[i] in cs
  {
    if s != [] && s[|s| - 1] in cs then TrimEnd(s[..|s| - 1], cs) else s
  }

  /** string.Trim(params char[]) */
  /** One character of cs before a text not starting with one is trimmed. */
  lemma {:induction false} TrimStartOne(c: char, s: string, cs: set<char>)
    requires c in cs && s != [] && s[0] !in cs
    ensures TrimStart([c] + s, cs) == s
  {
    assert ([c] + s)[1..] == s;
  }

  /** One character of cs after a text not ending with one is trimmed. */
  lemma {:induction false} TrimEndOne(s: string, c: char, cs: set<char>)
    requires c in cs && s != [] && s[|s| - 1] !in cs
    ensures TrimEnd(s + [c], cs) == s
  {
    assert (s + [c])[..|s|] == s;
  }

  function Trim(s: string, cs: set<char>): string {
    TrimEnd(TrimStart(s, cs), cs)
  }

  function TrimWhiteSpaceStart(s: string): (r: string)
    ensures |r| <= |s| && (|r| == |s| ==> r == s) && (|r| < |s| ==> r == s[|s| - |r|..])
    ensures r == [] || !IsWhiteSpace(r[0])
  {
    if s != [] && IsWhiteSpace(s[0]) then TrimWhiteSpaceStart(s[1..]) else s
  }

  function TrimWhiteSpaceEnd(s: string): (r: string)
    ensures |r| <= |s| && (|r| == |s| ==> r == s) && (|r| < |s| ==> r == s[..|r|])
    ensures r == [] || !IsWhiteSpace(r[|r| - 1])
  {
    if s != [] && IsWhiteSpace(s[|s| - 1]) then TrimWhiteSpaceEnd(s[..|s| - 1]) else s
  }

  /** string.Trim() */
  function TrimWhiteSpace(s: string): string {
    TrimWhiteSpaceEnd(TrimWhiteSpaceStart(s))
  }

  // ---------------------------------------------------------------------------
  // Split and Join

  /** string.Split(sep) with StringSplitOptions.None: the pieces between
      the non-overlapping occurrences of sep found left to right. */
  function Split(s: string, sep: string): (r: seq<string>)
    requires |sep| > 0
    ensures |r| >= 1
    decreases |s|
  {
    if s == [] then [""]
    else if sep <= s then [""] + Split(s[|sep|..], sep)
    else
      var rest := Split(s[1..], sep);
      [[s[0]] + rest[0]] + rest[1..]
  }

  /** string.Join(sep, xs) */
  function Join(xs: seq<string>, sep: string): string {
    if xs == [] then ""
    else if |xs| == 1 then xs[0]
    else xs[0] + sep + Join(xs[1..], sep)
  }

  /** The pieces of s.Split(' ', StringSplitOptions.RemoveEmptyEntries). */
  function NonEmpty(xs: seq<string>): (r: seq<string>)
    ensures |r| <= |xs|
    ensures forall i :: 0 <= i < |r| ==> r[i] != ""
  {
    if xs == [] then []
    else if xs[0] == "" then NonEmpty(xs[1..])
    else [xs[0]] + NonEmpty(xs[1..])
  }

  lemma {:induction false} JoinCons(c: char, x: string, rest: seq<string>, sep: string)
    ensures Join([[c] + x] + rest, sep) == [c] + Join([x] + rest, sep)
  {
    if rest != [] {
      assert ([[c] + x] + rest)[1..] == rest;
      assert ([x] + rest)[1..] == rest;
    }
  }

  /** Splitting and joining again gives back the original text. */
  lemma {:induction false} JoinSplit(s: string, sep: string)
    requires |sep| > 0
    ensures Join(Split(s, sep), sep) == s
    decreases |s|
  {
    if s == [] {
    } else if sep <= s {
      var tail := s[|sep|..];
      JoinSplit(tail, sep);
      var rest := Split(tail, sep);
      assert Split(s, sep) == [""] + rest;
      assert ([""] + rest)[1..] == rest;
      assert Join([""] + rest, sep) == "" + sep + Join(rest, sep);
      assert s == sep + tail;
    } else {
      JoinSplit(s[1..], sep);
      var rest := Split(s[1..], sep);
      assert rest == [rest[0]] + rest[1..];
      JoinCons(s[0], rest[0], rest[1..], sep);
      assert s == [s[0]] + s[1..];
    }
  }

  /** No occurrence of sep starts inside x, even one running into a
      separator written right after x. */
  ghost predicate Clean(x: string, sep: string) {
    forall p :: 0 <= p < |x| ==> !(sep <= (x + sep)[p..])
  }

  lemma {:induction false} CleanTail(c: char, x: string, sep: string)
    requires Clean([c] + x, sep)
    ensures Clean(x, sep)
  {
    forall p | 0 <= p < |x| ensures !(sep <= (x + sep)[p..]) {
      assert (x + sep)[p..] == ([c] + x + sep)[p + 1..];
    }
  }

  lemma {:induction false} SplitClean(x: string, sep: string, rest: string)
    requires |sep| > 0 && Clean(x, sep)
    ensures Split(x + sep + rest, sep) == [x] + Split(rest, sep)
    decreases |x|
  {
    if x == [] {
      assert x + sep + rest == sep + rest;
      assert (sep + rest)[|sep|..] == rest;
    } else {
      var s := x + sep + rest;
      assert (x + sep)[0..] == x + sep;
      assert !(sep <= x + sep);
      assert s[..|sep|] == (x + sep)[..|sep|];
      assert x == [x[0]] + x[1..];
      CleanTail(x[0], x[1..], sep);
      assert s[1..] == x[1..] + sep + rest;
      SplitClean(x[1..], sep, rest);
    }
  }

  lemma {:induction false} SplitCleanLast(x: string, sep: string)
    requires |sep| > 0 && Clean(x, sep)
    ensures Split(x, sep) == [x]
    decreases |x|
  {
    if x != [] {
      assert (x + sep)[0..] == x + sep;
      if |sep| <= |x| {
        assert x[..|sep|] == (x + sep)[..|sep|];
      }
      assert x == [x[0]] + x[1..];
      CleanTail(x[0], x[1..], sep);
      SplitCleanLast(x[1..], sep);
    }
  }

  /** Joining pieces none of which holds the separator, then splitting,
      gives back the pieces. */
  lemma {:induction false} SplitJoin(xs: seq<string>, sep: string)
    requires |sep| > 0 && |xs| >= 1
    requires forall i :: 0 <= i < |xs| ==> Clean(xs[i], sep)
    ensures Split(Join(xs, sep), sep) == xs
  {
    if |xs| == 1 {
      SplitCleanLast(xs[0], sep);
    } else {
      SplitJoin(xs[1..], sep);
      SplitClean(xs[0], sep, Join(xs[1..], sep));
      assert xs == [xs[0]] + xs[1..];
    }
  }

  /** A piece free of ",," whose last character is not ',' can be joined with
      ",," and recovered. */
  lemma {:induction false} DoubleCommaClean(x: string)
    requires forall p :: 0 <= p < |x| - 1 ==> !(x[p] == ',' && x[p + 1] == ',')
    requires x == [] || x[|x| - 1] != ','
    ensures Clean(x, ",,")
  {
    forall p | 0 <= p < |x| ensures !(",," <= (x + ",,")[p..]) {
      var t := x + ",,";
      if p + 1 < |x| {
        assert t[p] == x[p] && t[p + 1] == x[p + 1];
        assert t[p] != ',' || t[p + 1] != ',';
      } else {
        assert t[p] == x[p] != ',';
      }
      assert t[p..][..2] == [t[p], t[p + 1]];
    }
  }

  // ---------------------------------------------------------------------------
  // Ordinal comparison (the model's string.Compare)

  /** Ordinal, lexicographic comparison by character code: -1, 0 or 1. */
  function Compare(a: string, b: string): (r: int)
    ensures -1 <= r <= 1
  {
    if a == [] && b == [] then 0
    else if a == [] then -1
    else if b == [] then 1
    else if a[0] < b[0] then -1
    else if a[0] > b[0] then 1
    else Compare(a[1..], b[1..])
  }

  lemma {:induction false} CompareZero(a: string, b: string)
    ensures Compare(a, b) == 0 <==> a == b
  {
    if a != [] && b != [] && a[0] == b[0] {
      CompareZero(a[1..], b[1..]);
      assert a == [a[0]] + a[1..] && b == [b[0]] + b[1..];
    }
  }

  lemma {:induction false} CompareAntisymmetric(a: string, b: string)
    ensures Compare(a, b) == -Compare(b, a)
  {
    if a != [] && b != [] && a[0] == b[0] {
      CompareAntisymmetric(a[1..], b[1..]);
    }
  }

  lemma {:induction false} CompareTransitive(a: string, b: string, c: string)
    requires Compare(a, b) < 0 && Compare(b, c) < 0
    ensures Compare(a, c) < 0
  {
    if a != [] && b != [] && c != [] && a[0] == b[0] && b[0] == c[0] {
      CompareTransitive(a[1..], b[1..], c[1..]);
    }
  }

  lemma {:induction false} Assoc<T>(a: seq<T>, b: seq<T>, c: seq<T>)
    ensures a + (b + c) == a + b + c
  {
  }

  /** The four range relations of a query, read off a three-way comparison
      result c (or off a difference of integers). */
  datatype Relation = Less | Greater | LessOrEqual | GreaterOrEqual

  predicate Holds(rel: Relation, c: int) {
    match rel
    case Less => c < 0
    case Greater => c > 0
    case LessOrEqual => c <= 0
    case GreaterOrEqual => c >= 0
  }

  /** string.Compare(a, b, StringComparison.OrdinalIgnoreCase) */
  function CompareIgnoreCase(a: string, b: string): int {
    Compare(Upper(a), Upper(b))
  }

  // ---------------------------------------------------------------------------
  // Decimal text and numeric parse

  function DigitChar(d: nat): char
    requires d < 10
  {
    ('0' as int + d) as char
  }

  function DigitValue(c: char): nat
    requires IsDigit(c)
  {
    c as int - '0' as int
  }

  function NatText(n: nat): (r: string)
    ensures |r| >= 1 && forall i :: 0 <= i < |r| ==> IsDigit(r[i])
  {
    if n < 10 then [DigitChar(n)] else NatText(n / 10) + [DigitChar(n % 10)]
  }

  /** Int32.ToString(): the decimal text of an integer. */
  function DecimalText(i: int): (r: string)
    ensures |r| >= 1
  {
    if i < 0 then "-" + NatText(-i) else NatText(i)
  }

  predicate AllDigits(s: string) {
    forall i :: 0 <= i < |s| ==> IsDigit(s[i])
  }

  function DigitsValue(s: string): nat
    requires AllDigits(s)
  {
    if s == [] then 0 else DigitsValue(s[..|s| - 1]) * 10 + DigitValue(s[|s| - 1])
  }

  /** The numeric parse used by comparisons and ORDER BY: an optional sign
      followed by one or more decimal digits. */
  function ParseNumber(s: string): Option<int> {
    if |s| >= 2 && s[0] == '-' && AllDigits(s[1..]) then Some(0 - DigitsValue(s[1..]) as int)
    else if |s| >= 2 && s[0] == '+' && AllDigits(s[1..]) then Some(DigitsValue(s[1..]))
    else if |s| >= 1 && AllDigits(s) then Some(DigitsValue(s))
    else None
  }

  /** The first position of c in s, or -1. */
  function CharIndex(s: string, c: char): (r: int)
    ensures -1 <= r < |s|
    ensures r == -1 <==> c !in s
    ensures r >= 0 ==> s[r] == c && c !in s[..r]
  {
    if s == [] then -1
    else if s[0] == c then 0
    else var r := CharIndex(s[1..], c); if r == -1 then -1 else r + 1
  }

  /** The value of the digits after a decimal point. */
  function FractionValue(s: string): real
    requires AllDigits(s)
  {
    if s == [] then 0.0 else (DigitValue(s[0]) as real + FractionValue(s[1..])) / 10.0
  }

  /** Digits with at most one decimal point and at least one digit:
      "12", "12.5", "12." and ".5". */
  function UnsignedDouble(s: string): Option<real> {
    var dot := CharIndex(s, '.');
    if dot == -1 then
      if s != [] && AllDigits(s) then Some(DigitsValue(s) as real) else None
    else
      var whole, fraction := s[..dot], s[dot + 1..];
      if (whole != [] || fraction != []) && AllDigits(whole) && AllDigits(fraction) then
        Some(DigitsValue(whole) as real + FractionValue(fraction))
      else None
  }

  /** double.TryParse on invariant-culture decimal text: an optional sign
      before the unsigned form above, read as an exact rational. */
  function ParseDouble(s: string): Option<real> {
    if s != [] && (s[0] == '-' || s[0] == '+') then
      match UnsignedDouble(s[1..])
      case Some(v) => Some(if s[0] == '-' then -v else v)
      case None => None
    else UnsignedDouble(s)
  }

  /** Every integer text ParseNumber reads, double.TryParse reads to the
      same value. */
  lemma {:induction false} ParseDoubleExtends(s: string)
    requires ParseNumber(s).Some?
    ensures ParseDouble(s) == Some(ParseNumber(s).value as real)
  {
    if s[0] == '-' || s[0] == '+' {
      assert '.' !in s[1..] by { assert forall i :: 0 <= i < |s[1..]| ==> IsDigit(s[1..][i]); }
    } else {
      assert '.' !in s by { assert forall i :: 0 <= i < |s| ==> IsDigit(s[i]); }
    }
  }

  /** A fraction reads as its exact value. */
  lemma {:induction false} ParseDoubleFraction()
    ensures ParseDouble("2.5") == Some(2.5)
  {
    assert CharIndex("2.5", '.') == 1 by { assert "2.5"[..1] == "2"; }
    assert "2.5"[..1] == "2" && "2.5"[2..] == "5";
    assert DigitsValue("2") == 2 && FractionValue("5") == 0.5;
  }

  /** The texts of the comparison examples: two numbers and a word. */
  lemma {:induction false} ParseDoubleSamples()
    ensures ParseDouble("2") == Some(2.0) && ParseDouble("9") == Some(9.0) && ParseDouble("10") == Some(10.0)
    ensures ParseDouble("1a").None?
  {
    assert ParseNumber("2") == Some(2) by { assert DigitsValue("2") == 2; }
    assert ParseNumber("10") == Some(10) by {
      assert "10"[..1] == "1";
      assert DigitsValue("10") == 10;
    }
    assert ParseNumber("9") == Some(9) by { assert DigitsValue("9") == 9; }
    ParseDoubleExtends("2");
    ParseDoubleExtends("9");
    ParseDoubleExtends("10");
    assert !IsDigit("1a"[1]) && '.' !in "1a";
  }

  /** -1, 0 or 1 as d is below, at or above zero. */
  function RealSign(d: real): int {
    if d < 0.0 then -1 else if d > 0.0 then 1 else 0
  }

  lemma {:induction false} NatTextValue(n: nat)
    ensures DigitsValue(NatText(n)) == n
  {
    if n >= 10 {
      NatTextValue(n / 10);
      var t := NatText(n / 10) + [DigitChar(n % 10)];
      assert t[..|t| - 1] == NatText(n / 10);
    }
  }

  /** The decimal text of every integer parses back to that integer. */
  lemma {:induction false} ParseDecimalText(i: int)
    ensures ParseNumber(DecimalText(i)) == Some(i)
  {
    if i < 0 {
      NatTextValue(-i);
      assert DecimalText(i)[1..] == NatText(-i);
    } else {
      NatTextValue(i);
    }
  }
}
