/** BSTIndex: an unbalanced binary search tree from a string key to a row
    position. The tree is a value; InsertRec returns the new subtree root, as
    the source's InsertRec does, and each range or LIKE walk threads the
    shared result list through the recursion as an accumulator. Key order is
    the ordinal Text.Compare. */
module Bst {
  import opened Text
  import opened Like

  datatype Tree = Nil | Node(key: string, value: int, left: Tree, right: Tree)

  datatype Entry = Entry(key: string, value: int)

  // ---------------------------------------------------------------------------
  // Views of a tree

  function Keys(t: Tree): set<string> {
    match t
    case Nil => {}
    case Node(k, _, l, r) => Keys(l) + {k} + Keys(r)
  }

  /** Every key in t stands in relation rel to bound. */
  predicate Bounded(t: Tree, rel: Relation, bound: string) {
    match t
    case Nil => true
    case Node(k, _, l, r) => Holds(rel, Compare(k, bound)) && Bounded(l, rel, bound) && Bounded(r, rel, bound)
  }

  /** The ordering invariant: left keys compare below the node's key, right
      keys above it, in every node. */
  ghost predicate Ordered(t: Tree) {
    match t
    case Nil => true
    case Node(k, _, l, r) => Ordered(l) && Ordered(r) && Bounded(l, Less, k) && Bounded(r, Greater, k)
  }

  /** The stored key/position pairs as a map (keys are unique in an ordered tree). */
  ghost function AsMap(t: Tree): map<string, int> {
    match t
    case Nil => map[]
    case Node(k, v, l, r) => (AsMap(l) + AsMap(r))[k := v]
  }

  function InOrder(t: Tree): seq<Entry> {
    match t
    case Nil => []
    case Node(k, v, l, r) => InOrder(l) + [Entry(k, v)] + InOrder(r)
  }

  ghost predicate Ascending(es: seq<Entry>) {
    forall i, j :: 0 <= i < j < |es| ==> Compare(es[i].key, es[j].key) < 0
  }


  /** Reference definition of a range query: the positions of every node whose
      key stands in relation rel to bound, visiting the whole tree in order. */
  function InRange(t: Tree, rel: Relation, bound: string): seq<int> {
    match t
    case Nil => []
    case Node(k, v, l, r) =>
      InRange(l, rel, bound) + (if Holds(rel, Compare(k, bound)) then [v] else []) + InRange(r, rel, bound)
  }

  /** Reference definition of a LIKE (want) or NOT LIKE (!want) query: the
      positions of every node whose key's match against the pattern is want,
      visiting the whole tree node-first. */
  function Matching(t: Tree, pattern: string, want: bool): seq<int> {
    match t
    case Nil => []
    case Node(k, v, l, r) =>
      (if IsLikeMatch(k, pattern) == want then [v] else []) + Matching(l, pattern, want) + Matching(r, pattern, want)
  }

  /** Every stored position, in key order. */
  function Values(t: Tree): seq<int> {
    match t
    case Nil => []
    case Node(_, v, l, r) => Values(l) + [v] + Values(r)
  }

  // ---------------------------------------------------------------------------
  // The operations of BSTIndex

  /** InsertRec: descend by comparison; an equal key leaves the subtree as it is. */
  function InsertRec(root: Tree, key: string, value: int): (r: Tree)
    ensures Keys(r) == Keys(root) + {key}
  {
    match root
    case Nil => Node(key, value, Nil, Nil)
    case Node(k, v, l, rt) =>
      if Compare(key, k) < 0 then Node(k, v, InsertRec(l, key, value), rt)
      else if Compare(key, k) > 0 then Node(k, v, l, InsertRec(rt, key, value))
      else (CompareZero(key, k); root)
  }

  /** SearchRec: stop at an equal key or an empty subtree (-1). */
  function SearchRec(root: Tree, key: string): int {
    match root
    case Nil => -1
    case Node(k, v, l, r) =>
      if k == key then v
      else if Compare(key, k) < 0 then SearchRec(l, key)
      else SearchRec(r, key)
  }

  function SearchLessThanRec(node: Tree, key: string, result: seq<int>): seq<int> {
    match node
    case Nil => result
    case Node(k, v, l, r) =>
      if Compare(key, k) <= 0 then SearchLessThanRec(l, key, result)
      else SearchLessThanRec(r, key, SearchLessThanRec(l, key, result) + [v])
  }

  function SearchGreaterThanRec(node: Tree, key: string, result: seq<int>): seq<int> {
    match node
    case Nil => result
    case Node(k, v, l, r) =>
      if Compare(key, k) >= 0 then SearchGreaterThanRec(r, key, result)
      else SearchGreaterThanRec(r, key, SearchGreaterThanRec(l, key, result) + [v])
  }

  function SearchLessThanOrEqualRec(node: Tree, key: string, result: seq<int>): seq<int> {
    match node
    case Nil => result
    case Node(k, v, l, r) =>
      if Compare(key, k) < 0 then SearchLessThanOrEqualRec(l, key, result)
      else SearchLessThanOrEqualRec(r, key, SearchLessThanOrEqualRec(l, key, result) + [v])
  }

  function SearchGreaterThanOrEqualRec(node: Tree, key: string, result: seq<int>): seq<int> {
    match node
    case Nil => result
    case Node(k, v, l, r) =>
      if Compare(key, k) > 0 then SearchGreaterThanOrEqualRec(r, key, result)
      else SearchGreaterThanOrEqualRec(r, key, SearchGreaterThanOrEqualRec(l, key, result) + [v])
  }

  function SearchLikeRec(node: Tree, pattern: string, result: seq<int>): seq<int> {
    match node
    case Nil => result
    case Node(k, v, l, r) =>
      var here := if IsLikeMatch(k, pattern) then result + [v] else result;
      SearchLikeRec(r, pattern, SearchLikeRec(l, pattern, here))
  }

  function SearchNotLikeRec(node: Tree, pattern: string, result: seq<int>): seq<int> {
    match node
    case Nil => result
    case Node(k, v, l, r) =>
      var here := if !IsLikeMatch(k, pattern) then result + [v] else result;
      SearchNotLikeRec(r, pattern, SearchNotLikeRec(l, pattern, here))
  }

  // ---------------------------------------------------------------------------
  // Bounds on the keys of a subtree

  lemma {:induction false} BoundedMember(t: Tree, rel: Relation, bound: string, x: string)
    requires Bounded(t, rel, bound) && x in Keys(t)
    ensures Holds(rel, Compare(x, bound))
  {
    match t
    case Node(k, _, l, r) =>
      if x in Keys(l) { BoundedMember(l, rel, bound, x); }
      else if x in Keys(r) { BoundedMember(r, rel, bound, x); }
  }

  lemma {:induction false} BoundedInOrder(t: Tree, rel: Relation, bound: string)
    requires Bounded(t, rel, bound)
    ensures forall i :: 0 <= i < |InOrder(t)| ==> Holds(rel, Compare(InOrder(t)[i].key, bound))
  {
    match t
    case Nil =>
    case Node(k, v, l, r) =>
      BoundedInOrder(l, rel, bound);
      BoundedInOrder(r, rel, bound);
      var es := InOrder(t);
      var nl := |InOrder(l)|;
      forall i | 0 <= i < |es| ensures Holds(rel, Compare(es[i].key, bound)) {
        if i < nl { assert es[i] == InOrder(l)[i]; }
        else if i > nl { assert es[i] == InOrder(r)[i - nl - 1]; }
      }
  }

  lemma {:induction false} BoundedInsert(t: Tree, rel: Relation, bound: string, key: string, value: int)
    requires Bounded(t, rel, bound) && Holds(rel, Compare(key, bound))
    ensures Bounded(InsertRec(t, key, value), rel, bound)
  {
    match t
    case Nil =>
    case Node(k, v, l, r) =>
      if Compare(key, k) < 0 {
        BoundedInsert(l, rel, bound, key, value);
      } else if Compare(key, k) > 0 {
        BoundedInsert(r, rel, bound, key, value);
      }
  }

  /** Keys below k stay below any bound at or above k. */
  lemma {:induction false} ShiftBelow(t: Tree, k: string, bound: string)
    requires Bounded(t, Less, k) && Compare(k, bound) <= 0
    ensures Bounded(t, Less, bound)
  {
    match t
    case Nil =>
    case Node(x, _, l, r) =>
      ShiftBelow(l, k, bound);
      ShiftBelow(r, k, bound);
      if Compare(k, bound) < 0 { CompareTransitive(x, k, bound); } else { CompareZero(k, bound); }
  }

  /** Keys above k stay above any bound at or below k. */
  lemma {:induction false} ShiftAbove(t: Tree, k: string, bound: string)
    requires Bounded(t, Greater, k) && Compare(k, bound) >= 0
    ensures Bounded(t, Greater, bound)
  {
    match t
    case Nil =>
    case Node(x, _, l, r) =>
      ShiftAbove(l, k, bound);
      ShiftAbove(r, k, bound);
      CompareAntisymmetric(x, k);
      CompareAntisymmetric(x, bound);
      CompareAntisymmetric(k, bound);
      if Compare(k, bound) > 0 { CompareTransitive(bound, k, x); } else { CompareZero(k, bound); }
  }

  // ---------------------------------------------------------------------------
  // Insert

  lemma {:induction false} InsertOrdered(t: Tree, key: string, value: int)
    requires Ordered(t)
    ensures Ordered(InsertRec(t, key, value))
  {
    match t
    case Nil =>
    case Node(k, v, l, r) =>
      if Compare(key, k) < 0 {
        InsertOrdered(l, key, value);
        BoundedInsert(l, Less, k, key, value);
      } else if Compare(key, k) > 0 {
        InsertOrdered(r, key, value);
        BoundedInsert(r, Greater, k, key, value);
      }
  }

  /** Inserting a key already present leaves the tree unchanged, so the first
      position stored under a key is the one kept. */
  lemma {:induction false} InsertPresent(t: Tree, key: string, value: int)
    requires Ordered(t) && key in Keys(t)
    ensures InsertRec(t, key, value) == t
  {
    match t
    case Node(k, v, l, r) =>
      CompareZero(key, k);
      CompareAntisymmetric(key, k);
      if Compare(key, k) < 0 {
        if key in Keys(r) { BoundedMember(r, Greater, k, key); }
        InsertPresent(l, key, value);
      } else if Compare(key, k) > 0 {
        if key in Keys(l) { BoundedMember(l, Less, k, key); }
        InsertPresent(r, key, value);
      }
  }

  lemma {:induction false} MapKeys(t: Tree)
    ensures AsMap(t).Keys == Keys(t)
  {
    match t
    case Nil =>
    case Node(k, v, l, r) =>
      MapKeys(l);
      MapKeys(r);
  }

  /** A new key below the node's key lands in the left part of the map. */
  lemma {:induction false} UpdateLeft(a: map<string, int>, b: map<string, int>, k: string, v: int, key: string, value: int)
    requires key !in b && key != k
    ensures (a[key := value] + b)[k := v] == ((a + b)[k := v])[key := value]
  {
  }

  /** A new key above the node's key lands in the right part of the map. */
  lemma {:induction false} UpdateRight(a: map<string, int>, b: map<string, int>, k: string, v: int, key: string, value: int)
    requires key != k
    ensures (a + b[key := value])[k := v] == ((a + b)[k := v])[key := value]
  {
  }

  lemma {:induction false} InsertNew(t: Tree, key: string, value: int)
    requires Ordered(t) && key !in Keys(t)
    ensures AsMap(InsertRec(t, key, value)) == AsMap(t)[key := value]
  {
    if t.Node? {
      var k, v, l, r := t.key, t.value, t.left, t.right;
      assert key != k;
      CompareZero(key, k);
      if Compare(key, k) < 0 {
        InsertNew(l, key, value);
        MapKeys(r);
        CompareAntisymmetric(key, k);
        if key in Keys(r) { BoundedMember(r, Greater, k, key); }
        UpdateLeft(AsMap(l), AsMap(r), k, v, key, value);
      } else {
        InsertNew(r, key, value);
        UpdateRight(AsMap(l), AsMap(r), k, v, key, value);
      }
    }
  }

  /** Insert adds the pair when the key is new and changes nothing otherwise. */
  lemma {:induction false} InsertMap(t: Tree, key: string, value: int)
    requires Ordered(t)
    ensures AsMap(InsertRec(t, key, value))
         == if key in AsMap(t) then AsMap(t) else AsMap(t)[key := value]
  {
    MapKeys(t);
    if key in Keys(t) {
      InsertPresent(t, key, value);
    } else {
      InsertNew(t, key, value);
    }
  }

  // ---------------------------------------------------------------------------
  // Search

  /** Search returns the position stored under the key, or -1 when the key
      is absent (in particular in the empty tree). */
  lemma {:induction false} SearchFinds(t: Tree, key: string)
    requires Ordered(t)
    ensures SearchRec(t, key) == if key in AsMap(t) then AsMap(t)[key] else -1
  {
    MapKeys(t);
    match t
    case Nil =>
    case Node(k, v, l, r) =>
      MapKeys(l);
      MapKeys(r);
      if k != key {
        CompareZero(key, k);
        CompareAntisymmetric(key, k);
        if Compare(key, k) < 0 {
          SearchFinds(l, key);
          if key in Keys(r) { BoundedMember(r, Greater, k, key); }
        } else {
          SearchFinds(r, key);
          if key in Keys(l) { BoundedMember(l, Less, k, key); }
        }
      }
  }

  // ---------------------------------------------------------------------------
  // Order of the stored keys

  lemma {:induction false} InOrderAscending(t: Tree)
    requires Ordered(t)
    ensures Ascending(InOrder(t))
  {
    match t
    case Nil =>
    case Node(k, v, l, r) =>
      InOrderAscending(l);
      InOrderAscending(r);
      BoundedInOrder(l, Less, k);
      BoundedInOrder(r, Greater, k);
      JoinAscending(InOrder(l), k, v, InOrder(r));
  }

  lemma {:induction false} JoinAscending(a: seq<Entry>, k: string, v: int, b: seq<Entry>)
    requires Ascending(a) && Ascending(b)
    requires forall i :: 0 <= i < |a| ==> Holds(Less, Compare(a[i].key, k))
    requires forall i :: 0 <= i < |b| ==> Holds(Greater, Compare(b[i].key, k))
    ensures Ascending(a + [Entry(k, v)] + b)
  {
    var es := a + [Entry(k, v)] + b;
    var n := |a|;
    forall i, j | 0 <= i < j < |es| ensures Compare(es[i].key, es[j].key) < 0 {
      if i < n && j == n {
        assert es[i] == a[i];
      } else if i < n && j > n {
        assert es[i] == a[i] && es[j] == b[j - n - 1];
        CompareAntisymmetric(es[j].key, k);
        CompareTransitive(es[i].key, k, es[j].key);
      } else if i == n {
        assert es[j] == b[j - n - 1];
        CompareAntisymmetric(es[j].key, k);
      } else if j < n {
        assert es[i] == a[i] && es[j] == a[j];
      } else {
        assert es[i] == b[i - n - 1] && es[j] == b[j - n - 1];
      }
    }
  }

  /** Relations no key can satisfy together. */
  predicate Disjoint(rel: Relation, other: Relation) {
    match rel
    case Less => other == Greater || other == GreaterOrEqual
    case LessOrEqual => other == Greater
    case Greater => other == Less || other == LessOrEqual
    case GreaterOrEqual => other == Less
  }

  /** rel implies other for every key. */
  predicate Implies(rel: Relation, other: Relation) {
    rel == other || (rel == Less && other == LessOrEqual) || (rel == Greater && other == GreaterOrEqual)
  }

  lemma {:induction false} RangeNone(t: Tree, rel: Relation, other: Relation, bound: string)
    requires Bounded(t, rel, bound) && Disjoint(rel, other)
    ensures InRange(t, other, bound) == []
  {
    match t
    case Nil =>
    case Node(k, v, l, r) =>
      RangeNone(l, rel, other, bound);
      RangeNone(r, rel, other, bound);
  }

  lemma {:induction false} RangeAll(t: Tree, rel: Relation, other: Relation, bound: string)
    requires Bounded(t, rel, bound) && Implies(rel, other)
    ensures InRange(t, other, bound) == Values(t)
  {
    match t
    case Nil =>
    case Node(k, v, l, r) =>
      RangeAll(l, rel, other, bound);
      RangeAll(r, rel, other, bound);
  }

  lemma {:induction false} Regroup(a: seq<int>, b: seq<int>, c: seq<int>)
    ensures a + b + c == a + (b + c)
  {
  }

  lemma {:induction false} Regroup4(a: seq<int>, b: seq<int>, c: seq<int>, d: seq<int>)
    ensures a + (b + c + d) == a + b + c + d
  {
  }

  // ---------------------------------------------------------------------------
  // The four range walks visit only what they must and miss nothing

  /** SearchLessThan(k) returns exactly the positions whose key is < k, in
      key order. */
  lemma {:induction false} LessThanExact(t: Tree, key: string, result: seq<int>)
    requires Ordered(t)
    ensures SearchLessThanRec(t, key, result) == result + InRange(t, Less, key)
  {
    if t.Node? {
      var k, v, l, r := t.key, t.value, t.left, t.right;
      CompareAntisymmetric(key, k);
      LessThanExact(l, key, result);
      if Compare(key, k) <= 0 {
        ShiftAbove(r, k, key);
        RangeNone(r, Greater, Less, key);
        assert InRange(t, Less, key) == InRange(l, Less, key) + [] + [];
      } else {
        var w := SearchLessThanRec(l, key, result) + [v];
        LessThanExact(r, key, w);
        Regroup4(result, InRange(l, Less, key), [v], InRange(r, Less, key));
      }
    }
  }

  /** SearchGreaterThan(k) returns exactly the positions whose key is > k, in
      key order. */
  lemma {:induction false} GreaterThanExact(t: Tree, key: string, result: seq<int>)
    requires Ordered(t)
    ensures SearchGreaterThanRec(t, key, result) == result + InRange(t, Greater, key)
  {
    if t.Node? {
      var k, v, l, r := t.key, t.value, t.left, t.right;
      CompareAntisymmetric(key, k);
      if Compare(key, k) >= 0 {
        ShiftBelow(l, k, key);
        RangeNone(l, Less, Greater, key);
        GreaterThanExact(r, key, result);
        assert InRange(t, Greater, key) == [] + [] + InRange(r, Greater, key);
      } else {
        GreaterThanExact(l, key, result);
        var w := SearchGreaterThanRec(l, key, result) + [v];
        GreaterThanExact(r, key, w);
        Regroup4(result, InRange(l, Greater, key), [v], InRange(r, Greater, key));
      }
    }
  }

  /** SearchLessThanOrEqual(k) returns exactly the positions whose key is
      <= k, in key order. */
  lemma {:induction false} LessThanOrEqualExact(t: Tree, key: string, result: seq<int>)
    requires Ordered(t)
    ensures SearchLessThanOrEqualRec(t, key, result) == result + InRange(t, LessOrEqual, key)
  {
    if t.Node? {
      var k, v, l, r := t.key, t.value, t.left, t.right;
      CompareAntisymmetric(key, k);
      LessThanOrEqualExact(l, key, result);
      if Compare(key, k) < 0 {
        ShiftAbove(r, k, key);
        RangeNone(r, Greater, LessOrEqual, key);
        assert InRange(t, LessOrEqual, key) == InRange(l, LessOrEqual, key) + [] + [];
      } else {
        var w := SearchLessThanOrEqualRec(l, key, result) + [v];
        LessThanOrEqualExact(r, key, w);
        Regroup4(result, InRange(l, LessOrEqual, key), [v], InRange(r, LessOrEqual, key));
      }
    }
  }

  /** SearchGreaterThanOrEqual(k) returns exactly the positions whose key is
      >= k, in key order. */
  lemma {:induction false} GreaterThanOrEqualExact(t: Tree, key: string, result: seq<int>)
    requires Ordered(t)
    ensures SearchGreaterThanOrEqualRec(t, key, result) == result + InRange(t, GreaterOrEqual, key)
  {
    if t.Node? {
      var k, v, l, r := t.key, t.value, t.left, t.right;
      CompareAntisymmetric(key, k);
      if Compare(key, k) > 0 {
        ShiftBelow(l, k, key);
        RangeNone(l, Less, GreaterOrEqual, key);
        GreaterThanOrEqualExact(r, key, result);
        assert InRange(t, GreaterOrEqual, key) == [] + [] + InRange(r, GreaterOrEqual, key);
      } else {
        GreaterThanOrEqualExact(l, key, result);
        var w := SearchGreaterThanOrEqualRec(l, key, result) + [v];
        GreaterThanOrEqualExact(r, key, w);
        Regroup4(result, InRange(l, GreaterOrEqual, key), [v], InRange(r, GreaterOrEqual, key));
      }
    }
  }


  /** In an ordered tree, the keys below a bound and the keys at or above it
      (or at or below it and above it) split the in-order positions into a
      prefix and a suffix. */
  lemma {:induction false} SplitAtBound(t: Tree, bound: string, below: Relation, above: Relation)
    requires Ordered(t)
    requires (below, above) == (Less, GreaterOrEqual) || (below, above) == (LessOrEqual, Greater)
    ensures InRange(t, below, bound) + InRange(t, above, bound) == Values(t)
  {
    if t.Node? {
      if Holds(below, Compare(t.key, bound)) {
        SplitAtBound(t.right, bound, below, above);
        SplitRight(t, bound, below, above);
      } else {
        SplitAtBound(t.left, bound, below, above);
        SplitLeft(t, bound, below, above);
      }
    }
  }

  /** The node and its whole left subtree are on the lower side. */
  lemma {:induction false} SplitRight(t: Tree, bound: string, below: Relation, above: Relation)
    requires t.Node? && Ordered(t) && Holds(below, Compare(t.key, bound))
    requires (below, above) == (Less, GreaterOrEqual) || (below, above) == (LessOrEqual, Greater)
    requires InRange(t.right, below, bound) + InRange(t.right, above, bound) == Values(t.right)
    ensures InRange(t, below, bound) + InRange(t, above, bound) == Values(t)
  {
    var k, v, l, r := t.key, t.value, t.left, t.right;
    ShiftBelow(l, k, bound);
    RangeAll(l, Less, below, bound);
    RangeNone(l, Less, above, bound);
    CompareAntisymmetric(k, bound);
    assert InRange(t, above, bound) == InRange(r, above, bound);
    Regroup(Values(l) + [v], InRange(r, below, bound), InRange(r, above, bound));
  }

  /** The node and its whole right subtree are on the upper side. */
  lemma {:induction false} SplitLeft(t: Tree, bound: string, below: Relation, above: Relation)
    requires t.Node? && Ordered(t) && !Holds(below, Compare(t.key, bound))
    requires (below, above) == (Less, GreaterOrEqual) || (below, above) == (LessOrEqual, Greater)
    requires InRange(t.left, below, bound) + InRange(t.left, above, bound) == Values(t.left)
    ensures InRange(t, below, bound) + InRange(t, above, bound) == Values(t)
  {
    var k, v, l, r := t.key, t.value, t.left, t.right;
    CompareAntisymmetric(k, bound);
    ShiftAbove(r, k, bound);
    RangeAll(r, Greater, above, bound);
    RangeNone(r, Greater, below, bound);
    assert Holds(above, Compare(k, bound));
    assert InRange(t, below, bound) == InRange(l, below, bound) + [] + [];
    assert InRange(l, below, bound) + [] + [] == InRange(l, below, bound);
    assert InRange(t, above, bound) == InRange(l, above, bound) + [v] + Values(r);
    Regroup(InRange(l, above, bound), [v], Values(r));
    Regroup(Values(l), [v], Values(r));
    Regroup(InRange(l, below, bound), InRange(l, above, bound), [v] + Values(r));
  }

  /** SearchLessThan(k) followed by SearchGreaterThanOrEqual(k) lists every
      stored position exactly once, in key order. */
  lemma {:induction false} LessThanPartition(t: Tree, key: string)
    requires Ordered(t)
    ensures SearchLessThanRec(t, key, []) + SearchGreaterThanOrEqualRec(t, key, []) == Values(t)
  {
    LessThanExact(t, key, []);
    GreaterThanOrEqualExact(t, key, []);
    SplitAtBound(t, key, Less, GreaterOrEqual);
  }

  /** SearchLessThanOrEqual(k) followed by SearchGreaterThan(k) lists every
      stored position exactly once, in key order. */
  lemma {:induction false} LessThanOrEqualPartition(t: Tree, key: string)
    requires Ordered(t)
    ensures SearchLessThanOrEqualRec(t, key, []) + SearchGreaterThanRec(t, key, []) == Values(t)
  {
    LessThanOrEqualExact(t, key, []);
    GreaterThanExact(t, key, []);
    SplitAtBound(t, key, LessOrEqual, Greater);
  }

  // ---------------------------------------------------------------------------
  // LIKE and NOT LIKE

  /** SearchLike(p) returns exactly the positions whose key matches p. */
  lemma {:induction false} LikeExact(t: Tree, pattern: string, result: seq<int>)
    ensures SearchLikeRec(t, pattern, result) == result + Matching(t, pattern, true)
  {
    if t.Node? {
      var k, v, l, r := t.key, t.value, t.left, t.right;
      var mine: seq<int> := if IsLikeMatch(k, pattern) then [v] else [];
      var here := if IsLikeMatch(k, pattern) then result + [v] else result;
      assert here == result + mine;
      assert SearchLikeRec(t, pattern, result) == SearchLikeRec(r, pattern, SearchLikeRec(l, pattern, here));
      assert Matching(t, pattern, true) == mine + Matching(l, pattern, true) + Matching(r, pattern, true);
      LikeExact(l, pattern, here);
      LikeExact(r, pattern, SearchLikeRec(l, pattern, here));
      Append3(result, mine, Matching(l, pattern, true), Matching(r, pattern, true));
    }
  }

  /** SearchNotLike(p) returns exactly the positions whose key does not match p. */
  lemma {:induction false} NotLikeExact(t: Tree, pattern: string, result: seq<int>)
    ensures SearchNotLikeRec(t, pattern, result) == result + Matching(t, pattern, false)
  {
    if t.Node? {
      var k, v, l, r := t.key, t.value, t.left, t.right;
      var mine: seq<int> := if !IsLikeMatch(k, pattern) then [v] else [];
      var here := if !IsLikeMatch(k, pattern) then result + [v] else result;
      assert here == result + mine;
      assert SearchNotLikeRec(t, pattern, result) == SearchNotLikeRec(r, pattern, SearchNotLikeRec(l, pattern, here));
      assert Matching(t, pattern, false) == mine + Matching(l, pattern, false) + Matching(r, pattern, false);
      NotLikeExact(l, pattern, here);
      NotLikeExact(r, pattern, SearchNotLikeRec(l, pattern, here));
      Append3(result, mine, Matching(l, pattern, false), Matching(r, pattern, false));
    }
  }

  lemma {:induction false} Append3(a: seq<int>, b: seq<int>, c: seq<int>, d: seq<int>)
    ensures a + b + c + d == a + (b + c + d)
  {
  }

  lemma {:induction false} Cat3<T>(a: seq<T>, b: seq<T>, c: seq<T>)
    ensures multiset(a + b + c) == multiset(a) + multiset(b) + multiset(c)
  {
  }

  lemma {:induction false} MatchingSplit(t: Tree, pattern: string)
    ensures multiset(Matching(t, pattern, true)) + multiset(Matching(t, pattern, false))
         == multiset(Values(t))
  {
    if t.Node? {
      var k, v, l, r := t.key, t.value, t.left, t.right;
      MatchingSplit(l, pattern);
      MatchingSplit(r, pattern);
      var yes := if IsLikeMatch(k, pattern) then [v] else [];
      var no := if IsLikeMatch(k, pattern) then [] else [v];
      Cat3(yes, Matching(l, pattern, true), Matching(r, pattern, true));
      Cat3(no, Matching(l, pattern, false), Matching(r, pattern, false));
      Cat3(Values(l), [v], Values(r));
      assert multiset(yes) + multiset(no) == multiset([v]);
    }
  }

  /** SearchLike(p) and SearchNotLike(p) together return every stored
      position exactly once. */
  lemma {:induction false} LikePartition(t: Tree, pattern: string)
    ensures multiset(SearchLikeRec(t, pattern, [])) + multiset(SearchNotLikeRec(t, pattern, []))
         == multiset(Values(t))
  {
    LikeExact(t, pattern, []);
    NotLikeExact(t, pattern, []);
    MatchingSplit(t, pattern);
  }

  // ---------------------------------------------------------------------------
  // The index object

  /** The index object: it owns the root, Insert replaces the root by the
      subtree InsertRec returns, and every query starts its walk at the root
      with an empty result list. */
  class BSTIndex {
    var root: Tree

    ghost predicate Valid()
      reads this
    {
      Ordered(root)
    }

    constructor ()
      ensures Valid() && root == Nil
    {
      root := Nil;
    }

    /** A new key is stored with its position; a key already present keeps
        the position stored first. */
    method Insert(key: string, value: int)
      requires Valid()
      modifies this
      ensures Valid() && root == InsertRec(old(root), key, value)
      ensures AsMap(root) == if key in AsMap(old(root)) then AsMap(old(root)) else AsMap(old(root))[key := value]
    {
      InsertOrdered(root, key, value);
      InsertMap(root, key, value);
      root := InsertRec(root, key, value);
    }

    method Search(key: string) returns (r: int)
      requires Valid()
      ensures r == if key in AsMap(root) then AsMap(root)[key] else -1
    {
      SearchFinds(root, key);
      r := SearchRec(root, key);
    }

    method SearchLessThan(key: string) returns (result: seq<int>)
      requires Valid()
      ensures result == InRange(root, Less, key)
    {
      LessThanExact(root, key, []);
      result := SearchLessThanRec(root, key, []);
    }

    method SearchGreaterThan(key: string) returns (result: seq<int>)
      requires Valid()
      ensures result == InRange(root, Greater, key)
    {
      GreaterThanExact(root, key, []);
      result := SearchGreaterThanRec(root, key, []);
    }

    method SearchLessThanOrEqual(key: string) returns (result: seq<int>)
      requires Valid()
      ensures result == InRange(root, LessOrEqual, key)
    {
      LessThanOrEqualExact(root, key, []);
      result := SearchLessThanOrEqualRec(root, key, []);
    }

    method SearchGreaterThanOrEqual(key: string) returns (result: seq<int>)
      requires Valid()
      ensures result == InRange(root, GreaterOrEqual, key)
    {
      GreaterThanOrEqualExact(root, key, []);
      result := SearchGreaterThanOrEqualRec(root, key, []);
    }

    method SearchLike(pattern: string) returns (result: seq<int>)
      ensures result == Matching(root, pattern, true)
    {
      LikeExact(root, pattern, []);
      result := SearchLikeRec(root, pattern, []);
    }

    method SearchNotLike(pattern: string) returns (result: seq<int>)
      ensures result == Matching(root, pattern, false)
    {
      NotLikeExact(root, pattern, []);
      result := SearchNotLikeRec(root, pattern, []);
    }
  }
}
