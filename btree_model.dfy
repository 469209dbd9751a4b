/** The B-tree of BTreeIndex as a value. A node is its n key/value slots
    (in slot order) and, when it is internal, its n + 1 children. Each
    operation of the index is a function here that takes the same branches
    as the array code in the source, and the lemmas say what those branches
    achieve. Keys are the integer hashes of the indexed strings. */
module BTreeModel {
  import opened Text
  import opened Like

  /** Minimum degree of the tree. */
  const T: nat := 2
  /** Capacity of a node: 2T - 1 keys and 2T children. */
  const MaxKeys: nat := 2 * T - 1

  datatype Pair = Pair(key: int, value: int)

  datatype BNode = BNode(entries: seq<Pair>, children: seq<BNode>, leaf: bool)

  // ---------------------------------------------------------------------------
  // Shape

  /** Slot counts: at most 2T - 1 keys, a leaf has no children, an internal
      node has at least one key and one more child than keys. */
  ghost predicate Shaped(x: BNode)
    decreases x
  {
    && |x.entries| <= MaxKeys
    && (x.leaf ==> x.children == [])
    && (!x.leaf ==>
          && 1 <= |x.entries|
          && |x.children| == |x.entries| + 1
          && forall j :: 0 <= j < |x.children| ==> Shaped(x.children[j]))
  }

  /** Every leaf lies at depth h. */
  ghost predicate Balanced(x: BNode, h: nat)
    decreases x
  {
    if h == 0 then x.leaf
    else !x.leaf && forall j :: 0 <= j < |x.children| ==> Balanced(x.children[j], h - 1)
  }

  ghost predicate Sorted(es: seq<Pair>) {
    forall i, j :: 0 <= i < j < |es| ==> es[i].key <= es[j].key
  }

  /** The tree invariant: shape, balance, and keys in ascending order. */
  ghost predicate WF(x: BNode, h: nat) {
    Shaped(x) && Balanced(x, h) && Sorted(Elems(x))
  }

  // ---------------------------------------------------------------------------
  // The stored pairs, in key order and in the order the walks visit them

  /** In-order: child 0, slot 0, child 1, slot 1, ..., child n. */
  function Elems(x: BNode): seq<Pair>
    decreases x, 1
  {
    ElemsFrom(x, 0)
  }

  function ChildElems(x: BNode, i: nat): seq<Pair>
    decreases x, 0, 0
  {
    if i < |x.children| then Elems(x.children[i]) else []
  }

  function ElemsFrom(x: BNode, i: nat): seq<Pair>
    requires i <= |x.entries|
    decreases x, 0, |x.entries| - i + 1
  {
    if i < |x.entries| then ChildElems(x, i) + ([x.entries[i]] + ElemsFrom(x, i + 1))
    else ChildElems(x, i)
  }

  /** Node-first: slot 0, child 0, slot 1, child 1, ..., child n. This is the
      order in which every walk of the source emits values. */
  function Visit(x: BNode): seq<Pair>
    decreases x, 1
  {
    VisitFrom(x, 0)
  }

  function ChildVisit(x: BNode, i: nat): seq<Pair>
    decreases x, 0, 0
  {
    if i < |x.children| then Visit(x.children[i]) else []
  }

  function VisitFrom(x: BNode, i: nat): seq<Pair>
    requires i <= |x.entries|
    decreases x, 0, |x.entries| - i + 1
  {
    if i < |x.entries| then [x.entries[i]] + ChildVisit(x, i) + VisitFrom(x, i + 1)
    else ChildVisit(x, i)
  }

  function Keys(es: seq<Pair>): seq<int> {
    if es == [] then [] else [es[0].key] + Keys(es[1..])
  }

  /** The values of the pairs, in order: what the source's walks return. */
  function Values(es: seq<Pair>): (r: seq<int>)
    ensures |r| == |es|
  {
    if es == [] then [] else [es[0].value] + Values(es[1..])
  }

  lemma {:induction false} ValuesAppend(a: seq<Pair>, b: seq<Pair>)
    ensures Values(a + b) == Values(a) + Values(b)
    decreases |a|
  {
    if a == [] {
      assert a + b == b;
    } else {
      assert (a + b)[1..] == a[1..] + b;
      ValuesAppend(a[1..], b);
      Assoc([a[0].value], Values(a[1..]), Values(b));
    }
  }

  // ---------------------------------------------------------------------------
  // SplitChild

  /** SplitChild(x, i, y) where y is the full child i of x: y keeps its lower
      T - 1 slots (and T children), a new node takes the upper T - 1 slots
      (and T children), and the median slot moves up into x at slot i, with
      later slots and children shifted one place right. */
  function SplitChildSpec(x: BNode, i: nat): (r: BNode)
    requires !x.leaf && |x.children| == |x.entries| + 1 && |x.entries| < MaxKeys && i <= |x.entries|
    requires |x.children[i].entries| == MaxKeys
    requires !x.children[i].leaf ==> |x.children[i].children| == MaxKeys + 1
    ensures |r.entries| == |x.entries| + 1 && |r.children| == |x.children| + 1 && !r.leaf
  {
    var y := x.children[i];
    var lower := BNode(y.entries[..T - 1], if y.leaf then [] else y.children[..T], y.leaf);
    var upper := BNode(y.entries[T..], if y.leaf then [] else y.children[T..], y.leaf);
    BNode(x.entries[..i] + [y.entries[T - 1]] + x.entries[i..],
          x.children[..i] + [lower, upper] + x.children[i + 1..],
          x.leaf)
  }

  lemma {:induction false} Regroup(a: seq<Pair>, b: seq<Pair>, c: seq<Pair>)
    ensures a + (b + c) == a + b + c
  {
  }

  /** ElemsFrom agrees on two nodes whose slots and children agree, with an
      offset d, from slot j up to a point where the tails agree. */
  lemma {:induction false} ElemsFromShift(a: BNode, b: BNode, d: nat, j: nat, stop: nat)
    requires j <= stop <= |b.entries| && stop + d <= |a.entries|
    requires forall t :: j <= t < stop ==> a.entries[t + d] == b.entries[t]
    requires forall t :: j <= t < stop ==> ChildElems(a, t + d) == ChildElems(b, t)
    requires ElemsFrom(a, stop + d) == ElemsFrom(b, stop)
    ensures ElemsFrom(a, j + d) == ElemsFrom(b, j)
    decreases stop - j
  {
    if j < stop {
      ElemsFromShift(a, b, d, j + 1, stop);
    }
  }

  /** A full node is its lower half, its median slot, and its upper half. */
  lemma {:induction false} FullNodeElems(y: BNode)
    requires |y.entries| == MaxKeys
    requires y.leaf ==> y.children == []
    requires !y.leaf ==> |y.children| == MaxKeys + 1
    ensures Elems(y)
         == Elems(BNode(y.entries[..T - 1], if y.leaf then [] else y.children[..T], y.leaf))
          + [y.entries[T - 1]]
          + Elems(BNode(y.entries[T..], if y.leaf then [] else y.children[T..], y.leaf))
  {
    var lower := BNode(y.entries[..T - 1], if y.leaf then [] else y.children[..T], y.leaf);
    var upper := BNode(y.entries[T..], if y.leaf then [] else y.children[T..], y.leaf);
    assert ChildElems(lower, 0) == ChildElems(y, 0) && ChildElems(lower, 1) == ChildElems(y, 1);
    assert ChildElems(upper, 0) == ChildElems(y, 2) && ChildElems(upper, 1) == ChildElems(y, 3);
    assert ElemsFrom(lower, 1) == ChildElems(lower, 1);
    assert ElemsFrom(upper, 1) == ChildElems(upper, 1);
    assert Elems(lower) == ChildElems(y, 0) + ([y.entries[0]] + ChildElems(y, 1));
    assert Elems(upper) == ChildElems(y, 2) + ([y.entries[2]] + ChildElems(y, 3));
    assert ElemsFrom(y, 2) == ChildElems(y, 2) + ([y.entries[2]] + ChildElems(y, 3));
    assert ElemsFrom(y, 1) == ChildElems(y, 1) + ([y.entries[1]] + ElemsFrom(y, 2));
  }

  /** ElemsFrom depends only on the slots and children from that point on. */
  lemma {:induction false} SuffixElems(a: BNode, b: BNode, j: nat, k: nat)
    requires |a.children| == |a.entries| + 1 && |b.children| == |b.entries| + 1
    requires j <= |a.entries| && k <= |b.entries|
    requires a.entries[j..] == b.entries[k..] && a.children[j..] == b.children[k..]
    ensures ElemsFrom(a, j) == ElemsFrom(b, k)
    decreases |a.entries| - j
  {
    assert a.children[j] == a.children[j..][0] == b.children[k..][0] == b.children[k];
    if j < |a.entries| {
      assert a.entries[j] == a.entries[j..][0] == b.entries[k..][0] == b.entries[k];
      assert a.entries[j + 1..] == a.entries[j..][1..];
      assert b.entries[k + 1..] == b.entries[k..][1..];
      assert a.children[j + 1..] == a.children[j..][1..];
      assert b.children[k + 1..] == b.children[k..][1..];
      SuffixElems(a, b, j + 1, k + 1);
    }
  }

  /** From the split slot on, the split node lists the same pairs. */
  lemma {:induction false} SplitElemsTail(x: BNode, i: nat)
    requires !x.leaf && |x.children| == |x.entries| + 1 && |x.entries| < MaxKeys && i <= |x.entries|
    requires |x.children[i].entries| == MaxKeys
    requires x.children[i].leaf ==> x.children[i].children == []
    requires !x.children[i].leaf ==> |x.children[i].children| == MaxKeys + 1
    ensures ElemsFrom(SplitChildSpec(x, i), i) == ElemsFrom(x, i)
  {
    var r := SplitChildSpec(x, i);
    var y := x.children[i];
    var n := |x.entries|;
    var lo := Elems(r.children[i]);
    var m := [y.entries[T - 1]];
    var up := Elems(r.children[i + 1]);
    FullNodeElems(y);
    assert ElemsFrom(r, i) == lo + (m + ElemsFrom(r, i + 1));
    if i < n {
      var rest := [x.entries[i]] + ElemsFrom(x, i + 1);
      assert r.entries[i + 2..] == x.entries[i + 1..];
      assert r.children[i + 2..] == x.children[i + 1..];
      SuffixElems(r, x, i + 2, i + 1);
      assert r.entries[i + 1] == x.entries[i];
      assert ElemsFrom(r, i + 1) == up + rest;
      assert ElemsFrom(x, i) == Elems(y) + rest;
      Regroup(lo, m, up + rest);
      Regroup(lo + m, up, rest);
    } else {
      assert ElemsFrom(r, i + 1) == up;
      Regroup(lo, m, up);
    }
  }

  /** SplitChild moves slots between nodes but keeps the in-order pairs. */
  lemma {:induction false} SplitElems(x: BNode, i: nat)
    requires !x.leaf && |x.children| == |x.entries| + 1 && |x.entries| < MaxKeys && i <= |x.entries|
    requires |x.children[i].entries| == MaxKeys
    requires x.children[i].leaf ==> x.children[i].children == []
    requires !x.children[i].leaf ==> |x.children[i].children| == MaxKeys + 1
    ensures Elems(SplitChildSpec(x, i)) == Elems(x)
  {
    var r := SplitChildSpec(x, i);
    SplitElemsTail(x, i);
    assert forall t :: 0 <= t < i ==> ChildElems(r, t) == ChildElems(x, t);
    ElemsFromShift(r, x, 0, 0, i);
  }

  lemma {:induction false} SplitShaped(x: BNode, i: nat)
    requires !x.leaf && |x.children| == |x.entries| + 1 && |x.entries| < MaxKeys && i <= |x.entries|
    requires forall j :: 0 <= j < |x.children| ==> Shaped(x.children[j])
    requires |x.children[i].entries| == MaxKeys
    requires !x.children[i].leaf ==> |x.children[i].children| == MaxKeys + 1
    ensures Shaped(SplitChildSpec(x, i))
  {
    var r := SplitChildSpec(x, i);
    forall j | 0 <= j < |r.children| ensures Shaped(r.children[j]) {
      if j > i + 1 { assert r.children[j] == x.children[j - 1]; }
    }
  }

  lemma {:induction false} SplitBalanced(x: BNode, i: nat, h: nat)
    requires !x.leaf && |x.children| == |x.entries| + 1 && |x.entries| < MaxKeys && i <= |x.entries|
    requires |x.children[i].entries| == MaxKeys
    requires !x.children[i].leaf ==> |x.children[i].children| == MaxKeys + 1
    requires Balanced(x, h)
    ensures Balanced(SplitChildSpec(x, i), h)
  {
    var r := SplitChildSpec(x, i);
    forall j | 0 <= j < |r.children| ensures Balanced(r.children[j], h - 1) {
      if j > i + 1 { assert r.children[j] == x.children[j - 1]; }
    }
  }

  // ---------------------------------------------------------------------------
  // Where a pair sits among the in-order pairs

  /** The pairs before slot i of x: child 0, slot 0, ..., child i-1, slot i-1. */
  function ElemsBefore(x: BNode, i: nat): seq<Pair>
    requires i <= |x.entries|
  {
    if i == 0 then [] else ElemsBefore(x, i - 1) + ChildElems(x, i - 1) + [x.entries[i - 1]]
  }

  /** The pairs after child i of x: slot i, child i+1, ..., child n. */
  function ElemsAfter(x: BNode, i: nat): seq<Pair>
    requires i <= |x.entries|
  {
    if i < |x.entries| then [x.entries[i]] + ElemsFrom(x, i + 1) else []
  }

  lemma {:induction false} Decompose(x: BNode, i: nat)
    requires i <= |x.entries|
    ensures Elems(x) == ElemsBefore(x, i) + ElemsFrom(x, i)
    decreases i
  {
    if i > 0 {
      Decompose(x, i - 1);
      var b := ElemsBefore(x, i - 1);
      var c := ChildElems(x, i - 1);
      var e := [x.entries[i - 1]];
      var f := ElemsFrom(x, i);
      assert ElemsFrom(x, i - 1) == c + (e + f);
      Regroup(c, e, f);
      Regroup(b, c + e, f);
      Regroup(b, c, e);
    }
  }

  /** Child i of x lies between ElemsBefore(x, i) and ElemsAfter(x, i). */
  lemma {:induction false} Around(x: BNode, i: nat)
    requires i <= |x.entries|
    ensures Elems(x) == ElemsBefore(x, i) + ChildElems(x, i) + ElemsAfter(x, i)
  {
    Decompose(x, i);
    Regroup(ElemsBefore(x, i), ChildElems(x, i), ElemsAfter(x, i));
  }

  lemma {:induction false} BeforeSame(a: BNode, b: BNode, i: nat)
    requires i <= |a.entries| && i <= |b.entries|
    requires a.entries[..i] == b.entries[..i]
    requires forall t :: 0 <= t < i ==> ChildElems(a, t) == ChildElems(b, t)
    ensures ElemsBefore(a, i) == ElemsBefore(b, i)
    decreases i
  {
    if i > 0 {
      assert a.entries[i - 1] == a.entries[..i][i - 1] == b.entries[..i][i - 1] == b.entries[i - 1];
      assert a.entries[..i - 1] == a.entries[..i][..i - 1];
      assert b.entries[..i - 1] == b.entries[..i][..i - 1];
      BeforeSame(a, b, i - 1);
    }
  }

  /** Replacing child c of an internal node replaces that child's pairs. */
  lemma {:induction false} ReplaceChild(x: BNode, c: nat, child: BNode)
    requires !x.leaf && |x.children| == |x.entries| + 1 && c <= |x.entries|
    ensures Elems(BNode(x.entries, x.children[c := child], false))
         == ElemsBefore(x, c) + Elems(child) + ElemsAfter(x, c)
  {
    var y := BNode(x.entries, x.children[c := child], false);
    Around(y, c);
    assert forall t :: 0 <= t < c ==> y.children[t] == x.children[t];
    BeforeSame(y, x, c);
    if c < |x.entries| {
      assert y.entries[c + 1..] == x.entries[c + 1..];
      assert y.children[c + 1..] == x.children[c + 1..];
      SuffixElems(y, x, c + 1, c + 1);
    }
  }

  /** A leaf lists its slots. */
  lemma {:induction false} LeafElems(x: BNode, i: nat)
    requires x.children == [] && i <= |x.entries|
    ensures ElemsFrom(x, i) == x.entries[i..]
    decreases |x.entries| - i
  {
    if i < |x.entries| {
      LeafElems(x, i + 1);
      assert x.entries[i..] == [x.entries[i]] + x.entries[i + 1..];
    }
  }

  /** Slices of a sorted sequence are sorted and bounded by their neighbours. */
  lemma {:induction false} SortedParts(b: seq<Pair>, m: seq<Pair>, r: seq<Pair>)
    requires Sorted(b + m + r)
    ensures Sorted(m)
    ensures b != [] ==> forall t :: 0 <= t < |b| ==> b[t].key <= b[|b| - 1].key
    ensures r != [] ==> forall t :: 0 <= t < |r| ==> r[0].key <= r[t].key
    ensures b != [] ==> forall t :: 0 <= t < |m| ==> b[|b| - 1].key <= m[t].key
    ensures r != [] ==> forall t :: 0 <= t < |m| ==> m[t].key <= r[0].key
  {
    var s := b + m + r;
    assert forall t :: 0 <= t < |b| ==> s[t] == b[t];
    assert forall t :: 0 <= t < |m| ==> s[|b| + t] == m[t];
    assert forall t :: 0 <= t < |r| ==> s[|b| + |m| + t] == r[t];
  }

  // ---------------------------------------------------------------------------
  // Insert

  /** The pair p has been inserted into es at position n, after keys that are
      not above its key and before keys that are not below it. */
  ghost predicate InsertedAt(es: seq<Pair>, es2: seq<Pair>, n: nat, p: Pair) {
    && n <= |es|
    && es2 == es[..n] + [p] + es[n..]
    && (forall t :: 0 <= t < n ==> es[t].key <= p.key)
    && (forall t :: n <= t < |es| ==> p.key <= es[t].key)
  }

  /** An insertion of that kind keeps a sorted sequence sorted and adds
      exactly one pair. */
  lemma {:induction false} InsertedAtSorted(es: seq<Pair>, es2: seq<Pair>, n: nat, p: Pair)
    requires Sorted(es) && InsertedAt(es, es2, n, p)
    ensures Sorted(es2)
    ensures multiset(es2) == multiset(es) + multiset{p}
  {
    forall i, j | 0 <= i < j < |es2|
      ensures es2[i].key <= es2[j].key
    {
      InsertedAtIndex(es, es2, n, p, i);
      InsertedAtIndex(es, es2, n, p, j);
    }
    assert es == es[..n] + es[n..];
  }

  /** Slot t of the sequence after the insertion. */
  lemma {:induction false} InsertedAtIndex(es: seq<Pair>, es2: seq<Pair>, n: nat, p: Pair, t: nat)
    requires InsertedAt(es, es2, n, p) && t < |es2|
    ensures t < n ==> es2[t] == es[t]
    ensures t == n ==> es2[t] == p
    ensures t > n ==> es2[t] == es[t - 1]
  {
  }

  /** Insert p into the middle part of b + e + r, at position m of e. */
  lemma {:induction false} InsertThrough(b: seq<Pair>, e: seq<Pair>, r: seq<Pair>, e2: seq<Pair>, m: nat, p: Pair)
    requires InsertedAt(e, e2, m, p)
    requires forall t :: 0 <= t < |b| ==> b[t].key <= p.key
    requires forall t :: 0 <= t < |r| ==> p.key <= r[t].key
    ensures InsertedAt(b + e + r, b + e2 + r, |b| + m, p)
  {
    var es := b + e + r;
    var n := |b| + m;
    assert es[..n] == b + e[..m];
    assert es[n..] == e[m..] + r;
    assert forall t :: 0 <= t < |b| ==> es[t] == b[t];
    assert forall t :: |b| <= t < |b| + |e| ==> es[t] == e[t - |b|];
    assert forall t :: |b| + |e| <= t < |es| ==> es[t] == r[t - |b| - |e|];
    calc {
      b + e2 + r;
      b + (e[..m] + [p] + e[m..]) + r;
      (b + e[..m]) + [p] + (e[m..] + r);
    }
  }

  /** The last slot at or below i whose key is not above k, or -1: the
      backward scan of InsertNonFull. */
  function ScanBack(es: seq<Pair>, k: int, i: int): (r: int)
    requires -1 <= i < |es|
    ensures -1 <= r <= i
    ensures forall t :: r < t <= i ==> es[t].key > k
    ensures r >= 0 ==> es[r].key <= k
    decreases i + 1
  {
    if i >= 0 && es[i].key > k then ScanBack(es, k, i - 1) else i
  }

  /** Putting a well-shaped child of the right height in place of another
      keeps an internal node well-shaped. */
  lemma {:induction false} ReplaceShaped(x: BNode, h: nat, c: nat, child: BNode)
    requires Shaped(x) && Balanced(x, h) && !x.leaf && c < |x.children|
    requires Shaped(child) && Balanced(child, h - 1)
    ensures Shaped(BNode(x.entries, x.children[c := child], false))
    ensures Balanced(BNode(x.entries, x.children[c := child], false), h)
  {
    var r := BNode(x.entries, x.children[c := child], false);
    assert forall t :: 0 <= t < |r.children| ==> Shaped(r.children[t]) && Balanced(r.children[t], h - 1);
  }

  /** The node SplitChild(x, j) leaves, when child j of x is full. */
  function SplitFull(x: BNode, ghost h: nat, j: nat): (x1: BNode)
    requires Shaped(x) && Balanced(x, h) && !x.leaf && |x.entries| < MaxKeys && j <= |x.entries|
    requires |x.children[j].entries| == MaxKeys
    ensures Shaped(x1) && Balanced(x1, h) && !x1.leaf && |x1.entries| == |x.entries| + 1
    ensures |x1.children[j].entries| < MaxKeys && |x1.children[j + 1].entries| < MaxKeys
    ensures x1.entries == x.entries[..j] + [x.children[j].entries[T - 1]] + x.entries[j..]
  {
    SplitShaped(x, j);
    SplitBalanced(x, j, h);
    SplitChildSpec(x, j)
  }

  /** The leaf case of InsertNonFull: slots above k move one place right and
      the new pair takes the place freed. */
  function InsertSlot(es: seq<Pair>, k: int, v: int): (r: seq<Pair>)
    ensures |r| == |es| + 1
  {
    var j := ScanBack(es, k, |es| - 1) + 1;
    es[..j] + [Pair(k, v)] + es[j..]
  }

  /** In sorted slots, the new pair goes after every key not above k and
      before every key above it. */
  lemma {:induction false} InsertSlotSorted(es: seq<Pair>, k: int, v: int) returns (n: nat)
    requires Sorted(es)
    ensures InsertedAt(es, InsertSlot(es, k, v), n, Pair(k, v))
    ensures forall t :: n <= t < |es| ==> k < es[t].key
  {
    n := ScanBack(es, k, |es| - 1) + 1;
    assert n > 0 ==> es[n - 1].key <= k;
  }

  /** InsertNonFull(x, k, v) on a node with room for one more slot. */
  function InsertNonFullSpec(x: BNode, ghost h: nat, k: int, v: int): (r: BNode)
    requires Shaped(x) && Balanced(x, h) && |x.entries| < MaxKeys
    ensures Shaped(r) && Balanced(r, h) && r.leaf == x.leaf
    decreases h, 1
  {
    if x.leaf then BNode(InsertSlot(x.entries, k, v), [], true)
    else Descend(Room(x, h, k), h, Route(x, h, k), k, v)
  }

  /** The slot after the last key not above k: where k belongs in x. */
  function Place(x: BNode, k: int): (j: nat)
    requires |x.entries| < MaxKeys
    ensures j <= |x.entries|
  {
    ScanBack(x.entries, k, |x.entries| - 1) + 1
  }

  /** x, with the child that k belongs in split first when it is full. */
  function Room(x: BNode, ghost h: nat, k: int): (x1: BNode)
    requires Shaped(x) && Balanced(x, h) && |x.entries| < MaxKeys && !x.leaf
    ensures Shaped(x1) && Balanced(x1, h) && !x1.leaf
  {
    var j := Place(x, k);
    if |x.children[j].entries| == MaxKeys then SplitFull(x, h, j) else x
  }

  /** The child of Room(x, h, k) that k goes into: right of the median the
      split moved up when the median's key is below k. */
  function Route(x: BNode, ghost h: nat, k: int): (c: nat)
    requires Shaped(x) && Balanced(x, h) && |x.entries| < MaxKeys && !x.leaf
    ensures c < |Room(x, h, k).children| && |Room(x, h, k).children[c].entries| < MaxKeys
  {
    var j := Place(x, k);
    if |x.children[j].entries| == MaxKeys then
      var x1 := SplitFull(x, h, j);
      if x1.entries[j].key < k then j + 1 else j
    else
      assert Shaped(x.children[j]);
      j
  }

  /** When the child k belongs in is full, Room splits it and Route picks
      the half by the median's key. */
  lemma {:induction false} RoomSplits(x: BNode, h: nat, k: int)
    requires Shaped(x) && Balanced(x, h) && |x.entries| < MaxKeys && !x.leaf
    requires |x.children[Place(x, k)].entries| == MaxKeys
    ensures Room(x, h, k) == SplitFull(x, h, Place(x, k))
    ensures Route(x, h, k) == if Room(x, h, k).entries[Place(x, k)].key < k then Place(x, k) + 1 else Place(x, k)
  {
  }

  /** When the child k belongs in has room, Room leaves x as it is. */
  lemma {:induction false} RoomKeeps(x: BNode, h: nat, k: int)
    requires Shaped(x) && Balanced(x, h) && |x.entries| < MaxKeys && !x.leaf
    requires |x.children[Place(x, k)].entries| < MaxKeys
    ensures Room(x, h, k) == x && Route(x, h, k) == Place(x, k)
  {
  }

  /** The recursive step of InsertNonFull: insert into child c, which has
      room, and put the result in its place. */
  function Descend(x: BNode, ghost h: nat, c: nat, k: int, v: int): (r: BNode)
    requires Shaped(x) && Balanced(x, h) && !x.leaf && c < |x.children|
    requires |x.children[c].entries| < MaxKeys
    ensures Shaped(r) && Balanced(r, h) && !r.leaf
    decreases h, 0
  {
    var child := InsertNonFullSpec(x.children[c], h - 1, k, v);
    ReplaceShaped(x, h, c, child);
    BNode(x.entries, x.children[c := child], false)
  }

  /** The two-level tree that splitting a full root under a new root gives. */
  function SplitRoot(root: BNode, ghost h: nat): (s1: BNode)
    requires Shaped(root) && Balanced(root, h) && |root.entries| == MaxKeys
    ensures Shaped(s1) && Balanced(s1, h + 1) && !s1.leaf && |s1.entries| == 1
    ensures |s1.children[0].entries| < MaxKeys && |s1.children[1].entries| < MaxKeys
  {
    var s := BNode([], [root], false);
    SplitShaped(s, 0);
    SplitBalanced(s, 0, h + 1);
    SplitChildSpec(s, 0)
  }

  /** SplitRoot is SplitChild on a new root whose only child is the old
      root. */
  lemma {:induction false} RootSplits(root: BNode, h: nat)
    requires Shaped(root) && Balanced(root, h) && |root.entries| == MaxKeys
    ensures SplitRoot(root, h) == SplitChildSpec(BNode([], [root], false), 0)
  {
  }

  /** Insert into a full root: split it under a new root, then go right
      when the median's key is below k, and left otherwise. */
  function InsertSplitRoot(root: BNode, ghost h: nat, k: int, v: int): (r: BNode)
    requires Shaped(root) && Balanced(root, h) && |root.entries| == MaxKeys
    ensures Shaped(r) && Balanced(r, h + 1)
  {
    var s1 := SplitRoot(root, h);
    Descend(s1, h + 1, if s1.entries[0].key < k then 1 else 0, k, v)
  }

  /** Insert(key, value) with k the key's hash: a full root is first split
      under a new root, and the tree grows one level. */
  function InsertSpec(root: BNode, ghost h: nat, k: int, v: int): (r: BNode)
    requires Shaped(root) && Balanced(root, h)
    ensures Shaped(r) && Balanced(r, Grown(root, h))
  {
    if |root.entries| == MaxKeys then InsertSplitRoot(root, h, k, v)
    else InsertNonFullSpec(root, h, k, v)
  }

  /** The height after an insert: one more exactly when the root was full. */
  function Grown(root: BNode, h: nat): (g: nat)
    ensures g == h || g == h + 1
  {
    if |root.entries| == MaxKeys then h + 1 else h
  }

  /** On an internal node, InsertNonFull is Descend on Room and Route. */
  lemma {:induction false} NonFullDescends(x: BNode, h: nat, k: int, v: int)
    requires Shaped(x) && Balanced(x, h) && |x.entries| < MaxKeys && !x.leaf
    ensures InsertNonFullSpec(x, h, k, v) == Descend(Room(x, h, k), h, Route(x, h, k), k, v)
  {
  }

  /** Room keeps the in-order pairs, and the slots either side of child
      Route of Room bracket k. */
  lemma {:induction false} RoomRoute(x: BNode, h: nat, k: int)
    requires Shaped(x) && Balanced(x, h) && |x.entries| < MaxKeys && !x.leaf
    ensures Elems(Room(x, h, k)) == Elems(x)
    ensures Route(x, h, k) <= |Room(x, h, k).entries|
    ensures Route(x, h, k) > 0 ==> Room(x, h, k).entries[Route(x, h, k) - 1].key <= k
    ensures Route(x, h, k) < |Room(x, h, k).entries| ==> k <= Room(x, h, k).entries[Route(x, h, k)].key
  {
    var j := Place(x, k);
    assert Shaped(x.children[j]);
    if |x.children[j].entries| == MaxKeys {
      var x1 := SplitFull(x, h, j);
      SplitElems(x, j);
      if x1.entries[j].key < k {
        if j + 1 < |x1.entries| {
          assert x1.entries[j + 1] == x.entries[j];
        }
      } else if j > 0 {
        assert x1.entries[j - 1] == x.entries[j - 1];
      }
    }
  }

  /** InsertNonFull puts the new pair into the in-order pairs at a place
      that keeps them sorted. */
  lemma {:induction false} InsertNonFullElems(x: BNode, h: nat, k: int, v: int) returns (n: nat)
    requires Shaped(x) && Balanced(x, h) && |x.entries| < MaxKeys && Sorted(Elems(x))
    ensures InsertedAt(Elems(x), Elems(InsertNonFullSpec(x, h, k, v)), n, Pair(k, v))
    decreases h, 1
  {
    if x.leaf {
      n := InsertLeafElems(x, h, k, v);
    } else {
      RoomRoute(x, h, k);
      NonFullDescends(x, h, k, v);
      n := DescendElems(Room(x, h, k), h, Route(x, h, k), k, v);
    }
  }

  lemma {:induction false} InsertLeafElems(x: BNode, h: nat, k: int, v: int) returns (n: nat)
    requires Shaped(x) && Balanced(x, h) && |x.entries| < MaxKeys && Sorted(Elems(x)) && x.leaf
    ensures InsertedAt(Elems(x), Elems(InsertNonFullSpec(x, h, k, v)), n, Pair(k, v))
  {
    var r := InsertNonFullSpec(x, h, k, v);
    assert r == BNode(InsertSlot(x.entries, k, v), [], true);
    LeafElems(x, 0);
    LeafElems(r, 0);
    assert x.entries[0..] == x.entries && r.entries[0..] == r.entries;
    n := InsertSlotSorted(x.entries, k, v);
  }

  /** Inserting into child c, when the slots around it bracket k. */
  lemma {:induction false} DescendElems(x: BNode, h: nat, c: nat, k: int, v: int) returns (n: nat)
    requires Shaped(x) && Balanced(x, h) && !x.leaf && c <= |x.entries| && Sorted(Elems(x))
    requires |x.children[c].entries| < MaxKeys
    requires c > 0 ==> x.entries[c - 1].key <= k
    requires c < |x.entries| ==> k <= x.entries[c].key
    ensures InsertedAt(Elems(x), Elems(Descend(x, h, c, k, v)), n, Pair(k, v))
    decreases h, 0
  {
    var child := InsertNonFullSpec(x.children[c], h - 1, k, v);
    Around(x, c);
    var b := ElemsBefore(x, c);
    var e := Elems(x.children[c]);
    var a := ElemsAfter(x, c);
    SortedParts(b, e, a);
    if c > 0 {
      assert b[|b| - 1] == x.entries[c - 1];
    }
    var m := InsertNonFullElems(x.children[c], h - 1, k, v);
    assert Descend(x, h, c, k, v) == BNode(x.entries, x.children[c := child], false);
    ReplaceChild(x, c, child);
    InsertThrough(b, e, a, Elems(child), m, Pair(k, v));
    n := |b| + m;
  }

  /** Insert puts the new pair into the in-order pairs at a place that
      keeps them sorted. */
  lemma {:induction false} InsertElems(root: BNode, h: nat, k: int, v: int) returns (n: nat)
    requires Shaped(root) && Balanced(root, h) && Sorted(Elems(root))
    ensures InsertedAt(Elems(root), Elems(InsertSpec(root, h, k, v)), n, Pair(k, v))
  {
    if |root.entries| == MaxKeys {
      var s := BNode([], [root], false);
      var s1 := SplitRoot(root, h);
      SplitElems(s, 0);
      assert ElemsFrom(s, 0) == ChildElems(s, 0);
      var c := if s1.entries[0].key < k then 1 else 0;
      n := DescendElems(s1, h + 1, c, k, v);
    } else {
      n := InsertNonFullElems(root, h, k, v);
    }
  }

  /** Insert keeps the tree invariant, stores exactly one more pair, and
      adds a level exactly when the root was full. */
  lemma {:induction false} InsertKeepsTree(root: BNode, h: nat, k: int, v: int)
    requires WF(root, h)
    ensures WF(InsertSpec(root, h, k, v), Grown(root, h))
    ensures multiset(Elems(InsertSpec(root, h, k, v))) == multiset(Elems(root)) + multiset{Pair(k, v)}
  {
    var n := InsertElems(root, h, k, v);
    InsertedAtSorted(Elems(root), Elems(InsertSpec(root, h, k, v)), n, Pair(k, v));
  }

  // ---------------------------------------------------------------------------
  // Search

  /** The first slot at or after i whose key is not below k, or |es|: the
      forward scan of Search. */
  function ScanForward(es: seq<Pair>, k: int, i: nat): (r: nat)
    requires i <= |es|
    ensures i <= r <= |es|
    ensures forall t :: i <= t < r ==> es[t].key < k
    ensures r < |es| ==> k <= es[r].key
    decreases |es| - i
  {
    if i < |es| && k > es[i].key then ScanForward(es, k, i + 1) else i
  }

  /** Search(x, k): the value in the first slot on the search path whose
      key is k, or -1 when the search ends in a leaf. */
  function SearchSpec(x: BNode, k: int): int
    requires Shaped(x)
    decreases x
  {
    var i := ScanForward(x.entries, k, 0);
    if i < |x.entries| && k == x.entries[i].key then x.entries[i].value
    else if x.leaf then -1
    else SearchSpec(x.children[i], k)
  }

  lemma {:induction false} MemberAround(x: BNode, i: nat, p: Pair)
    requires i <= |x.entries|
    ensures p in Elems(x) <==> p in ElemsBefore(x, i) || p in ChildElems(x, i) || p in ElemsAfter(x, i)
  {
    Around(x, i);
  }

  /** Whatever Search returns other than -1 is stored under key k. */
  lemma {:induction false} SearchSound(x: BNode, k: int)
    requires Shaped(x)
    ensures SearchSpec(x, k) == -1 || Pair(k, SearchSpec(x, k)) in Elems(x)
    decreases x
  {
    var i := ScanForward(x.entries, k, 0);
    if i < |x.entries| && k == x.entries[i].key {
      MemberAround(x, i, x.entries[i]);
      assert x.entries[i] == Pair(k, x.entries[i].value);
    } else if !x.leaf {
      SearchSound(x.children[i], k);
      MemberAround(x, i, Pair(k, SearchSpec(x, k)));
    }
  }

  /** In a sorted tree, Search finds a pair stored under k whenever there is one. */
  lemma {:induction false} SearchComplete(x: BNode, k: int, v: int)
    requires Shaped(x) && Sorted(Elems(x))
    requires Pair(k, v) in Elems(x)
    ensures Pair(k, SearchSpec(x, k)) in Elems(x)
    decreases x
  {
    var i := ScanForward(x.entries, k, 0);
    if i < |x.entries| && k == x.entries[i].key {
      MemberAround(x, i, x.entries[i]);
      assert x.entries[i] == Pair(k, x.entries[i].value);
    } else {
      SearchDescends(x, k, v, i);
      SearchComplete(x.children[i], k, v);
      MemberAround(x, i, Pair(k, SearchSpec(x, k)));
    }
  }

  /** When the scan of a sorted node stops short of key k, a pair stored
      under k lies in the child the search descends into. */
  lemma {:induction false} SearchDescends(x: BNode, k: int, v: int, i: nat)
    requires Shaped(x) && Sorted(Elems(x)) && Pair(k, v) in Elems(x)
    requires i == ScanForward(x.entries, k, 0) && !(i < |x.entries| && k == x.entries[i].key)
    ensures !x.leaf && i < |x.children|
    ensures Pair(k, v) in Elems(x.children[i]) && Sorted(Elems(x.children[i]))
  {
    Around(x, i);
    var b := ElemsBefore(x, i);
    var e := ChildElems(x, i);
    var a := ElemsAfter(x, i);
    SortedParts(b, e, a);
    if i > 0 {
      assert b[|b| - 1] == x.entries[i - 1];
      NoneBelow(b, k, v);
    }
    if i < |x.entries| {
      assert a[0] == x.entries[i];
      NoneAbove(a, k, v);
    }
    InMiddle(b, e, a, Pair(k, v));
  }

  lemma {:induction false} InMiddle(b: seq<Pair>, e: seq<Pair>, a: seq<Pair>, p: Pair)
    requires p in b + e + a && p !in b && p !in a
    ensures p in e
  {
  }

  /** Keys that do not exceed a last key below k leave no pair under k. */
  lemma {:induction false} NoneBelow(b: seq<Pair>, k: int, v: int)
    requires b != [] && b[|b| - 1].key < k
    requires forall t :: 0 <= t < |b| ==> b[t].key <= b[|b| - 1].key
    ensures Pair(k, v) !in b
  {
  }

  /** Keys not below a first key above k leave no pair under k. */
  lemma {:induction false} NoneAbove(a: seq<Pair>, k: int, v: int)
    requires a != [] && k < a[0].key
    requires forall t :: 0 <= t < |a| ==> a[0].key <= a[t].key
    ensures Pair(k, v) !in a
  {
  }

  /** In a sorted tree, Search lands on a stored pair under k exactly when
      one exists, and returns -1 when none does. */
  lemma {:induction false} SearchFinds(x: BNode, k: int)
    requires Shaped(x) && Sorted(Elems(x))
    ensures (exists v :: Pair(k, v) in Elems(x)) <==> Pair(k, SearchSpec(x, k)) in Elems(x)
    ensures (forall v :: Pair(k, v) !in Elems(x)) ==> SearchSpec(x, k) == -1
  {
    if exists v :: Pair(k, v) in Elems(x) {
      var v :| Pair(k, v) in Elems(x);
      SearchComplete(x, k, v);
    }
    SearchSound(x, k);
  }

  // ---------------------------------------------------------------------------
  // The range and LIKE walks

  /** What a walk keeps, as a test on a slot's key. The walks differ only in
      this test, which the shared walk treats as given. */
  type Selector = int -> bool

  /** The test of the range walks: the key stands in relation rel to bound. */
  function ByRelation(rel: Relation, bound: int): Selector {
    key => Holds(rel, key - bound)
  }

  /** The test of the LIKE (want) and NOT LIKE (!want) walks on the decimal
      text of the key. */
  function ByPattern(pattern: string, want: bool): Selector {
    key => IsLikeMatch(DecimalText(key), pattern) == want
  }

  predicate Selects(sel: Selector, key: int) {
    sel(key)
  }

  /** The reference: the pairs of es that sel keeps, in order. */
  function Filter(es: seq<Pair>, sel: Selector): (r: seq<Pair>)
    ensures |r| <= |es|
  {
    if es == [] then []
    else (if Selects(sel, es[0].key) then [es[0]] else []) + Filter(es[1..], sel)
  }

  /** The walk of SearchGreaterThan, SearchGreaterThanOrEqual, SearchLike and
      SearchNotLike: at each slot, the slot's pair if it is kept, then the
      child before it; finally the last child. Every node is visited. */
  function FullWalk(x: BNode, sel: Selector): seq<Pair>
    decreases x, 1
  {
    FullWalkFrom(x, sel, 0)
  }

  function ChildFullWalk(x: BNode, sel: Selector, i: nat): seq<Pair>
    decreases x, 0, 0
  {
    if !x.leaf && i < |x.children| then FullWalk(x.children[i], sel) else []
  }

  function FullWalkFrom(x: BNode, sel: Selector, i: nat): seq<Pair>
    requires i <= |x.entries|
    decreases x, 0, |x.entries| - i + 1
  {
    if i < |x.entries| then
      (if Selects(sel, x.entries[i].key) then [x.entries[i]] else [])
      + ChildFullWalk(x, sel, i) + FullWalkFrom(x, sel, i + 1)
    else ChildFullWalk(x, sel, i)
  }

  /** The walk of SearchLessThan (rel = Less) and SearchLessThanOrEqual
      (rel = LessOrEqual): slots are taken left to right, each with the child
      before it, until the first slot whose key fails the relation; the last
      child is walked only when the last slot's key passes it. */
  function PrunedWalk(x: BNode, rel: Relation, k: int): seq<Pair>
    decreases x, 2
  {
    PrunedFrom(x, rel, k, 0)
  }

  function ChildPruned(x: BNode, rel: Relation, k: int, i: nat): seq<Pair>
    decreases x, 0
  {
    if !x.leaf && i < |x.children| then PrunedWalk(x.children[i], rel, k) else []
  }

  function LastChildPruned(x: BNode, rel: Relation, k: int): seq<Pair>
    decreases x, 0
  {
    var n := |x.entries|;
    if !x.leaf && 0 < n < |x.children| && Holds(rel, x.entries[n - 1].key - k)
    then PrunedWalk(x.children[n], rel, k)
    else []
  }

  function PrunedFrom(x: BNode, rel: Relation, k: int, i: nat): seq<Pair>
    requires i <= |x.entries|
    decreases x, 1, |x.entries| - i
  {
    if i < |x.entries| && Holds(rel, x.entries[i].key - k) then
      [x.entries[i]] + ChildPruned(x, rel, k, i) + PrunedFrom(x, rel, k, i + 1)
    else LastChildPruned(x, rel, k)
  }

  lemma {:induction false} FilterAppend(a: seq<Pair>, b: seq<Pair>, sel: Selector)
    ensures Filter(a + b, sel) == Filter(a, sel) + Filter(b, sel)
    decreases |a|
  {
    if a == [] {
      assert a + b == b;
    } else {
      assert (a + b)[0] == a[0];
      assert (a + b)[1..] == a[1..] + b;
      FilterAppend(a[1..], b, sel);
      var h := if Selects(sel, a[0].key) then [a[0]] else [];
      Regroup(h, Filter(a[1..], sel), Filter(b, sel));
    }
  }

  lemma {:induction false} FilterOne(e: Pair, sel: Selector)
    ensures Filter([e], sel) == if Selects(sel, e.key) then [e] else []
  {
    assert [e][1..] == [];
  }

  /** How often Filter keeps a pair: as often as it occurs, if it is kept. */
  lemma {:induction false} FilterCount(es: seq<Pair>, sel: Selector, p: Pair)
    ensures multiset(Filter(es, sel))[p] == if Selects(sel, p.key) then multiset(es)[p] else 0
    decreases |es|
  {
    if es != [] {
      FilterCount(es[1..], sel, p);
      assert es == [es[0]] + es[1..];
    }
  }

  /** Filters of permutations are permutations. */
  lemma {:induction false} FilterPerm(a: seq<Pair>, b: seq<Pair>, sel: Selector)
    requires multiset(a) == multiset(b)
    ensures multiset(Filter(a, sel)) == multiset(Filter(b, sel))
  {
    forall p ensures multiset(Filter(a, sel))[p] == multiset(Filter(b, sel))[p] {
      FilterCount(a, sel, p);
      FilterCount(b, sel, p);
    }
  }

  lemma {:induction false} FilterMember(es: seq<Pair>, sel: Selector, p: Pair)
    ensures p in Filter(es, sel) <==> p in es && Selects(sel, p.key)
  {
    FilterCount(es, sel, p);
    assert p in Filter(es, sel) <==> multiset(Filter(es, sel))[p] > 0;
    assert p in es <==> multiset(es)[p] > 0;
  }

  /** A keep-or-drop selector and its negation split any sequence. */
  lemma {:induction false} FilterPartition(es: seq<Pair>, pattern: string)
    ensures multiset(Filter(es, ByPattern(pattern, true))) + multiset(Filter(es, ByPattern(pattern, false)))
         == multiset(es)
    decreases |es|
  {
    if es != [] {
      FilterPartition(es[1..], pattern);
      assert es == [es[0]] + es[1..];
    }
  }

  // The node-first visit lists the same pairs as the in-order listing.

  lemma {:induction false} VisitElems(x: BNode)
    ensures multiset(Visit(x)) == multiset(Elems(x))
    decreases x, 1
  {
    VisitElemsFrom(x, 0);
  }

  lemma {:induction false} VisitElemsChild(x: BNode, i: nat)
    ensures multiset(ChildVisit(x, i)) == multiset(ChildElems(x, i))
    decreases x, 0, 0
  {
    if i < |x.children| {
      VisitElems(x.children[i]);
    }
  }

  lemma {:induction false} VisitElemsFrom(x: BNode, i: nat)
    requires i <= |x.entries|
    ensures multiset(VisitFrom(x, i)) == multiset(ElemsFrom(x, i))
    decreases x, 0, |x.entries| - i + 1
  {
    VisitElemsChild(x, i);
    if i < |x.entries| {
      VisitElemsFrom(x, i + 1);
    }
  }

  // The full walks are the reference filter over the visit order.

  lemma {:induction false} FullWalkVisit(x: BNode, sel: Selector)
    requires Shaped(x)
    ensures FullWalk(x, sel) == Filter(Visit(x), sel)
    decreases x, 1
  {
    FullWalkVisitFrom(x, sel, 0);
  }

  lemma {:induction false} FullWalkVisitChild(x: BNode, sel: Selector, i: nat)
    requires Shaped(x)
    ensures ChildFullWalk(x, sel, i) == Filter(ChildVisit(x, i), sel)
    decreases x, 0, 0
  {
    if i < |x.children| {
      FullWalkVisit(x.children[i], sel);
    }
  }

  lemma {:induction false} FullWalkVisitFrom(x: BNode, sel: Selector, i: nat)
    requires Shaped(x) && i <= |x.entries|
    ensures FullWalkFrom(x, sel, i) == Filter(VisitFrom(x, i), sel)
    decreases x, 0, |x.entries| - i + 1
  {
    FullWalkVisitChild(x, sel, i);
    if i < |x.entries| {
      FullWalkVisitFrom(x, sel, i + 1);
      var e := [x.entries[i]];
      FilterAppend(e + ChildVisit(x, i), VisitFrom(x, i + 1), sel);
      FilterAppend(e, ChildVisit(x, i), sel);
      FilterOne(x.entries[i], sel);
    }
  }

  /** The full walks return exactly the stored pairs the selector keeps, in
      node-first order; as a multiset, that is the kept stored pairs. */
  lemma {:induction false} FullWalkExact(x: BNode, sel: Selector)
    requires Shaped(x)
    ensures FullWalk(x, sel) == Filter(Visit(x), sel)
    ensures multiset(FullWalk(x, sel)) == multiset(Filter(Elems(x), sel))
    ensures forall p :: p in FullWalk(x, sel) <==> p in Elems(x) && Selects(sel, p.key)
  {
    FullWalkVisit(x, sel);
    VisitElems(x);
    FilterPerm(Visit(x), Elems(x), sel);
    forall p ensures p in FullWalk(x, sel) <==> p in Elems(x) && Selects(sel, p.key) {
      FilterMember(Elems(x), sel, p);
      assert p in FullWalk(x, sel) <==> multiset(FullWalk(x, sel))[p] > 0;
      assert p in Filter(Elems(x), sel) <==> multiset(Filter(Elems(x), sel))[p] > 0;
    }
  }

  /** SearchLike and SearchNotLike with the same pattern together return
      every stored pair exactly once. */
  lemma {:induction false} LikePartition(x: BNode, pattern: string)
    requires Shaped(x)
    ensures multiset(FullWalk(x, ByPattern(pattern, true))) + multiset(FullWalk(x, ByPattern(pattern, false)))
         == multiset(Elems(x))
  {
    FullWalkExact(x, ByPattern(pattern, true));
    FullWalkExact(x, ByPattern(pattern, false));
    FilterPartition(Elems(x), pattern);
  }

  /** Every range relation, walked over every node, returns exactly the
      stored pairs in that relation to the bound. This is the corrected walk
      for SearchLessThan and SearchLessThanOrEqual, and the walk the source
      uses for SearchGreaterThan and SearchGreaterThanOrEqual. */
  lemma {:induction false} RangeExact(x: BNode, rel: Relation, k: int)
    requires Shaped(x)
    ensures forall p :: p in FullWalk(x, ByRelation(rel, k)) <==> p in Elems(x) && Holds(rel, p.key - k)
  {
    FullWalkExact(x, ByRelation(rel, k));
    forall p ensures p in FullWalk(x, ByRelation(rel, k)) <==> p in Elems(x) && Holds(rel, p.key - k) {
      assert Selects(ByRelation(rel, k), p.key) == Holds(rel, p.key - k);
    }
  }

  // The pruned walks only return pairs in range.

  lemma {:induction false} PrunedSound(x: BNode, rel: Relation, k: int)
    ensures forall p :: p in PrunedWalk(x, rel, k) ==> p in Visit(x) && Holds(rel, p.key - k)
    decreases x, 2
  {
    PrunedFromSound(x, rel, k, 0);
  }

  lemma {:induction false} ChildPrunedSound(x: BNode, rel: Relation, k: int, i: nat)
    ensures forall p :: p in ChildPruned(x, rel, k, i) ==> p in ChildVisit(x, i) && Holds(rel, p.key - k)
    decreases x, 0
  {
    if !x.leaf && i < |x.children| {
      PrunedSound(x.children[i], rel, k);
    }
  }

  lemma {:induction false} LastChildPrunedSound(x: BNode, rel: Relation, k: int)
    ensures forall p :: p in LastChildPruned(x, rel, k) ==> p in ChildVisit(x, |x.entries|) && Holds(rel, p.key - k)
    decreases x, 0
  {
    var n := |x.entries|;
    if !x.leaf && 0 < n < |x.children| && Holds(rel, x.entries[n - 1].key - k) {
      PrunedSound(x.children[n], rel, k);
    }
  }

  lemma {:induction false} LastInVisitFrom(x: BNode, i: nat)
    requires i <= |x.entries|
    ensures forall p :: p in ChildVisit(x, |x.entries|) ==> p in VisitFrom(x, i)
    decreases |x.entries| - i
  {
    if i < |x.entries| {
      LastInVisitFrom(x, i + 1);
    }
  }

  lemma {:induction false} PrunedFromSound(x: BNode, rel: Relation, k: int, i: nat)
    requires i <= |x.entries|
    ensures forall p :: p in PrunedFrom(x, rel, k, i) ==> p in VisitFrom(x, i) && Holds(rel, p.key - k)
    decreases x, 1, |x.entries| - i
  {
    if i < |x.entries| && Holds(rel, x.entries[i].key - k) {
      ChildPrunedSound(x, rel, k, i);
      PrunedFromSound(x, rel, k, i + 1);
    } else {
      LastChildPrunedSound(x, rel, k);
      LastInVisitFrom(x, i);
    }
  }

  /** SearchLessThan and SearchLessThanOrEqual, as written, return only
      stored pairs in range. */
  lemma {:induction false} PrunedWalkSound(x: BNode, rel: Relation, k: int)
    ensures forall p :: p in PrunedWalk(x, rel, k) ==> p in Elems(x) && Holds(rel, p.key - k)
  {
    PrunedSound(x, rel, k);
    VisitElems(x);
    forall p | p in Visit(x) ensures p in Elems(x) {
      assert multiset(Visit(x))[p] > 0;
    }
  }

  /** A two-level tree: root slot 5 over leaves [3] and [7, 9]. */
  function MissExample(): (x: BNode)
    ensures |x.entries| == 1 && |x.children| == 2
  {
    BNode([Pair(5, 0)], [BNode([Pair(3, 1)], [], true), BNode([Pair(7, 2), Pair(9, 3)], [], true)], false)
  }

  /** The example's stored pairs, in order. */
  lemma {:induction false} MissExampleElems()
    ensures Elems(MissExample()) == [Pair(3, 1), Pair(5, 0), Pair(7, 2), Pair(9, 3)]
  {
    var x := MissExample();
    var l := x.children[0];
    var r := x.children[1];
    assert Elems(l) == [Pair(3, 1)] by {
      assert ElemsFrom(l, 1) == [];
    }
    assert Elems(r) == [Pair(7, 2), Pair(9, 3)] by {
      assert ElemsFrom(r, 2) == [];
      assert ElemsFrom(r, 1) == [Pair(9, 3)];
    }
    assert ElemsFrom(x, 1) == Elems(r);
  }

  /** The full walk "below 4" over the example returns the stored key 3. */
  lemma {:induction false} MissExampleFull()
    ensures FullWalk(MissExample(), ByRelation(Less, 4)) == [Pair(3, 1)]
  {
    var x := MissExample();
    var sel := ByRelation(Less, 4);
    assert sel(3) && !sel(5) && !sel(7) && !sel(9);
    var l := x.children[0];
    var r := x.children[1];
    assert FullWalk(l, sel) == [Pair(3, 1)] by {
      assert FullWalkFrom(l, sel, 1) == [];
    }
    assert FullWalk(r, sel) == [] by {
      assert FullWalkFrom(r, sel, 2) == [];
      assert FullWalkFrom(r, sel, 1) == [];
    }
    assert FullWalkFrom(x, sel, 1) == [];
  }

  /** As written, the pruned walks are incomplete: "below 4" stops at the
      root slot 5 without walking the child before it, and the last child is
      skipped since 5 is not below 4, so the stored key 3 is never returned. */
  lemma {:induction false} PrunedWalkMisses()
    ensures WF(MissExample(), 1)
    ensures Pair(3, 1) in Elems(MissExample())
    ensures PrunedWalk(MissExample(), Less, 4) == []
    ensures PrunedWalk(MissExample(), LessOrEqual, 4) == []
    ensures FullWalk(MissExample(), ByRelation(Less, 4)) == [Pair(3, 1)]
  {
    MissExampleElems();
    MissExampleWF();
    MissExamplePruned();
    MissExampleFull();
  }

  /** The example is a well-formed tree of height 1. */
  lemma {:induction false} MissExampleWF()
    ensures WF(MissExample(), 1)
  {
    var x := MissExample();
    MissExampleElems();
    assert Shaped(x.children[0]) && Shaped(x.children[1]);
    assert Balanced(x.children[0], 0) && Balanced(x.children[1], 0);
  }

  /** Both pruned walks "below 4" and "at most 4" return nothing on the
      example. */
  lemma {:induction false} MissExamplePruned()
    ensures PrunedWalk(MissExample(), Less, 4) == []
    ensures PrunedWalk(MissExample(), LessOrEqual, 4) == []
  {
    var x := MissExample();
    assert PrunedFrom(x, Less, 4, 0) == [];
    assert PrunedFrom(x, LessOrEqual, 4, 0) == [];
  }
}
