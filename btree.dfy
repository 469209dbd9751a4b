/** BTreeIndex as the source writes it: nodes are objects with fixed-size
    key, value and child arrays and a slot count n, updated in place. Each
    node carries a ghost Model (its subtree as a BTreeModel.BNode value) and
    a ghost footprint Repr; every method is proved to act on the Model as the
    matching function of BTreeModel does, and the properties of the index
    are proved about those functions. */
module BTree {
  import opened Text
  import opened Like
  import opened BTreeModel

  class Node {
    var keys: array<int>
    var values: array<int>
    var children: array<Node?>
    var n: int
    var leaf: bool
    ghost var Model: BNode
    ghost var Repr: set<object>

    /** The node's own slots agree with its Model. */
    ghost predicate Local()
      reads this, keys, values
    {
      && keys.Length == MaxKeys && values.Length == MaxKeys && children.Length == MaxKeys + 1
      && keys != values
      && 0 <= n <= MaxKeys
      && Model.leaf == leaf
      && |Model.entries| == n
      && (forall j :: 0 <= j < n ==> Model.entries[j] == Pair(keys[j], values[j]))
      && (leaf ==> Model.children == [])
    }

    /** The node's own objects. */
    ghost function Own(): set<object>
      reads this
    {
      {this, keys, values, children}
    }

    /** Child slot j holds a valid node whose footprint lies inside this
        node's, away from the node's own objects, and whose Model is child j
        of this node's Model. */
    ghost predicate Child(j: int)
      reads this, Repr
      decreases Repr, 0
    {
      && this in Repr && children in Repr && 0 <= j < children.Length
      && children[j] != null && children[j] in Repr
      && children[j].Repr <= Repr && Own() !! children[j].Repr
      && children[j].Valid()
      && j < |Model.children| && children[j].Model == Model.children[j]
    }

    /** Child slots a and b have disjoint footprints. */
    ghost predicate Apart(a: int, b: int)
      reads this, Repr
    {
      && children in Repr && 0 <= a < children.Length && 0 <= b < children.Length
      && children[a] != null && children[b] != null && children[a] in Repr && children[b] in Repr
      && children[a].Repr !! children[b].Repr
    }

    /** The footprint of child slot j, when it holds a node. */
    ghost function ChildRepr(j: int): set<object>
      reads this, Repr
    {
      if children in Repr && 0 <= j < children.Length && children[j] != null && children[j] in Repr
      then children[j].Repr else {}
    }

    /** Object invariant: the node's own objects are in its footprint, its
        slots agree with its Model, and when it is internal its first n + 1
        children are valid, pairwise apart, and carry the Model's children.
        A node has at most 2T = 4 children, so the child slots are written
        out one by one; Parts and Assemble give the quantified form. */
    ghost predicate Valid()
      reads this, Repr
      decreases Repr, 1
    {
      && Own() <= Repr
      && Local()
      && (!leaf ==>
            && |Model.children| == n + 1
            && Child(0)
            && (1 <= n ==> Child(1) && Apart(0, 1))
            && (2 <= n ==> Child(2) && Apart(0, 2) && Apart(1, 2))
            && (3 <= n ==> Child(3) && Apart(0, 3) && Apart(1, 3) && Apart(2, 3)))
    }

    constructor (isLeaf: bool)
      ensures Local() && n == 0 && leaf == isLeaf
      ensures Model == BNode([], [], isLeaf)
      ensures Repr == {this, keys, values, children}
      ensures fresh(keys) && fresh(values) && fresh(children)
      ensures isLeaf ==> Valid()
    {
      leaf := isLeaf;
      keys := new int[MaxKeys];
      values := new int[MaxKeys];
      children := new Node?[MaxKeys + 1];
      n := 0;
      Model := BNode([], [], isLeaf);
      Repr := {this, keys, values, children};
    }
  }

  class BTreeIndex {
    var root: Node
    /** Depth of every leaf below the root. */
    ghost var height: nat
    ghost var Repr: set<object>
    /** string.GetHashCode, fixed for the lifetime of the index. */
    const hash: string -> int

    /** The index invariant: a valid root whose Model is a well-formed
        B-tree of the recorded height. */
    ghost predicate Valid()
      reads this, Repr
    {
      && this in Repr && root in Repr && root.Repr <= Repr && this !in root.Repr
      && root.Valid() && WF(root.Model, height)
    }

    /** A new index holds an empty leaf root. */
    constructor (hash: string -> int)
      ensures Valid() && fresh(Repr)
      ensures root.Model == BNode([], [], true) && height == 0 && this.hash == hash
    {
      this.hash := hash;
      var r := new Node(true);
      root := r;
      height := 0;
      Repr := {this} + r.Repr;
      new;
      assert Elems(r.Model) == [] by {
        assert ElemsFrom(r.Model, 0) == [];
      }
    }

    /** Insert(key, value): the pair (hash(key), value) goes into the tree;
        a full root is first split under a new root, which is the only way
        the tree grows a level. */
    method Insert(key: string, value: int)
      requires Valid()
      modifies Repr
      ensures Valid() && fresh(Repr - old(Repr))
      ensures root.Model == InsertSpec(old(root.Model), old(height), hash(key), value)
      ensures height == Grown(old(root.Model), old(height))
      ensures multiset(Elems(root.Model)) == multiset(Elems(old(root.Model))) + multiset{Pair(hash(key), value)}
    {
      var keyHash := hash(key);
      InsertKeepsTree(root.Model, height, keyHash, value);
      var s, h := InsertAtRoot(root, height, keyHash, value);
      SetRoot(s, h);
    }

    /** The two branches of Insert below the index object: a full root r
        is split under a new root, which s then names, and otherwise s is r
        with the pair inserted. */
    method InsertAtRoot(r: Node, ghost h: nat, k: int, v: int) returns (s: Node, ghost g: nat)
      requires r.Valid() && Shaped(r.Model) && Balanced(r.Model, h)
      modifies r.Repr
      ensures s.Valid() && fresh(s.Repr - old(r.Repr))
      ensures s.Model == InsertSpec(old(r.Model), h, k, v) && g == Grown(old(r.Model), h)
    {
      if r.n == MaxKeys {
        s := GrowRoot(r, h, k, v);
        g := h + 1;
      } else {
        InsertNonFull(r, h, k, v);
        s, g := r, h;
      }
    }

    /** root = s, with the ghost height and footprint brought up to date. */
    method SetRoot(s: Node, ghost h: nat)
      requires this in Repr && this !in s.Repr && s.Valid() && WF(s.Model, h)
      modifies this
      ensures Valid() && root == s && height == h && Repr == old(Repr) + s.Repr
    {
      root, height, Repr := s, h, Repr + s.Repr;
    }

    /** The full-root branch of Insert: a new internal node s takes the root
        r as its only child and splits it, and the pair goes into child 1 of
        s when the median's key is below k, else into child 0. */
    method GrowRoot(r: Node, ghost h: nat, k: int, v: int) returns (s: Node)
      requires r.Valid() && Shaped(r.Model) && Balanced(r.Model, h) && r.n == MaxKeys
      modifies r.Repr
      ensures s.Valid() && fresh(s.Repr - old(r.Repr))
      ensures s.Model == InsertSplitRoot(old(r.Model), h, k, v)
    {
      s := Lift(r, h);
      var i := 0;
      if s.keys[0] < k {
        i := i + 1;
      }
      DescendInto(s, h + 1, i, k, v);
    }

    /** The first half of GrowRoot: the full root r becomes the only child
        of a new internal node s, and is split there. */
    method Lift(r: Node, ghost h: nat) returns (s: Node)
      requires r.Valid() && Shaped(r.Model) && Balanced(r.Model, h) && r.n == MaxKeys
      modifies r
      ensures s.Valid() && fresh(s.Repr - old(r.Repr))
      ensures s.Model == SplitRoot(old(r.Model), h) && s.n == 1
    {
      s := NewRoot(r);
      SplitChild(s, 0, r);
      RootSplits(old(r.Model), h);
    }

    /** A new internal node with no slots whose only child is r. */
    method NewRoot(r: Node) returns (s: Node)
      requires r.Valid()
      ensures fresh(s.Own()) && s.Repr == s.Own() + r.Repr
      ensures s.Valid() && !s.leaf && s.n == 0 && s.children[0] == r
      ensures s.Model == BNode([], [r.Model], false)
    {
      s := new Node(false);
      s.children[0] := r;
      s.Model := BNode([], [r.Model], false);
      s.Repr := s.Repr + r.Repr;
      assert s.Child(0);
    }

    /** Search(key): a value stored under hash(key) when there is one, and
        -1 when there is none. */
    method Search(key: string) returns (r: int)
      requires Valid()
      ensures (exists v :: Pair(hash(key), v) in Elems(root.Model)) <==> Pair(hash(key), r) in Elems(root.Model)
      ensures (forall v :: Pair(hash(key), v) !in Elems(root.Model)) ==> r == -1
    {
      r := SearchNode(root, hash(key));
      SearchFinds(root.Model, hash(key));
    }

    /** SearchGreaterThan(key): in node-first order, the values of exactly
        the stored pairs whose key is above hash(key), each as often as it
        is stored. */
    method SearchGreaterThan(key: string) returns (result: seq<int>)
      requires Valid()
      ensures result == Values(Filter(Visit(root.Model), ByRelation(Greater, hash(key))))
      ensures forall p :: p in Filter(Visit(root.Model), ByRelation(Greater, hash(key))) <==> p in Elems(root.Model) && p.key > hash(key)
      ensures multiset(Filter(Visit(root.Model), ByRelation(Greater, hash(key)))) == multiset(Filter(Elems(root.Model), ByRelation(Greater, hash(key))))
    {
      Children(root);
      result := WalkRec(root, ByRelation(Greater, hash(key)));
      FullWalkExact(root.Model, ByRelation(Greater, hash(key)));
      RangeExact(root.Model, Greater, hash(key));
    }

    /** SearchGreaterThanOrEqual(key): as SearchGreaterThan, for keys not
        below hash(key). */
    method SearchGreaterThanOrEqual(key: string) returns (result: seq<int>)
      requires Valid()
      ensures result == Values(Filter(Visit(root.Model), ByRelation(GreaterOrEqual, hash(key))))
      ensures forall p :: p in Filter(Visit(root.Model), ByRelation(GreaterOrEqual, hash(key))) <==> p in Elems(root.Model) && p.key >= hash(key)
      ensures multiset(Filter(Visit(root.Model), ByRelation(GreaterOrEqual, hash(key)))) == multiset(Filter(Elems(root.Model), ByRelation(GreaterOrEqual, hash(key))))
    {
      Children(root);
      result := WalkRec(root, ByRelation(GreaterOrEqual, hash(key)));
      FullWalkExact(root.Model, ByRelation(GreaterOrEqual, hash(key)));
      RangeExact(root.Model, GreaterOrEqual, hash(key));
    }

    /** SearchLike(pattern): in node-first order, the values of exactly the
        stored pairs whose key, written in decimal, matches the pattern. The
        pattern is matched against the hash, not against the indexed
        string. */
    method SearchLike(pattern: string) returns (result: seq<int>)
      requires Valid()
      ensures result == Values(Filter(Visit(root.Model), ByPattern(pattern, true)))
      ensures forall p :: p in Filter(Visit(root.Model), ByPattern(pattern, true)) <==> p in Elems(root.Model) && IsLikeMatch(DecimalText(p.key), pattern)
    {
      Children(root);
      result := WalkRec(root, ByPattern(pattern, true));
      FullWalkExact(root.Model, ByPattern(pattern, true));
    }

    /** SearchNotLike(pattern): the values of exactly the stored pairs whose
        key's decimal text does not match; with SearchLike it returns every
        stored pair once. */
    method SearchNotLike(pattern: string) returns (result: seq<int>)
      requires Valid()
      ensures result == Values(Filter(Visit(root.Model), ByPattern(pattern, false)))
      ensures forall p :: p in Filter(Visit(root.Model), ByPattern(pattern, false)) <==> p in Elems(root.Model) && !IsLikeMatch(DecimalText(p.key), pattern)
      ensures multiset(Filter(Visit(root.Model), ByPattern(pattern, true))) + multiset(Filter(Visit(root.Model), ByPattern(pattern, false))) == multiset(Elems(root.Model))
    {
      Children(root);
      result := WalkRec(root, ByPattern(pattern, false));
      FullWalkExact(root.Model, ByPattern(pattern, false));
      FullWalkExact(root.Model, ByPattern(pattern, true));
      LikePartition(root.Model, pattern);
    }

    /** SearchLessThan(key), as written: every value it returns is stored
        under a key below hash(key), but the child before the slot where the
        scan stops is never visited, so values can be missed (see
        PrunedWalkMisses). */
    method SearchLessThan(key: string) returns (result: seq<int>)
      requires Valid()
      ensures result == Values(PrunedWalk(root.Model, Less, hash(key)))
      ensures forall p :: p in PrunedWalk(root.Model, Less, hash(key)) ==> p in Elems(root.Model) && p.key < hash(key)
    {
      Children(root);
      result := PrunedRec(root, Less, hash(key));
      PrunedWalkSound(root.Model, Less, hash(key));
    }

    /** SearchLessThanOrEqual(key), as written: sound but not complete, as
        SearchLessThan. */
    method SearchLessThanOrEqual(key: string) returns (result: seq<int>)
      requires Valid()
      ensures result == Values(PrunedWalk(root.Model, LessOrEqual, hash(key)))
      ensures forall p :: p in PrunedWalk(root.Model, LessOrEqual, hash(key)) ==> p in Elems(root.Model) && p.key <= hash(key)
    {
      Children(root);
      result := PrunedRec(root, LessOrEqual, hash(key));
      PrunedWalkSound(root.Model, LessOrEqual, hash(key));
    }

    /** SearchLessThan as evidently intended: the walk of SearchGreaterThan,
        which visits every child, with the test reversed. It returns the
        values of exactly the stored pairs whose key is below hash(key). */
    method SearchLessThanComplete(key: string) returns (result: seq<int>)
      requires Valid()
      ensures result == Values(Filter(Visit(root.Model), ByRelation(Less, hash(key))))
      ensures forall p :: p in Filter(Visit(root.Model), ByRelation(Less, hash(key))) <==> p in Elems(root.Model) && p.key < hash(key)
    {
      Children(root);
      result := WalkRec(root, ByRelation(Less, hash(key)));
      FullWalkExact(root.Model, ByRelation(Less, hash(key)));
      RangeExact(root.Model, Less, hash(key));
    }

    /** SearchLessThanOrEqual as evidently intended. */
    method SearchLessThanOrEqualComplete(key: string) returns (result: seq<int>)
      requires Valid()
      ensures result == Values(Filter(Visit(root.Model), ByRelation(LessOrEqual, hash(key))))
      ensures forall p :: p in Filter(Visit(root.Model), ByRelation(LessOrEqual, hash(key))) <==> p in Elems(root.Model) && p.key <= hash(key)
    {
      Children(root);
      result := WalkRec(root, ByRelation(LessOrEqual, hash(key)));
      FullWalkExact(root.Model, ByRelation(LessOrEqual, hash(key)));
      RangeExact(root.Model, LessOrEqual, hash(key));
    }

    /** SplitChild(x, i, y), y being the full child i of x: a new node z
        takes the upper T - 1 slots of y (and its upper T children), y keeps
        the lower T - 1, the later children and slots of x move one place
        right, and z and the median slot of y take the places freed. */
    method SplitChild(x: Node, i: int, y: Node)
      requires x.Valid() && !x.leaf && x.n < MaxKeys && 0 <= i <= x.n
      requires x.children[i] == y && y.Valid() && y.Model == x.Model.children[i] && y.n == MaxKeys
      modifies x, x.keys, x.values, x.children, y
      ensures x.Valid() && x.Own() == old(x.Own())
      ensures x.Model == SplitChildSpec(old(x.Model), i)
      ensures fresh(x.Repr - old(x.Repr))
    {
      ghost var yr := if y.leaf then {} else y.ChildRepr(0) + y.ChildRepr(1);
      ghost var zr := if y.leaf then {} else y.ChildRepr(2) + y.ChildRepr(3);
      var z := UpperHalf(y);
      Link(x, i, y, z, yr, zr);
      SplitDone(x, i, y, z);
    }

    /** InsertNonFull(x, k, v) on a node with room for one more slot: in a
        leaf the pair goes into place; in an internal node it goes into the
        child that k belongs in, split first when it is full. */
    method InsertNonFull(x: Node, ghost h: nat, k: int, v: int)
      requires x.Valid() && Shaped(x.Model) && Balanced(x.Model, h) && x.n < MaxKeys
      modifies x.Repr
      ensures x.Valid() && x.Own() == old(x.Own()) && fresh(x.Repr - old(x.Repr))
      ensures x.Model == InsertNonFullSpec(old(x.Model), h, k, v)
      decreases h, 2
    {
      if x.leaf {
        InsertLeaf(x, k, v);
      } else {
        var i := MakeRoom(x, h, k);
        DescendInto(x, h, i, k, v);
      }
    }

    /** The leaf branch of InsertNonFull: scanning back from the last slot,
        every pair whose key is above k moves one place right, and the new
        pair takes the place freed. */
    method InsertLeaf(x: Node, k: int, v: int)
      requires x.Local() && x.leaf && x.n < MaxKeys
      modifies x, x.keys, x.values
      ensures x.Local() && x.Own() == old(x.Own()) && x.Repr == old(x.Repr) && x.leaf
      ensures x.Model == BNode(InsertSlot(old(x.Model.entries), k, v), [], true)
    {
      ghost var es := x.Model.entries;
      ghost var r := InsertSlot(es, k, v);
      var i := ShiftAbove(x.keys, x.values, x.n, k, v, es);
      EntriesPlaced(x.keys, x.values, es, i + 1, Pair(k, v), r);
      x.n, x.Model := x.n + 1, BNode(r, [], true);
    }

    /** The array work of InsertNonFull's leaf branch: from the last slot
        down, each pair whose key is above k moves one place right, and
        (k, v) goes into the slot after the scan stops. The result is the
        last slot whose key is not above k, or -1. */
    method ShiftAbove(keys: array<int>, values: array<int>, n: int, k: int, v: int, ghost es: seq<Pair>) returns (i: int)
      requires 0 <= n == |es| < keys.Length && n < values.Length && keys != values
      requires forall t :: 0 <= t < n ==> Pair(keys[t], values[t]) == es[t]
      modifies keys, values
      ensures i == ScanBack(es, k, n - 1)
      ensures forall t :: 0 <= t <= i ==> Pair(keys[t], values[t]) == es[t]
      ensures Pair(keys[i + 1], values[i + 1]) == Pair(k, v)
      ensures forall t :: i + 1 < t <= n ==> Pair(keys[t], values[t]) == es[t - 1]
    {
      i := n - 1;
      while i >= 0 && keys[i] > k
        invariant -1 <= i < n
        invariant ScanBack(es, k, n - 1) == ScanBack(es, k, i)
        invariant forall t :: 0 <= t <= i ==> Pair(keys[t], values[t]) == es[t]
        invariant forall t :: i + 1 < t <= n ==> Pair(keys[t], values[t]) == es[t - 1]
      {
        keys[i + 1] := keys[i];
        values[i + 1] := values[i];
        i := i - 1;
      }
      keys[i + 1] := k;
      values[i + 1] := v;
    }

    /** The loop of InsertNonFull's internal branch: from the last slot
        down, past every key above k. */
    method ScanDown(x: Node, k: int) returns (i: int)
      requires x.Local()
      ensures i == ScanBack(x.Model.entries, k, x.n - 1)
    {
      i := x.n - 1;
      while i >= 0 && x.keys[i] > k
        invariant -1 <= i < x.n
        invariant ScanBack(x.Model.entries, k, x.n - 1) == ScanBack(x.Model.entries, k, i)
      {
        i := i - 1;
      }
    }

    /** The internal branch of InsertNonFull up to the recursive call: scan
        back to the child k belongs in, and when that child is full split it
        and go right of the median when the median's key is below k. */
    method MakeRoom(x: Node, ghost h: nat, k: int) returns (i: int)
      requires x.Valid() && Shaped(x.Model) && Balanced(x.Model, h) && x.n < MaxKeys && !x.leaf
      modifies x.Repr
      ensures x.Valid() && x.Own() == old(x.Own()) && fresh(x.Repr - old(x.Repr))
      ensures x.Model == Room(old(x.Model), h, k) && i == Route(old(x.Model), h, k)
      ensures 0 <= i <= x.n
    {
      i := ScanDown(x, k);
      i := SplitFor(x, h, i + 1, k);
    }

    /** MakeRoom once the scan has found child j, the one k belongs in:
        when that child is full, split it and go right of the median when
        the median's key is below k. */
    method SplitFor(x: Node, ghost h: nat, j: int, k: int) returns (i: int)
      requires x.Valid() && Shaped(x.Model) && Balanced(x.Model, h) && x.n < MaxKeys && !x.leaf
      requires j == Place(x.Model, k)
      modifies x.Repr
      ensures x.Valid() && x.Own() == old(x.Own()) && fresh(x.Repr - old(x.Repr))
      ensures x.Model == Room(old(x.Model), h, k) && i == Route(old(x.Model), h, k)
      ensures 0 <= i <= x.n
    {
      i := j;
      ChildCount(x, j);
      if x.children[j].n == MaxKeys {
        RoomSplits(x.Model, h, k);
        SplitChild(x, j, x.children[j]);
        if x.keys[i] < k {
          i := i + 1;
        }
      } else {
        RoomKeeps(x.Model, h, k);
      }
    }

    /** The recursive call of InsertNonFull into child c, which has room,
        with the child's new subtree recorded in x's Model and footprint. */
    method DescendInto(x: Node, ghost h: nat, c: int, k: int, v: int)
      requires x.Valid() && Shaped(x.Model) && Balanced(x.Model, h) && !x.leaf && 0 <= c <= x.n
      requires |x.Model.children[c].entries| < MaxKeys
      modifies x.Repr
      ensures x.Valid() && x.Own() == old(x.Own()) && fresh(x.Repr - old(x.Repr))
      ensures x.Model == Descend(old(x.Model), h, c, k, v)
      decreases h, 1
    {
      assert x.Child(c) by { var _ := Parts(x); }
      var y := x.children[c];
      assert Shaped(y.Model) && Balanced(y.Model, h - 1);
      InsertNonFull(y, h - 1, k, v);
      ghost var kids := Adopted(x, c, y);
      Adopt(x, c, y, kids);
    }

    /** Records in x's Model and footprint the new subtree of its child c. */
    method Adopt(x: Node, c: int, y: Node, ghost kids: seq<Node?>)
      requires x.Local() && x.Own() <= x.Repr && !x.leaf && 0 <= c <= x.n && x != y
      requires |kids| == x.n + 1 == |x.Model.children|
      requires forall j :: 0 <= j < |kids| ==> x.children[j] == kids[j]
      requires forall j :: 0 <= j < |kids| ==> kids[j] != null && kids[j] in x.Repr + y.Repr && kids[j].Valid()
      requires forall j :: 0 <= j < |kids| ==> kids[j].Model == x.Model.children[c := y.Model][j]
      requires forall j :: 0 <= j < |kids| ==> kids[j].Repr <= x.Repr + y.Repr && x.Own() !! kids[j].Repr
      requires forall a, b :: 0 <= a < b < |kids| ==> kids[a].Repr !! kids[b].Repr
      modifies x
      ensures x.Valid()
      ensures x.Model == BNode(old(x.Model.entries), old(x.Model.children)[c := y.Model], false)
      ensures x.Repr == old(x.Repr) + y.Repr && x.Own() == old(x.Own())
    {
      x.Model, x.Repr := BNode(x.Model.entries, x.Model.children[c := y.Model], false), x.Repr + y.Repr;
      Assemble(x, kids);
    }

    /** The rest of SplitChild once z holds the upper half of y: the
        median slot of y and z go into x at slot i and child i + 1, and y
        keeps its lower half. */
    method Link(x: Node, i: int, y: Node, z: Node, ghost yr: set<object>, ghost zr: set<object>)
      requires x.Local() && !x.leaf && x.n < MaxKeys && 0 <= i <= x.n && |x.Model.children| == x.n + 1
      requires x.children[i] == y && x.Model.children[i] == y.Model
      requires y.Local() && y.n == MaxKeys && (!y.leaf ==> |y.Model.children| == MaxKeys + 1)
      requires z.Local() && z.leaf == y.leaf && z.n == T - 1
      requires z.Model == BNode(y.Model.entries[T..], if y.leaf then [] else y.Model.children[T..], y.leaf)
      requires x != y && x != z && y != z
      requires x.keys != y.keys && x.keys != y.values
      requires x.values != y.keys && x.values != y.values && x.children != z.children
      requires x.keys != z.keys && x.keys != z.values && x.values != z.keys && x.values != z.values
      modifies x, x.keys, x.values, x.children, y, z
      ensures x.keys == old(x.keys) && x.values == old(x.values) && x.children == old(x.children) && x.Own() == old(x.Own())
      ensures x.leaf == old(x.leaf) && x.n == old(x.n) + 1 && x.Local()
      ensures forall t :: 0 <= t <= i ==> x.children[t] == old(x.children[t])
      ensures x.children[i + 1] == z
      ensures forall t :: i + 2 <= t <= x.n ==> x.children[t] == old(x.children[t - 1])
      ensures x.Model == SplitChildSpec(old(x.Model), i)
      ensures x.Model.children == old(x.Model.children[..i]) + [y.Model, z.Model] + old(x.Model.children[i + 1..])
      ensures x.Repr == old(x.Repr) + z.Own()
      ensures y.keys == old(y.keys) && y.values == old(y.values) && y.children == old(y.children)
      ensures y.leaf == old(y.leaf) && y.n == T - 1
      ensures y.Model == BNode(old(y.Model).entries[..T - 1], if y.leaf then [] else old(y.Model).children[..T], y.leaf)
      ensures y.Repr == y.Own() + yr
      ensures z.keys == old(z.keys) && z.values == old(z.values) && z.children == old(z.children)
      ensures z.Local() && z.leaf == old(z.leaf) && z.n == T - 1 && z.Model == old(z.Model) && z.Repr == z.Own() + zr
    {
      PlaceMedian(x, i, y, z);
      y.n := T - 1;
      y.Model := BNode(y.Model.entries[..T - 1], if y.leaf then [] else y.Model.children[..T], y.leaf);
      y.Repr := y.Own() + yr;
      z.Repr := z.Own() + zr;
      x.Repr := x.Repr + z.Own();
    }

    /** The median slot of the full child y moves into x at slot i and z
        becomes child i + 1, later slots and children of x moving one place
        right; x's Model becomes SplitChildSpec of its old Model. */
    method PlaceMedian(x: Node, i: int, y: Node, z: Node)
      requires x.Local() && !x.leaf && x.n < MaxKeys && 0 <= i <= x.n && |x.Model.children| == x.n + 1
      requires x.Model.children[i] == y.Model
      requires y.Local() && y.n == MaxKeys && (!y.leaf ==> |y.Model.children| == MaxKeys + 1)
      requires x != y && x.keys != y.keys && x.keys != y.values && x.values != y.keys && x.values != y.values
      modifies x, x.keys, x.values, x.children
      ensures x.keys == old(x.keys) && x.values == old(x.values) && x.children == old(x.children)
      ensures x.leaf == old(x.leaf) && x.n == old(x.n) + 1 && x.Local() && x.Repr == old(x.Repr)
      ensures forall t :: 0 <= t <= i ==> x.children[t] == old(x.children[t])
      ensures x.children[i + 1] == z
      ensures forall t :: i + 2 <= t <= x.n ==> x.children[t] == old(x.children[t - 1])
      ensures x.Model == SplitChildSpec(old(x.Model), i)
    {
      ghost var M := x.Model;
      ShiftChildren(x.children, i + 1, x.n);
      x.children[i + 1] := z;
      PlacePair(x, i, y.keys[T - 1], y.values[T - 1]);
      EntriesPlaced(x.keys, x.values, M.entries, i, Pair(y.keys[T - 1], y.values[T - 1]), SplitChildSpec(M, i).entries);
      x.n := x.n + 1;
      x.Model := SplitChildSpec(M, i);
    }

    /** The pair (k, v) goes into slot i of x's arrays, the pairs from slot i
        on moving one place right; x's slot count and Model are left to the
        caller. */
    method PlacePair(x: Node, i: int, k: int, v: int)
      requires x.Local() && 0 <= i <= x.n < MaxKeys
      modifies x.keys, x.values
      ensures forall t :: 0 <= t < i ==> Pair(x.keys[t], x.values[t]) == x.Model.entries[t]
      ensures x.keys[i] == k && x.values[i] == v
      ensures forall t :: i < t <= x.n ==> Pair(x.keys[t], x.values[t]) == x.Model.entries[t - 1]
    {
      ShiftPairs(x.keys, x.values, i, x.n);
      x.keys[i] := k;
      x.values[i] := v;
    }

    /** The start of SplitChild: a new node z of y's kind takes the upper
        T - 1 slots of the full node y and, when y is internal, its upper T
        children. y itself is not changed. */
    method UpperHalf(y: Node) returns (z: Node)
      requires y.Local() && y.n == MaxKeys && (!y.leaf ==> |y.Model.children| == MaxKeys + 1)
      ensures fresh(z) && fresh(z.keys) && fresh(z.values) && fresh(z.children)
      ensures z.Local() && z.leaf == y.leaf && z.n == T - 1 && z.Repr == z.Own()
      ensures z.Model == BNode(y.Model.entries[T..], if y.leaf then [] else y.Model.children[T..], y.leaf)
      ensures !y.leaf ==> z.children[0] == y.children[T] && z.children[1] == y.children[T + 1]
    {
      z := new Node(y.leaf);
      z.n := T - 1;
      CopyPairs(y.keys, y.values, z.keys, z.values, T, T - 1);
      if !y.leaf {
        CopyChildren(y.children, z.children, T, T);
      }
      z.Model := BNode(y.Model.entries[T..], if y.leaf then [] else y.Model.children[T..], y.leaf);
    }

    /** Search(x, k): scan to the first slot whose key is not below k; return
        its value when the key is k, -1 in a leaf, else descend. */
    method SearchNode(x: Node, k: int) returns (r: int)
      requires x.Valid() && Shaped(x.Model)
      ensures r == SearchSpec(x.Model, k)
      decreases x.Repr
    {
      var i := 0;
      while i < x.n && k > x.keys[i]
        invariant 0 <= i <= x.n
        invariant ScanForward(x.Model.entries, k, 0) == ScanForward(x.Model.entries, k, i)
      {
        i := i + 1;
      }
      if i < x.n && k == x.keys[i] {
        return x.values[i];
      }
      if x.leaf {
        return -1;
      }
      r := SearchNode(x.children[i], k);
    }

    /** The walk shared by SearchGreaterThanRec, SearchGreaterThanOrEqualRec,
        SearchLikeRec and SearchNotLikeRec, which differ only in the test on a
        slot's key (sel): every slot in turn, then the last child. */
    method WalkRec(x: Node, sel: Selector) returns (result: seq<int>)
      requires x.Local() && forall i :: 0 <= i <= x.n && !x.leaf ==> x.Child(i)
      ensures result == Values(FullWalk(x.Model, sel))
      decreases x.Repr, 2
    {
      ghost var m := x.Model;
      result := [];
      var i := 0;
      while i < x.n
        invariant 0 <= i <= x.n
        invariant Values(FullWalk(m, sel)) == result + Values(FullWalkFrom(m, sel, i))
      {
        result := WalkSlot(x, i, sel, result);
        i := i + 1;
      }
      var sub := WalkTail(x, sel);
      result := result + sub;
    }

    /** One turn of the walk's loop: slot i's value when its key passes the
        test, then child i (the source walks it in both branches of the test). */
    method WalkSlot(x: Node, i: int, sel: Selector, acc: seq<int>) returns (result: seq<int>)
      requires x.Local() && 0 <= i < x.n && (!x.leaf ==> x.Child(i))
      ensures acc + Values(FullWalkFrom(x.Model, sel, i)) == result + Values(FullWalkFrom(x.Model, sel, i + 1))
      decreases x.Repr, 1
    {
      var here: seq<int> := [];
      if Selects(sel, x.keys[i]) {
        here := [x.values[i]];
      }
      var sub := WalkChild(x, i, sel);
      NodeWalkStep(x, sel, i, here, sub);
      Assoc(acc, here + sub, Values(FullWalkFrom(x.Model, sel, i + 1)));
      result := acc + (here + sub);
    }

    /** After the loop: the last child, walked whatever its keys. */
    method WalkTail(x: Node, sel: Selector) returns (sub: seq<int>)
      requires x.Local() && (!x.leaf ==> x.Child(x.n))
      ensures sub == Values(FullWalkFrom(x.Model, sel, x.n))
      decreases x.Repr, 1
    {
      sub := WalkChild(x, x.n, sel);
      NodeWalkLast(x, sel, sub);
    }

    /** The recursive call into child i of an internal node; nothing for a leaf. */
    method WalkChild(x: Node, i: int, sel: Selector) returns (sub: seq<int>)
      requires x.Local() && 0 <= i <= x.n && (!x.leaf ==> x.Child(i))
      ensures sub == Values(ChildFullWalk(x.Model, sel, i))
      decreases x.Repr, 0
    {
      sub := [];
      if !x.leaf {
        Children(x.children[i]);
        sub := WalkRec(x.children[i], sel);
      }
    }

    /** The walk shared by SearchLessThanRec (rel = Less) and
        SearchLessThanOrEqualRec (rel = LessOrEqual): slots in order, each
        value followed by the child before it, stopping at the first key that
        fails the relation; the last child only when the last key passes. */
    method PrunedRec(x: Node, rel: Relation, k: int) returns (result: seq<int>)
      requires x.Local() && forall i :: 0 <= i <= x.n && !x.leaf ==> x.Child(i)
      ensures result == Values(PrunedWalk(x.Model, rel, k))
      decreases x.Repr, 2
    {
      ghost var m := x.Model;
      result := [];
      var i := 0;
      while i < x.n && Holds(rel, x.keys[i] - k)
        invariant 0 <= i <= x.n
        invariant Values(PrunedWalk(m, rel, k)) == result + Values(PrunedFrom(m, rel, k, i))
      {
        result := PrunedSlot(x, i, rel, k, result);
        i := i + 1;
      }
      var sub := PrunedTail(x, i, rel, k);
      result := result + sub;
    }

    /** After the loop: the last child, only when the last key passes. */
    method PrunedTail(x: Node, i: int, rel: Relation, k: int) returns (sub: seq<int>)
      requires x.Local() && 0 <= i <= x.n && (!x.leaf ==> x.Child(x.n))
      requires i == x.n || !Holds(rel, x.keys[i] - k)
      ensures sub == Values(PrunedFrom(x.Model, rel, k, i))
      decreases x.Repr, 1
    {
      NodePrunedLast(x, rel, k, i);
      sub := [];
      if !x.leaf && x.n > 0 && Holds(rel, x.keys[x.n - 1] - k) {
        sub := PrunedChild(x, x.n, rel, k);
      }
    }

    /** One turn of the pruned walk's loop, for a slot whose key passes. */
    method PrunedSlot(x: Node, i: int, rel: Relation, k: int, acc: seq<int>) returns (result: seq<int>)
      requires x.Local() && 0 <= i < x.n && Holds(rel, x.keys[i] - k) && (!x.leaf ==> x.Child(i))
      ensures acc + Values(PrunedFrom(x.Model, rel, k, i)) == result + Values(PrunedFrom(x.Model, rel, k, i + 1))
      decreases x.Repr, 1
    {
      var sub := PrunedChild(x, i, rel, k);
      NodePrunedStep(x, rel, k, i, sub);
      Assoc(acc, [x.values[i]] + sub, Values(PrunedFrom(x.Model, rel, k, i + 1)));
      result := acc + ([x.values[i]] + sub);
    }

    /** The recursive call into child i of an internal node; nothing for a leaf. */
    method PrunedChild(x: Node, i: int, rel: Relation, k: int) returns (sub: seq<int>)
      requires x.Local() && 0 <= i <= x.n && (!x.leaf ==> x.Child(i))
      ensures sub == Values(ChildPruned(x.Model, rel, k, i))
      decreases x.Repr, 0
    {
      sub := [];
      if !x.leaf {
        Children(x.children[i]);
        sub := PrunedRec(x.children[i], rel, k);
      }
    }
  }

  /** The first loop of SplitChild: slots from, ..., from + count - 1 of
      the key and value arrays move to slots 0, ..., count - 1 of the other
      pair of arrays. */
  method CopyPairs(keys: array<int>, values: array<int>, toKeys: array<int>, toValues: array<int>, from: nat, count: nat)
    requires from + count <= keys.Length && from + count <= values.Length
    requires count <= toKeys.Length && count <= toValues.Length
    requires toKeys != toValues && toKeys != keys && toKeys != values && toValues != keys && toValues != values
    modifies toKeys, toValues
    ensures forall t :: 0 <= t < count ==> toKeys[t] == keys[t + from] && toValues[t] == values[t + from]
  {
    for j := 0 to count
      invariant forall t :: 0 <= t < j ==> toKeys[t] == keys[t + from] && toValues[t] == values[t + from]
    {
      toKeys[j] := keys[j + from];
      toValues[j] := values[j + from];
    }
  }

  /** The second loop of SplitChild: child slots from, ..., from + count - 1
      move to slots 0, ..., count - 1 of another child array. */
  method CopyChildren(children: array<Node?>, to: array<Node?>, from: nat, count: nat)
    requires from + count <= children.Length && count <= to.Length && to != children
    modifies to
    ensures forall t :: 0 <= t < count ==> to[t] == children[t + from]
  {
    for j := 0 to count
      invariant forall t :: 0 <= t < j ==> to[t] == children[t + from]
    {
      to[j] := children[j + from];
    }
  }

  /** The last loop but one of SplitChild: child slots from, ..., n move
      one place right. */
  method ShiftChildren(children: array<Node?>, from: int, n: int)
    requires 0 <= from <= n + 1 < children.Length
    modifies children
    ensures forall t :: 0 <= t < from ==> children[t] == old(children[t])
    ensures forall t :: from < t <= n + 1 ==> children[t] == old(children[t - 1])
  {
    var j := n;
    while j >= from
      invariant from - 1 <= j <= n
      invariant forall t :: 0 <= t <= j ==> children[t] == old(children[t])
      invariant forall t :: j + 2 <= t <= n + 1 ==> children[t] == old(children[t - 1])
    {
      children[j + 1] := children[j];
      j := j - 1;
    }
  }

  /** The last loop of SplitChild: key and value slots from, ..., n - 1 move
      one place right. */
  method ShiftPairs(keys: array<int>, values: array<int>, from: int, n: int)
    requires 0 <= from <= n < keys.Length && n < values.Length && keys != values
    modifies keys, values
    ensures forall t :: 0 <= t < from ==> keys[t] == old(keys[t]) && values[t] == old(values[t])
    ensures forall t :: from < t <= n ==> keys[t] == old(keys[t - 1]) && values[t] == old(values[t - 1])
  {
    var j := n - 1;
    while j >= from
      invariant from - 1 <= j <= n - 1
      invariant forall t :: 0 <= t <= j ==> keys[t] == old(keys[t]) && values[t] == old(values[t])
      invariant forall t :: j + 2 <= t <= n ==> keys[t] == old(keys[t - 1]) && values[t] == old(values[t - 1])
    {
      keys[j + 1] := keys[j];
      values[j + 1] := values[j];
      j := j - 1;
    }
  }

  /** Once child c of x has grown in place (x itself not yet updated), the
      children of x, with c's new subtree, in the form Assemble takes. */
  twostate lemma Adopted(x: Node, new c: int, new y: Node) returns (kids: seq<Node?>)
    requires old(allocated(y)) && old(x.Valid()) && !old(x.leaf) && 0 <= c <= old(x.n) && old(x.children[c]) == y
    requires unchanged(old(x.Repr) - old(y.Repr))
    requires y.Valid() && fresh(y.Repr - old(y.Repr))
    ensures x.Local() && x.Own() <= x.Repr && !x.leaf && x.n == old(x.n) && x.Model == old(x.Model) && x.Repr == old(x.Repr)
    ensures |kids| == x.n + 1 == |x.Model.children|
    ensures forall j :: 0 <= j < |kids| ==> x.children[j] == kids[j]
    ensures forall j :: 0 <= j < |kids| ==> kids[j] != null && kids[j] in x.Repr + y.Repr && kids[j].Valid()
    ensures forall j :: 0 <= j < |kids| ==> kids[j].Model == x.Model.children[c := y.Model][j]
    ensures forall j :: 0 <= j < |kids| ==> kids[j].Repr <= x.Repr + y.Repr && x.Own() !! kids[j].Repr
    ensures forall a, b :: 0 <= a < b < |kids| ==> kids[a].Repr !! kids[b].Repr
  {
    assert old(x.Child(c));
    assert x.Local();
    kids := x.children[..x.n + 1];
    forall j | 0 <= j < |kids|
      ensures kids[j] != null && kids[j] in x.Repr + y.Repr && kids[j].Valid()
      ensures kids[j].Model == x.Model.children[c := y.Model][j]
      ensures kids[j].Repr <= x.Repr + y.Repr && x.Own() !! kids[j].Repr
    {
      AdoptedSlot(x, c, y, j);
    }
    forall a, b | 0 <= a < b < |kids|
      ensures kids[a].Repr !! kids[b].Repr
    {
      AdoptedApart(x, c, y, a, b);
    }
  }

  /** Adopted, one child slot. */
  twostate lemma AdoptedSlot(x: Node, new c: int, new y: Node, new t: int)
    requires old(allocated(y)) && old(x.Valid()) && !old(x.leaf) && 0 <= c <= old(x.n) && old(x.children[c]) == y
    requires unchanged(old(x.Repr) - old(y.Repr))
    requires y.Valid() && fresh(y.Repr - old(y.Repr))
    requires x.Local() && 0 <= t <= x.n == old(x.n) && x.Model == old(x.Model)
    ensures x.children[t] != null && x.children[t] in x.Repr + y.Repr && x.children[t].Valid()
    ensures x.children[t].Model == x.Model.children[c := y.Model][t]
    ensures x.children[t].Repr <= x.Repr + y.Repr && x.Own() !! x.children[t].Repr
  {
    assert old(x.Child(c) && x.Child(t));
    if t == c {
      FreshApart(old(x.Own()), y.Repr - old(y.Repr));
    } else {
      Sibling(x, c, y, t);
    }
  }

  /** Adopted, one pair of child slots. */
  twostate lemma AdoptedApart(x: Node, new c: int, new y: Node, new a: int, new b: int)
    requires old(allocated(y)) && old(x.Valid()) && !old(x.leaf) && 0 <= c <= old(x.n) && old(x.children[c]) == y
    requires unchanged(old(x.Repr) - old(y.Repr))
    requires fresh(y.Repr - old(y.Repr))
    requires x.Local() && 0 <= a < b <= x.n == old(x.n) && x.children == old(x.children)
    ensures x.children[a] != null && x.children[b] != null
    ensures x.children[a].Repr !! x.children[b].Repr
  {
    assert old(x.Child(a) && x.Child(b) && x.Apart(a, b));
    if a == c || b == c {
      var s := if a == c then b else a;
      Sibling(x, c, y, s);
      FreshApart(old(x.children[s].Repr), y.Repr - old(y.Repr));
    } else {
      Sibling(x, c, y, a);
      Sibling(x, c, y, b);
    }
  }

    /** A sibling s of the changed child c keeps its footprint, which stays
      apart from the old footprint of c. */
  twostate lemma Sibling(x: Node, new c: int, new y: Node, new s: int)
    requires old(allocated(y)) && old(x.Valid()) && !old(x.leaf) && 0 <= c <= old(x.n) && old(x.children[c]) == y
    requires unchanged(old(x.Repr) - old(y.Repr) - {x})
    requires 0 <= s <= old(x.n) && s != c
    ensures old(x.children[s]) != null && old(x.children[s]).Valid()
    ensures old(x.children[s]).Repr == old(x.children[s].Repr) && old(x.children[s]).Model == old(x.children[s].Model)
    ensures old(x.children[s].Repr) !! old(y.Repr)
  {
    var lo := if s < c then s else c;
    var hi := if s < c then c else s;
    assert old(x.Child(s) && x.Apart(lo, hi));
    Kept(old(x.children[s]));
  }

  /** Every child slot of a valid internal node holds a valid child. */
  lemma {:induction false} Children(x: Node)
    requires x.Valid()
    ensures x.Local()
    ensures forall i :: 0 <= i <= x.n && !x.leaf ==> x.Child(i)
  {
    if !x.leaf {
      var _ := Parts(x);
    }
  }

  /** Child slot i of a valid internal node holds a valid node whose slot
      count is that of child i of the Model. */
  lemma {:induction false} ChildCount(x: Node, i: int)
    requires x.Valid() && !x.leaf && 0 <= i <= x.n
    ensures x.Child(i) && x.children[i].n == |x.Model.children[i].entries|
  {
    var _ := Parts(x);
    assert x.children[i].Local();
  }

  /** Slot by slot, the arrays hold r: the pairs es with p put in at
      slot i. */
  lemma {:induction false} EntriesPlaced(keys: array<int>, values: array<int>, es: seq<Pair>, i: int, p: Pair, r: seq<Pair>)
    requires 0 <= i <= |es| < keys.Length && |es| < values.Length
    requires r == es[..i] + [p] + es[i..]
    requires forall t :: 0 <= t < i ==> Pair(keys[t], values[t]) == es[t]
    requires Pair(keys[i], values[i]) == p
    requires forall t :: i < t <= |es| ==> Pair(keys[t], values[t]) == es[t - 1]
    ensures forall j :: 0 <= j < |r| ==> r[j] == Pair(keys[j], values[j])
  {
  }

  /** A node with one slot and two valid, disjoint children is valid. */
  lemma {:induction false} TwoChildren(z: Node, c0: Node?, c1: Node?)
    requires z.Local() && z.n == 1 && !z.leaf
    requires c0 != null && c1 != null && z.children[0] == c0 && z.children[1] == c1
    requires z.Repr == z.Own() + c0.Repr + c1.Repr
    requires c0.Valid() && c1.Valid() && c0.Repr !! c1.Repr
    requires z.Model.children == [c0.Model, c1.Model]
    requires z.Own() !! c0.Repr + c1.Repr
    ensures z.Valid()
  {
  }

  /** A valid node whose footprint has not changed is still valid. */
  twostate lemma Kept(c: Node)
    requires old(c.Valid()) && unchanged(old(c.Repr))
    ensures c.Valid() && c.Model == old(c.Model) && c.Repr == old(c.Repr)
  {
  }

  /** After SplitChild has divided the full node y into y and z, both are
      valid. */
  twostate lemma HalvesValid(y: Node, new z: Node)
    requires old(y.Valid()) && old(y.n) == MaxKeys
    requires unchanged(old(y.Repr) - {y})
    requires y.keys == old(y.keys) && y.values == old(y.values) && y.children == old(y.children) && y.leaf == old(y.leaf) && y.n == T - 1
    requires y.Model == BNode(old(y.Model).entries[..T - 1], if y.leaf then [] else old(y.Model).children[..T], y.leaf)
    requires y.Repr == y.Own() + (if y.leaf then {} else old(y.ChildRepr(0) + y.ChildRepr(1)))
    requires fresh(z.Own()) && z.Local() && z.leaf == y.leaf && z.n == T - 1
    requires z.Model == BNode(old(y.Model).entries[T..], if y.leaf then [] else old(y.Model).children[T..], y.leaf)
    requires !y.leaf ==> z.children[0] == old(y.children[T]) && z.children[1] == old(y.children[T + 1])
    requires z.Repr == z.Own() + (if y.leaf then {} else old(y.ChildRepr(2) + y.ChildRepr(3)))
    ensures y.Valid() && z.Valid() && y.Repr !! z.Repr && y.Repr + z.Repr <= old(y.Repr) + z.Own()
  {
    assert y.Local();
    if !y.leaf {
      assert old(y.Child(0) && y.Child(1) && y.Child(2) && y.Child(3));
      assert old(y.Apart(0, 1) && y.Apart(2, 3) && y.Apart(0, 2) && y.Apart(0, 3) && y.Apart(1, 2) && y.Apart(1, 3));
      TwoKept(y, old(y.children[0]), old(y.children[1]));
      TwoKept(z, old(y.children[2]), old(y.children[3]));
    }
  }

  /** A node with one slot whose two children are valid, apart, and
      unchanged since the previous state is valid. */
  twostate lemma TwoKept(new w: Node, new c0: Node?, new c1: Node?)
    requires c0 != null && c1 != null
    requires old(allocated(c0)) && old(allocated(c1))
    requires old(c0.Valid()) && old(c1.Valid()) && unchanged(old(c0.Repr)) && unchanged(old(c1.Repr))
    requires old(c0.Repr) !! old(c1.Repr)
    requires w.Local() && w.n == 1 && !w.leaf && w.children[0] == c0 && w.children[1] == c1
    requires w.Model.children == [old(c0.Model), old(c1.Model)]
    requires w.Repr == w.Own() + old(c0.Repr) + old(c1.Repr) && w.Own() !! old(c0.Repr) + old(c1.Repr)
    ensures w.Valid()
  {
    Kept(c0);
    Kept(c1);
    TwoChildren(w, c0, c1);
  }

  /** After SplitChild, slot t of x holds a valid child. */
  twostate lemma SlotValid(x: Node, new i: int, new y: Node, new z: Node, new t: int)
    requires old(x.Valid()) && !old(x.leaf) && 0 <= i <= old(x.n) < MaxKeys && old(x.children[i]) == y
    requires unchanged(old(x.Repr) - {x, x.keys, x.values, x.children, y})
    requires x.keys == old(x.keys) && x.values == old(x.values) && x.children == old(x.children)
    requires x.leaf == old(x.leaf) && x.n == old(x.n) + 1
    requires forall t :: 0 <= t <= i ==> x.children[t] == old(x.children[t])
    requires x.children[i + 1] == z
    requires forall t :: i + 2 <= t <= x.n ==> x.children[t] == old(x.children[t - 1])
    requires x.Model.children == old(x.Model.children[..i]) + [y.Model, z.Model] + old(x.Model.children[i + 1..])
    requires y.Valid() && z.Valid() && y.Repr !! z.Repr && y.Repr + z.Repr <= old(y.Repr) + z.Own()
    requires fresh(z.Own())
    requires x.Repr == old(x.Repr) + z.Own()
    requires 0 <= t <= x.n
    ensures x.Child(t)
  {
    if t < i || t > i + 1 {
      var s := if t < i then t else t - 1;
      assert old(x.Child(s) && x.Child(i) && x.Apart(s, i));
      KeptSlot(x, t, s, y);
    } else {
      assert old(x.Child(i));
      assert x.Own() == old(x.Own());
      FilledSlot(x, t, if t == i then y else z);
    }
  }

  /** A child that has not moved in the heap, placed in slot t of x, is a
      valid child of x. */
  twostate lemma KeptSlot(x: Node, new t: int, new s: int, new y: Node)
    requires old(x.Child(s)) && old(x.children[s]) !in {y}
    requires old(x.children[s].Repr) !! {y}
    requires unchanged(old(x.Repr) - {x, x.keys, x.values, x.children, y})
    requires x.keys == old(x.keys) && x.values == old(x.values) && x.children == old(x.children)
    requires old(x.Repr) <= x.Repr
    requires 0 <= t < x.children.Length && x.children[t] == old(x.children[s])
    requires t < |x.Model.children| && x.Model.children[t] == old(x.Model.children[s])
    ensures x.Child(t)
  {
    Kept(old(x.children[s]));
    assert x.Own() == old(x.Own());
  }

  /** A valid node inside x's footprint and apart from x's own objects,
      placed in slot t of x, is a valid child of x. */
  lemma {:induction false} FilledSlot(x: Node, t: int, c: Node)
    requires x.Own() <= x.Repr && 0 <= t < x.children.Length && x.children[t] == c
    requires c.Valid() && c.Repr <= x.Repr && x.Own() !! c.Repr
    requires t < |x.Model.children| && x.Model.children[t] == c.Model
    ensures x.Child(t)
  {
  }

  /** After SplitChild, slots a and b of x hold children with disjoint
      footprints. */
  twostate lemma SlotsApart(x: Node, new i: int, new y: Node, new z: Node, new a: int, new b: int)
    requires old(x.Valid()) && !old(x.leaf) && 0 <= i <= old(x.n) < MaxKeys && old(x.children[i]) == y
    requires unchanged(old(x.Repr) - {x, x.keys, x.values, x.children, y})
    requires x.children == old(x.children) && x.n == old(x.n) + 1
    requires forall t :: 0 <= t <= i ==> x.children[t] == old(x.children[t])
    requires x.children[i + 1] == z
    requires forall t :: i + 2 <= t <= x.n ==> x.children[t] == old(x.children[t - 1])
    requires y.Repr !! z.Repr && y.Repr + z.Repr <= old(y.Repr) + z.Own()
    requires fresh(z.Own()) && x.Repr == old(x.Repr) + z.Own()
    requires 0 <= a < b <= x.n
    ensures x.Apart(a, b)
  {
    var sa := if a <= i then a else a - 1;
    var sb := if b <= i then b else b - 1;
    assert old(x.Child(sa) && x.Child(sb) && x.Child(i));
    if a == i && b == i + 1 {
    } else if a == i || a == i + 1 {
      assert old(x.Apart(i, sb));
      OldRepr(x, sb, y);
      FreshApart(old(x.children[sb].Repr), z.Own());
    } else if b == i || b == i + 1 {
      assert old(x.Apart(sa, i));
      OldRepr(x, sa, y);
      FreshApart(old(x.children[sa].Repr), z.Own());
    } else {
      assert old(x.Apart(sa, sb));
      OldRepr(x, sa, y);
      OldRepr(x, sb, y);
    }
  }

  /** A child of x other than y keeps its footprint. */
  twostate lemma OldRepr(x: Node, new s: int, new y: Node)
    requires old(allocated(y)) && old(x.Child(s)) && old(y.Valid()) && old(x.children[s].Repr !! y.Repr)
    requires unchanged(old(x.Repr) - {x, x.keys, x.values, x.children, y})
    ensures old(x.children[s]).Repr == old(x.children[s].Repr)
  {
    var c := old(x.children[s]);
    assert old(c.Valid());
  }

  /** Objects of the previous state are apart from a node created since. */
  twostate lemma FreshApart(s: set<object>, new t: set<object>)
    requires fresh(t)
    ensures s !! t
  {
  }

  /** After SplitChild has divided y into y and z and placed z and the
      median into x, x is valid. */
  twostate lemma SplitDone(x: Node, new i: int, new y: Node, new z: Node)
    requires old(x.Valid()) && !old(x.leaf) && 0 <= i <= old(x.n) < MaxKeys && old(x.children[i]) == y
    requires old(allocated(y)) && old(y.Valid()) && old(y.n) == MaxKeys
    requires unchanged(old(x.Repr) - {x, x.keys, x.values, x.children, y}) && unchanged(old(y.Repr) - {y})
    requires x.keys == old(x.keys) && x.values == old(x.values) && x.children == old(x.children)
    requires x.leaf == old(x.leaf) && x.n == old(x.n) + 1 && x.Local()
    requires forall t :: 0 <= t <= i ==> x.children[t] == old(x.children[t])
    requires x.children[i + 1] == z
    requires forall t :: i + 2 <= t <= x.n ==> x.children[t] == old(x.children[t - 1])
    requires x.Model.children == old(x.Model.children[..i]) + [y.Model, z.Model] + old(x.Model.children[i + 1..])
    requires x.Repr == old(x.Repr) + z.Own()
    requires y.keys == old(y.keys) && y.values == old(y.values) && y.children == old(y.children) && y.leaf == old(y.leaf) && y.n == T - 1
    requires y.Model == BNode(old(y.Model).entries[..T - 1], if y.leaf then [] else old(y.Model).children[..T], y.leaf)
    requires y.Repr == y.Own() + (if y.leaf then {} else old(y.ChildRepr(0) + y.ChildRepr(1)))
    requires fresh(z.Own()) && z.Local() && z.leaf == y.leaf && z.n == T - 1
    requires z.Model == BNode(old(y.Model).entries[T..], if y.leaf then [] else old(y.Model).children[T..], y.leaf)
    requires !y.leaf ==> z.children[0] == old(y.children[T]) && z.children[1] == old(y.children[T + 1])
    requires z.Repr == z.Own() + (if y.leaf then {} else old(y.ChildRepr(2) + y.ChildRepr(3)))
    ensures x.Valid()
  {
    HalvesValid(y, z);
    SplitValid(x, i, y, z);
  }

  /** After SplitChild has placed z and the median into x, x is valid. */
  twostate lemma SplitValid(x: Node, new i: int, new y: Node, new z: Node)
    requires old(x.Valid()) && !old(x.leaf) && 0 <= i <= old(x.n) < MaxKeys && old(x.children[i]) == y
    requires unchanged(old(x.Repr) - {x, x.keys, x.values, x.children, y})
    requires x.keys == old(x.keys) && x.values == old(x.values) && x.children == old(x.children)
    requires x.leaf == old(x.leaf) && x.n == old(x.n) + 1
    requires forall t :: 0 <= t <= i ==> x.children[t] == old(x.children[t])
    requires x.children[i + 1] == z
    requires forall t :: i + 2 <= t <= x.n ==> x.children[t] == old(x.children[t - 1])
    requires x.Model.children == old(x.Model.children[..i]) + [y.Model, z.Model] + old(x.Model.children[i + 1..])
    requires y.Valid() && z.Valid() && y.Repr !! z.Repr && y.Repr + z.Repr <= old(y.Repr) + z.Own()
    requires fresh(z.Own())
    requires x.Repr == old(x.Repr) + z.Own()
    requires x.Local()
    ensures x.Valid()
  {
    forall t | 0 <= t <= x.n
      ensures x.Child(t)
    {
      SlotValid(x, i, y, z, t);
    }
    forall a, b | 0 <= a < b <= x.n
      ensures x.Apart(a, b)
    {
      SlotsApart(x, i, y, z, a, b);
    }
  }

  /** The children of a valid internal node, in quantified form. */
  lemma {:induction false} Parts(x: Node) returns (kids: seq<Node?>)
    requires x.Valid() && !x.leaf
    ensures |kids| == x.n + 1 == |x.Model.children|
    ensures forall j :: 0 <= j < |kids| ==> x.children[j] == kids[j]
    ensures forall j :: 0 <= j < |kids| ==> kids[j] != null && kids[j] in x.Repr && kids[j].Valid()
    ensures forall j :: 0 <= j < |kids| ==> kids[j].Model == x.Model.children[j]
    ensures forall j :: 0 <= j < |kids| ==> kids[j].Repr <= x.Repr && x.Own() !! kids[j].Repr
    ensures forall a, b :: 0 <= a < b < |kids| ==> kids[a].Repr !! kids[b].Repr
  {
    kids := x.children[..x.n + 1];
    assert forall j :: 0 <= j < |kids| ==> x.Child(j);
    assert forall a, b :: 0 <= a < b < |kids| ==> x.Apart(a, b);
  }

  /** An internal node whose slots agree with its Model and whose first
      n + 1 children are valid, pairwise apart and inside its footprint is
      valid. */
  lemma {:induction false} Assemble(x: Node, kids: seq<Node?>)
    requires x.Own() <= x.Repr && x.Local() && !x.leaf
    requires |kids| == x.n + 1 == |x.Model.children|
    requires forall j :: 0 <= j < |kids| ==> x.children[j] == kids[j]
    requires forall j :: 0 <= j < |kids| ==> kids[j] != null && kids[j] in x.Repr && kids[j].Valid()
    requires forall j :: 0 <= j < |kids| ==> kids[j].Model == x.Model.children[j]
    requires forall j :: 0 <= j < |kids| ==> kids[j].Repr <= x.Repr && x.Own() !! kids[j].Repr
    requires forall a, b :: 0 <= a < b < |kids| ==> kids[a].Repr !! kids[b].Repr
    ensures x.Valid()
  {
    assert forall j :: 0 <= j < |kids| ==> x.Child(j);
    assert forall a, b :: 0 <= a < b < |kids| ==> x.Apart(a, b);
  }

  /** WalkStep read off a node's own slots. */
  lemma {:induction false} NodeWalkStep(x: Node, sel: Selector, i: int, here: seq<int>, sub: seq<int>)
    requires x.Local() && 0 <= i < x.n
    requires here == if Selects(sel, x.keys[i]) then [x.values[i]] else []
    requires sub == Values(ChildFullWalk(x.Model, sel, i))
    ensures Values(FullWalkFrom(x.Model, sel, i)) == here + sub + Values(FullWalkFrom(x.Model, sel, i + 1))
  {
    WalkStep(x.Model, sel, i, here, sub);
  }

  /** After the last slot only the last child is left to walk. */
  lemma {:induction false} NodeWalkLast(x: Node, sel: Selector, sub: seq<int>)
    requires x.Local()
    requires sub == Values(ChildFullWalk(x.Model, sel, x.n))
    ensures Values(FullWalkFrom(x.Model, sel, x.n)) == sub
  {
  }

  /** PrunedStep read off a node's own slots. */
  lemma {:induction false} NodePrunedStep(x: Node, rel: Relation, k: int, i: int, sub: seq<int>)
    requires x.Local() && 0 <= i < x.n && Holds(rel, x.keys[i] - k)
    requires sub == Values(ChildPruned(x.Model, rel, k, i))
    ensures Values(PrunedFrom(x.Model, rel, k, i)) == [x.values[i]] + sub + Values(PrunedFrom(x.Model, rel, k, i + 1))
  {
    PrunedStep(x.Model, rel, k, i, sub);
  }

  /** PrunedLast read off a node's own slots. */
  lemma {:induction false} NodePrunedLast(x: Node, rel: Relation, k: int, i: int)
    requires x.Local() && 0 <= i <= x.n
    requires i == x.n || !Holds(rel, x.keys[i] - k)
    ensures PrunedFrom(x.Model, rel, k, i) == LastChildPruned(x.Model, rel, k)
  {
    PrunedLast(x.Model, rel, k, i);
  }

  lemma {:induction false} WalkStep(m: BNode, sel: Selector, i: nat, here: seq<int>, sub: seq<int>)
    requires i < |m.entries|
    requires here == if Selects(sel, m.entries[i].key) then [m.entries[i].value] else []
    requires sub == Values(ChildFullWalk(m, sel, i))
    ensures Values(FullWalkFrom(m, sel, i)) == here + sub + Values(FullWalkFrom(m, sel, i + 1))
  {
    var h := if Selects(sel, m.entries[i].key) then [m.entries[i]] else [];
    var c := ChildFullWalk(m, sel, i);
    var f := FullWalkFrom(m, sel, i + 1);
    assert FullWalkFrom(m, sel, i) == h + c + f;
    assert Values(h) == here by {
      assert h != [] ==> h[1..] == [];
    }
    ValuesAppend(h + c, f);
    ValuesAppend(h, c);
  }

  lemma {:induction false} PrunedStep(m: BNode, rel: Relation, k: int, i: nat, sub: seq<int>)
    requires i < |m.entries| && Holds(rel, m.entries[i].key - k)
    requires sub == Values(ChildPruned(m, rel, k, i))
    ensures Values(PrunedFrom(m, rel, k, i)) == [m.entries[i].value] + sub + Values(PrunedFrom(m, rel, k, i + 1))
  {
    var h := [m.entries[i]];
    var c := ChildPruned(m, rel, k, i);
    var f := PrunedFrom(m, rel, k, i + 1);
    assert PrunedFrom(m, rel, k, i) == h + c + f;
    assert Values(h) == [m.entries[i].value] by {
      assert h[1..] == [];
    }
    ValuesAppend(h + c, f);
    ValuesAppend(h, c);
  }

  /** Once a slot fails the relation, or the slots run out, only the last
      child is left to walk. */
  lemma {:induction false} PrunedLast(m: BNode, rel: Relation, k: int, i: nat)
    requires i <= |m.entries|
    requires i == |m.entries| || !Holds(rel, m.entries[i].key - k)
    ensures PrunedFrom(m, rel, k, i) == LastChildPruned(m, rel, k)
  {
  }
}
