/** The indexes the store keeps per table and column (Store.tableIndices).
    Each is held as the value its index object stands for: the tree of a
    BSTIndex, or the root model and height of a BTreeIndex. Every operation
    takes the branches its index class takes (the functions of Bst and
    BTreeModel that the class methods are proved against). */
module Indexes {
  import opened Text
  import Bst
  import opened BTreeModel

  datatype Index = Binary(tree: Bst.Tree) | Multiway(node: BNode, height: nat)

  /** The index invariant: an ordered tree or a well-formed B-tree, every
      stored position at least 0. */
  ghost predicate IndexOk(idx: Index) {
    match idx
    case Binary(t) => Bst.Ordered(t) && forall k :: k in Bst.AsMap(t) ==> Bst.AsMap(t)[k] >= 0
    case Multiway(x, h) => WF(x, h) && forall p :: p in Elems(x) ==> p.value >= 0
  }

  /** The key is stored: as itself in a tree, through its hash in a
      B-tree. */
  ghost predicate Stored(idx: Index, hash: string -> int, key: string) {
    match idx
    case Binary(t) => key in Bst.AsMap(t)
    case Multiway(x, _) => exists v :: Pair(hash(key), v) in Elems(x)
  }

  /** The key is stored with this position. */
  ghost predicate Maps(idx: Index, hash: string -> int, key: string, position: int) {
    match idx
    case Binary(t) => key in Bst.AsMap(t) && Bst.AsMap(t)[key] == position
    case Multiway(x, _) => Pair(hash(key), position) in Elems(x)
  }

  lemma {:induction false} EmptyLeaf()
    ensures WF(BNode([], [], true), 0) && Elems(BNode([], [], true)) == []
  {
    assert ElemsFrom(BNode([], [], true), 0) == [];
  }

  /** The index CREATE INDEX makes: a B-tree for BTREE, a tree for BST. It
      stores nothing. */
  function NewIndex(multiway: bool): (r: Index)
    ensures IndexOk(r) && r.Multiway? == multiway
    ensures forall hash, key :: !Stored(r, hash, key)
  {
    EmptyLeaf();
    if multiway then Multiway(BNode([], [], true), 0) else Binary(Bst.Nil)
  }

  /** The tree an insert produces is ordered and holds no negative
      position. */
  lemma {:induction false} InsertOkBinary(t: Bst.Tree, key: string, position: int)
    requires Bst.Ordered(t) && forall k :: k in Bst.AsMap(t) ==> Bst.AsMap(t)[k] >= 0
    requires position >= 0
    ensures IndexOk(Binary(Bst.InsertRec(t, key, position)))
  {
    Bst.InsertOrdered(t, key, position);
    Bst.InsertMap(t, key, position);
  }

  /** The B-tree an insert produces is well formed, holds every pair it
      held and the new one, and no negative position. */
  lemma {:induction false} InsertOkMultiway(x: BNode, h: nat, k: int, position: int)
    requires IndexOk(Multiway(x, h)) && position >= 0
    ensures IndexOk(Multiway(InsertSpec(x, h, k, position), Grown(x, h)))
    ensures forall p :: p in Elems(x) ==> p in Elems(InsertSpec(x, h, k, position))
    ensures Pair(k, position) in Elems(InsertSpec(x, h, k, position))
  {
    InsertKeepsTree(x, h, k, position);
    var es, es' := Elems(x), Elems(InsertSpec(x, h, k, position));
    assert multiset(es') == multiset(es) + multiset{Pair(k, position)};
    forall p | p in es'
      ensures p.value >= 0
    {
      assert p in multiset(es');
    }
    forall p | p in es
      ensures p in es'
    {
      assert p in multiset(es);
      assert multiset(es')[p] > 0;
    }
    assert Pair(k, position) in multiset(es');
  }

  /** Index.Insert(key, position); the result keeps the invariant. */
  function Insert(idx: Index, hash: string -> int, key: string, position: int): (r: Index)
    requires IndexOk(idx) && position >= 0
    ensures IndexOk(r) && r.Multiway? == idx.Multiway?
  {
    match idx
    case Binary(t) =>
      InsertOkBinary(t, key, position);
      Binary(Bst.InsertRec(t, key, position))
    case Multiway(x, h) =>
      InsertOkMultiway(x, h, hash(key), position);
      Multiway(InsertSpec(x, h, hash(key), position), Grown(x, h))
  }

  /** Index.Search(key): the stored position, or -1. */
  function Search(idx: Index, hash: string -> int, key: string): int
    requires IndexOk(idx)
  {
    match idx
    case Binary(t) => Bst.SearchRec(t, key)
    case Multiway(x, _) => SearchSpec(x, hash(key))
  }

  /** Insert stores the key, and with this position when it was absent (a
      B-tree stores the pair in any case). */
  lemma {:induction false} InsertStores(idx: Index, hash: string -> int, key: string, position: int)
    requires IndexOk(idx) && position >= 0
    ensures Stored(Insert(idx, hash, key, position), hash, key)
    ensures !Stored(idx, hash, key) || idx.Multiway? ==> Maps(Insert(idx, hash, key, position), hash, key, position)
  {
    match idx
    case Binary(t) =>
      Bst.InsertMap(t, key, position);
    case Multiway(x, h) =>
      InsertOkMultiway(x, h, hash(key), position);
  }

  /** Insert keeps every stored key with its position. */
  lemma {:induction false} InsertKeeps(idx: Index, hash: string -> int, key: string, position: int)
    requires IndexOk(idx) && position >= 0
    ensures forall k, p :: Maps(idx, hash, k, p) ==> Maps(Insert(idx, hash, key, position), hash, k, p)
    ensures forall k :: Stored(idx, hash, k) ==> Stored(Insert(idx, hash, key, position), hash, k)
  {
    match idx
    case Binary(t) =>
      Bst.InsertMap(t, key, position);
    case Multiway(x, h) =>
      InsertOkMultiway(x, h, hash(key), position);
  }

  /** A tree gains no key but the inserted one. */
  lemma {:induction false} InsertOnlyKey(t: Bst.Tree, hash: string -> int, key: string, position: int)
    requires IndexOk(Binary(t)) && position >= 0
    ensures forall k :: Stored(Insert(Binary(t), hash, key, position), hash, k) ==> k == key || Stored(Binary(t), hash, k)
  {
    Bst.InsertMap(t, key, position);
  }

  /** Search finds exactly the stored keys, and returns a position the key
      is stored with. */
  lemma {:induction false} SearchHits(idx: Index, hash: string -> int, key: string)
    requires IndexOk(idx)
    ensures Search(idx, hash, key) != -1 <==> Stored(idx, hash, key)
    ensures Stored(idx, hash, key) ==> Maps(idx, hash, key, Search(idx, hash, key))
  {
    match idx
    case Binary(t) =>
      Bst.SearchFinds(t, key);
    case Multiway(x, _) =>
      SearchFinds(x, hash(key));
  }

  /** An inserted key is found afterwards. */
  lemma {:induction false} InsertThenSearch(idx: Index, hash: string -> int, key: string, position: int)
    requires IndexOk(idx) && position >= 0
    ensures Search(Insert(idx, hash, key, position), hash, key) != -1
  {
    InsertStores(idx, hash, key, position);
    SearchHits(Insert(idx, hash, key, position), hash, key);
  }

  // ---------------------------------------------------------------------------
  // Building an index

  /** values[i] inserted with position i, in order. */
  function InsertAll(idx: Index, hash: string -> int, values: seq<string>): (r: Index)
    requires IndexOk(idx)
    ensures IndexOk(r) && r.Multiway? == idx.Multiway?
  {
    if values == [] then idx
    else Insert(InsertAll(idx, hash, values[..|values| - 1]), hash, values[|values| - 1], |values| - 1)
  }

  /** The insert loop of CREATE INDEX. */
  method BuildIndex(idx: Index, hash: string -> int, values: seq<string>) returns (r: Index)
    requires IndexOk(idx)
    ensures r == InsertAll(idx, hash, values) && IndexOk(r)
  {
    r := idx;
    var i := 0;
    while i < |values|
      invariant 0 <= i <= |values|
      invariant r == InsertAll(idx, hash, values[..i])
    {
      assert values[..i + 1][..i] == values[..i];
      r := Insert(r, hash, values[i], i);
      i := i + 1;
    }
    assert values[..i] == values;
  }

  /** One step of the build: inserting a value a tree does not hold keeps
      the earlier mappings and adds the new one. */
  lemma {:induction false} BuildStep(before: Index, hash: string -> int, init: seq<string>, value: string)
    requires IndexOk(before)
    requires forall i :: 0 <= i < |init| ==> Maps(before, hash, init[i], i)
    requires before.Binary? ==> !Stored(before, hash, value)
    ensures forall i :: 0 <= i < |init| ==> Maps(Insert(before, hash, value, |init|), hash, init[i], i)
    ensures Maps(Insert(before, hash, value, |init|), hash, value, |init|)
  {
    InsertStores(before, hash, value, |init|);
    InsertKeeps(before, hash, value, |init|);
  }

  /** Built from an empty index on distinct values, the index stores each
      value with its position. */
  lemma {:induction false} BuildIndexMaps(multiway: bool, hash: string -> int, values: seq<string>)
    requires forall i, j :: 0 <= i < j < |values| ==> values[i] != values[j]
    ensures forall i :: 0 <= i < |values| ==> Maps(InsertAll(NewIndex(multiway), hash, values), hash, values[i], i)
  {
    if values != [] {
      var n := |values| - 1;
      var init := values[..n];
      BuildIndexMaps(multiway, hash, init);
      var before := InsertAll(NewIndex(multiway), hash, init);
      if !multiway {
        BuildIndexKeys(hash, init);
        assert values[n] !in init by {
          forall j | 0 <= j < n
            ensures init[j] != values[n]
          {
            assert init[j] == values[j];
          }
        }
      }
      BuildStep(before, hash, init, values[n]);
      assert values == init + [values[n]];
    }
  }

  /** A tree built from an empty one stores no key but the values. */
  lemma {:induction false} BuildIndexKeys(hash: string -> int, values: seq<string>)
    ensures forall k :: Stored(InsertAll(NewIndex(false), hash, values), hash, k) ==> k in values
  {
    if values != [] {
      var n := |values| - 1;
      var init := values[..n];
      BuildIndexKeys(hash, init);
      var before := InsertAll(NewIndex(false), hash, init);
      InsertOnlyKey(before.tree, hash, values[n], n);
      forall k | Stored(InsertAll(NewIndex(false), hash, values), hash, k)
        ensures k in values
      {
        if k != values[n] {
          assert k in init;
        }
      }
    }
  }

  // ---------------------------------------------------------------------------
  // The queries of the SELECT index path

  /** SearchLessThan, SearchGreaterThan, SearchLessThanOrEqual and
      SearchGreaterThanOrEqual of either index, as the source walks them. */
  function Range(idx: Index, hash: string -> int, rel: Relation, key: string): seq<int> {
    match idx
    case Binary(t) =>
      (match rel
       case Less => Bst.SearchLessThanRec(t, key, [])
       case Greater => Bst.SearchGreaterThanRec(t, key, [])
       case LessOrEqual => Bst.SearchLessThanOrEqualRec(t, key, [])
       case GreaterOrEqual => Bst.SearchGreaterThanOrEqualRec(t, key, []))
    case Multiway(x, _) =>
      if rel == Less || rel == LessOrEqual then Values(PrunedWalk(x, rel, hash(key)))
      else Values(FullWalk(x, ByRelation(rel, hash(key))))
  }

  /** SearchLike (want) and SearchNotLike (!want) of either index. */
  function Like(idx: Index, hash: string -> int, pattern: string, want: bool): seq<int> {
    match idx
    case Binary(t) => if want then Bst.SearchLikeRec(t, pattern, []) else Bst.SearchNotLikeRec(t, pattern, [])
    case Multiway(x, _) => Values(FullWalk(x, ByPattern(pattern, want)))
  }

  /** On a tree every range query is its reference, in key order; on a
      B-tree the greater-than queries are exact, and the less-than ones
      return only pairs in range. */
  lemma {:induction false} RangeReference(idx: Index, hash: string -> int, rel: Relation, key: string)
    requires IndexOk(idx)
    ensures idx.Binary? ==> Range(idx, hash, rel, key) == Bst.InRange(idx.tree, rel, key)
    ensures idx.Multiway? && (rel == Greater || rel == GreaterOrEqual) ==>
              Range(idx, hash, rel, key) == Values(Filter(Visit(idx.node), ByRelation(rel, hash(key))))
    ensures idx.Multiway? && (rel == Less || rel == LessOrEqual) ==>
              forall p :: p in PrunedWalk(idx.node, rel, hash(key)) ==> p in Elems(idx.node) && Holds(rel, p.key - hash(key))
  {
    match idx
    case Binary(t) =>
      match rel {
        case Less => Bst.LessThanExact(t, key, []);
        case Greater => Bst.GreaterThanExact(t, key, []);
        case LessOrEqual => Bst.LessThanOrEqualExact(t, key, []);
        case GreaterOrEqual => Bst.GreaterThanOrEqualExact(t, key, []);
      }
    case Multiway(x, _) =>
      FullWalkExact(x, ByRelation(rel, hash(key)));
      PrunedWalkSound(x, rel, hash(key));
  }

  /** The LIKE queries return their references, which split the stored
      positions between them. */
  lemma {:induction false} LikeReference(idx: Index, hash: string -> int, pattern: string, want: bool)
    requires IndexOk(idx)
    ensures idx.Binary? ==> Like(idx, hash, pattern, want) == Bst.Matching(idx.tree, pattern, want)
    ensures idx.Multiway? ==> Like(idx, hash, pattern, want) == Values(Filter(Visit(idx.node), ByPattern(pattern, want)))
  {
    match idx
    case Binary(t) =>
      if want { Bst.LikeExact(t, pattern, []); } else { Bst.NotLikeExact(t, pattern, []); }
    case Multiway(x, _) =>
      FullWalkExact(x, ByPattern(pattern, want));
  }
}
