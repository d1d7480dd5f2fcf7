/**
 * The B+ tree index over integer keys. Its nodes live in an arena
 * (`nodes`); `root` is the index of the root node. Every distinct key of a
 * leaf owns an auxiliary bucket node listing the row ids inserted with it.
 *
 * The ghost `shape` records, for every tree node, its level, the key
 * interval it covers and its parent, and lists the leaves in `next` order;
 * between operations the invariant `Inv(..., Settled)` holds. `Contents()`
 * is what the index holds: the (key, row id) entries read along the leaf
 * chain.
 */
module BPlusTree {
  import opened Common
  import opened BPlusTreeShape
  import opened BPlusTreeChain
  import opened BPlusTreeEntries
  import opened BPlusTreeParent
  import opened BPlusTreeLeafSteps
  import opened BPlusTreeLeafInsert
  import opened BPlusTreeInternalSteps
  import opened BPlusTreeQueries
  import opened BPlusTreeInsert

  /** `findPosition`: the first index whose key is not below `key`, by linear search. */
  method FindPosition(keys: seq<int>, key: int) returns (i: nat)
    ensures IsPosition(keys, key, i)
  {
    i := 0;
    while i < |keys|
      invariant i <= |keys|
      invariant forall j :: 0 <= j < i ==> keys[j] < key
    {
      if keys[i] < key {
        i := i + 1;
      } else {
        break;
      }
    }
  }

  class BPlusTreeIndex {
    /** The maximum number of children of a node: a node reaching `order` keys is split. */
    const order: nat
    var nodes: seq<Node>
    var root: nat
    ghost var shape: Shape

    /** The tree invariant at the given phase of an insertion, with every bucket in the arena. */
    ghost predicate At(ph: Phase)
      reads this
    {
      Inv(nodes, root, shape, order, ph) && BucketsIn(nodes, ChainSlots(nodes, shape.chain))
    }

    ghost predicate Valid()
      reads this
    {
      At(Settled)
    }

    /** The entries the leaf chain holds, key by key, each bucket's rows in insertion order. */
    ghost function Contents(): seq<Entry>
      reads this
      requires LeavesParallel(nodes, shape.chain) && BucketsIn(nodes, ChainSlots(nodes, shape.chain))
    {
      Entries(nodes, ChainSlots(nodes, shape.chain))
    }

    /** The number of edges from the root down to the leaves. */
    ghost function Height(): nat
      reads this
      requires root in shape.info
    {
      shape.info[root].level
    }

    /** The constructor: a single empty leaf as the root. */
    constructor (order: nat)
      requires order >= 2
      ensures Valid() && this.order == order
      ensures Contents() == [] && Height() == 0
    {
      this.order := order;
      nodes := [Node(true, [], [], [], None)];
      root := 0;
      shape := Shape(map[0 := Info(0, NegInf, PosInf, 0)], [0]);
      new;
      assert shape.chain[..0] == [];
      assert ChainSlots(nodes, shape.chain) == [];
    }

    /**
     * `findLeafNode`: descend from the root, taking at each internal node
     * the child at `findPosition` of the key. The reached leaf is the chain
     * leaf whose interval `(lo, hi]` holds the key.
     */
    method FindLeafNode(key: int) returns (leaf: nat, ghost j: nat)
      requires Valid()
      ensures leaf in shape.info && shape.info[leaf].level == 0 && leaf < |nodes|
      ensures j < |shape.chain| && shape.chain[j] == leaf
      ensures Above(shape.info[leaf].lo, key) && AtMost(key, shape.info[leaf].hi)
    {
      var node := root;
      while !nodes[node].isLeaf
        invariant node in shape.info
        invariant Above(shape.info[node].lo, key) && AtMost(key, shape.info[node].hi)
        decreases shape.info[node].level
      {
        var pos := FindPosition(nodes[node].keys, key);
        DescendStep(nodes, root, shape, order, node, key, pos);
        node := nodes[node].children[pos];
      }
      leaf := node;
      j :| 0 <= j < |shape.chain| && shape.chain[j] == leaf;
    }

    /**
     * The index after an insertion step that began with arena `n0` and
     * shape `s0` at height `h0`: at rest again, reading the same entries,
     * with every old bucket kept, and at most one level taller.
     */
    ghost predicate Finishes(n0: seq<Node>, s0: Shape, h0: nat)
      reads this
    {
      && Valid()
      && SameEntries(n0, nodes, s0.chain, shape.chain)
      && Kept(n0, s0.info, nodes)
      && (shape.info[root].level == h0 || shape.info[root].level == h0 + 1)
    }

    /**
     * `insert`: a key the reached leaf holds only gains `rowId` at the end
     * of its bucket; a new key enters the leaf in order with a fresh bucket
     * `[rowId]`, and a leaf reaching `order` keys is split.
     */
    method Insert(key: int, rowId: int)
      requires Valid()
      modifies this
      ensures Valid()
      ensures multiset(Contents()) == old(multiset(Contents())) + multiset{Entry(key, rowId)}
      ensures old(Reaches(nodes, shape, key)) ==>
        && shape == old(shape) && |nodes| == old(|nodes|)
        && forall n :: n in shape.info && n < |nodes| ==> nodes[n] == old(nodes[n])
      ensures old(Reaches(nodes, shape, key)) ==> AppendsToSlot(old(nodes), old(shape.chain), key, rowId, nodes)
      ensures !old(Reaches(nodes, shape, key)) ==>
        && |nodes| > old(|nodes|) && nodes[old(|nodes|)].values == [rowId]
        && Slot(key, old(|nodes|)) in ChainSlots(nodes, shape.chain)
      ensures Height() == old(Height()) || Height() == old(Height()) + 1
    {
      var leaf, j := FindLeafNode(key);
      assert LeafOk(nodes, shape, order, Settled, leaf);
      var pos := FindPosition(nodes[leaf].keys, key);
      LeafForInsert(nodes, root, shape, order, leaf, key, pos);
      ghost var n0 := nodes;
      if pos < |nodes[leaf].keys| && nodes[leaf].keys[pos] == key {
        nodes := AppendRow(nodes, nodes[leaf].children[pos], rowId);
        AppendRowDone(n0, root, shape, order, leaf, pos, key, rowId, j, nodes);
        return;
      }
      nodes := InsertNewKey(nodes, leaf, pos, key, rowId);
      InsertNewDone(n0, root, shape, order, leaf, pos, key, rowId, j, nodes);
      if |nodes[leaf].keys| >= order {
        ghost var n1, s1 := nodes, shape;
        SplitLeaf(leaf, j);
        SplitKeepsNewKey(n0, s1, n1, nodes, shape.chain, key, rowId);
      }
    }

    /**
     * `splitLeaf`: the leaf keeps `keys[..mid]`, a new leaf spliced after it
     * in the chain takes `keys[mid..]` with their values and buckets, and
     * the new leaf's first key goes up to the parent (or to a new root).
     */
    method SplitLeaf(leaf: nat, ghost j: nat)
      requires At(FullLeaf(leaf))
      requires leaf in shape.info && shape.info[leaf].level == 0 && |nodes[leaf].keys| == order
      requires j < |shape.chain| && shape.chain[j] == leaf
      modifies this
      ensures Finishes(old(nodes), old(shape), old(shape.info[root].level))
    {
      ghost var n0, s0 := nodes, shape;
      LeafShape(nodes, root, shape, order, FullLeaf(leaf), leaf);
      var sep := LeafSep(nodes, leaf);
      var right := |nodes|;
      SplitLeafRelHolds(nodes, shape, leaf, j);
      nodes := SplitLeafNodes(nodes, leaf);
      shape := SplitLeafShape(n0, s0, leaf, j);
      SplitLeafDone(n0, root, s0, order, leaf, j, nodes, shape);
      ghost var n1, s1 := nodes, shape;
      if leaf == root {
        NewRoot(sep, right);
      } else {
        InsertIntoParent(leaf, sep, right);
      }
      KeptTrans(n0, s0.info, n1, s1.info, nodes);
    }

    /** The root split: a new root holding `sep` between the old root and `right`. */
    method NewRoot(sep: int, right: nat)
      requires At(Promote(root, sep, right))
      modifies this
      ensures Finishes(old(nodes), old(shape), old(shape.info[root].level))
      ensures shape.info[root].level == old(shape.info[root].level) + 1
      ensures nodes[root].keys == [sep] && nodes[root].children == [old(root), right]
    {
      ghost var n0, s0 := nodes, shape;
      NewRootRelHolds(nodes, shape, root, sep, right);
      var newRoot := |nodes|;
      nodes := NewRootNodes(nodes, root, sep, right);
      shape := NewRootShape(n0, s0, root, right);
      NewRootDone(n0, root, s0, order, sep, right, nodes, shape);
      root := newRoot;
    }

    /**
     * `insertIntoParent`: `sep` enters the parent of `left` at its
     * `findPosition`, `right` right after `left` among its children; a
     * parent reaching `order` keys is split.
     */
    method InsertIntoParent(left: nat, sep: int, right: nat)
      requires At(Promote(left, sep, right)) && left != root
      modifies this
      ensures Finishes(old(nodes), old(shape), old(shape.info[root].level))
      decreases shape.info[root].level - shape.info[left].level, 1
    {
      ghost var n0, s0 := nodes, shape;
      ParentOfLeft(nodes, root, shape, order, left, sep, right);
      var parent := FindParent(nodes, shape, root, left);
      var p := parent.value;
      var i := FindPosition(nodes[p].keys, sep);
      ParentRoom(n0, root, s0, order, left, sep, right, p, i);
      IntoParentRelHolds(nodes, shape, p, i, sep, right);
      nodes := IntoParentNodes(nodes, p, i, sep, right);
      shape := IntoParentShape(s0, p, right);
      IntoParentDone(n0, root, s0, order, left, sep, right, p, i, nodes, shape);
      if |nodes[p].keys| >= order {
        ghost var n1, s1 := nodes, shape;
        SplitInternal(p);
        KeptTrans(n0, s0.info, n1, s1.info, nodes);
        SameEntriesTrans(n0, n1, nodes, s0.chain, s1.chain, shape.chain);
      }
    }

    /**
     * `splitInternal`: the node keeps `keys[..mid]` and `children[..mid + 1]`,
     * a new node takes `keys[mid + 1..]` and `children[mid + 1..]`, and
     * `keys[mid]` goes up to the parent (or to a new root).
     */
    method SplitInternal(n: nat)
      requires At(FullInternal(n))
      requires n in shape.info && shape.info[n].level > 0 && |nodes[n].keys| == order
      modifies this
      ensures Finishes(old(nodes), old(shape), old(shape.info[root].level))
      decreases shape.info[root].level - shape.info[n].level, 2
    {
      ghost var n0, s0 := nodes, shape;
      InternalShape(nodes, root, shape, order, FullInternal(n), n);
      var sep := InternalSep(nodes, n);
      var right := |nodes|;
      SplitInternalRelHolds(nodes, shape, n);
      nodes := SplitInternalNodes(nodes, n);
      shape := SplitInternalShape(n0, s0, n);
      SplitInternalDone(n0, root, s0, order, n, nodes, shape);
      ghost var n1, s1 := nodes, shape;
      if n == root {
        NewRoot(sep, right);
      } else {
        InsertIntoParent(n, sep, right);
      }
      KeptTrans(n0, s0.info, n1, s1.info, nodes);
    }

    /**
     * `search`: the rows of the bucket of `key` in the leaf the descent
     * reaches, or none. They are always rows inserted with `key`; they are
     * all of them when `key` is no leaf's lower end (a separator copied up
     * by a leaf split is searched for in the leaf to its left).
     */
    method Search(key: int) returns (rows: seq<int>)
      requires Valid()
      ensures forall x :: x in rows ==> Entry(key, x) in Contents()
      ensures !LowerEnd(shape, key) ==> rows == RowsWhere(Contents(), Point(key))
    {
      var leaf, j := FindLeafNode(key);
      LeafShape(nodes, root, shape, order, Settled, leaf);
      var pos := FindPosition(nodes[leaf].keys, key);
      if pos < |nodes[leaf].keys| && nodes[leaf].keys[pos] == key {
        SearchHit(nodes, root, shape, order, j, key, pos);
        rows := nodes[nodes[leaf].children[pos]].values;
      } else {
        if !LowerEnd(shape, key) {
          SearchMiss(nodes, root, shape, order, j, key, pos);
        }
        rows := [];
      }
    }

    /** The leftmost leaf, reached by following the first child down from the root: the head of the chain. */
    method LeftmostLeaf() returns (leaf: nat)
      requires Valid()
      ensures leaf == shape.chain[0] && leaf < |nodes|
    {
      var node := root;
      while !nodes[node].isLeaf
        invariant node in shape.info && shape.info[node].lo == NegInf
        decreases shape.info[node].level
      {
        assert InternalOk(nodes, shape, order, Settled, node);
        assert ChildOk(nodes, shape, Settled, node, 0);
        node := nodes[node].children[0];
      }
      FirstLeaf(nodes, root, shape, order, Settled, node);
      leaf := node;
    }

    /** One leaf of a range scan: the rows of its slots whose key is in `r`, slot by slot. */
    method CollectLeaf(leaf: nat, r: Range) returns (rows: seq<int>)
      requires leaf < |nodes| && |nodes[leaf].keys| == |nodes[leaf].children|
      requires BucketsIn(nodes, LeafSlots(nodes[leaf]))
      ensures rows == RowsWhere(Entries(nodes, LeafSlots(nodes[leaf])), r)
    {
      ghost var slots := LeafSlots(nodes[leaf]);
      rows := [];
      var i := 0;
      while i < |nodes[leaf].keys|
        invariant i <= |slots| && BucketsIn(nodes, slots[..i])
        invariant rows == RowsWhere(Entries(nodes, slots[..i]), r)
      {
        ScanSlotStep(nodes, slots, i, r);
        if InRange(r, nodes[leaf].keys[i]) {
          rows := rows + nodes[nodes[leaf].children[i]].values;
        }
        i := i + 1;
      }
      assert slots[..i] == slots;
    }

    /**
     * The scan shared by the three cases of `rangeQuery`: from leaf `start`
     * (the `j0`-th of the chain) to the end of the chain along `next`, the
     * rows of every slot whose key is in `r`. When the leaves before
     * `start` hold nothing in `r`, that is every row in `r`.
     */
    method CollectFrom(start: nat, ghost j0: nat, r: Range) returns (rows: seq<int>)
      requires ChainReadable(nodes, shape.chain) && j0 < |shape.chain| && shape.chain[j0] == start
      requires LeavesParallel(nodes, shape.chain[..j0]) && BucketsIn(nodes, ChainSlots(nodes, shape.chain[..j0]))
      requires RowsWhere(Entries(nodes, ChainSlots(nodes, shape.chain[..j0])), r) == []
      ensures rows == RowsWhere(Entries(nodes, ChainSlots(nodes, shape.chain)), r)
    {
      ghost var chain := shape.chain;
      rows := [];
      var current: Option<nat> := Some(start);
      ghost var j := j0;
      while current.Some?
        invariant j <= |chain| && (current.Some? <==> j < |chain|)
        invariant current.Some? ==> current.value == chain[j]
        invariant LeavesParallel(nodes, chain[..j]) && BucketsIn(nodes, ChainSlots(nodes, chain[..j]))
        invariant rows == RowsWhere(Entries(nodes, ChainSlots(nodes, chain[..j])), r)
        decreases |chain| - j
      {
        var leaf := current.value;
        ScanLeafStep(nodes, chain, j, r);
        var found := CollectLeaf(leaf, r);
        rows := rows + found;
        NextLeaf(nodes, chain, j);
        current := nodes[leaf].next;
        j := j + 1;
      }
      ScanDone(chain, j);
    }

    /**
     * `rangeQuery`: the rows of every entry whose key passes both bounds,
     * in key order. Without a lower bound the scan starts at the leftmost
     * leaf, otherwise at the leaf the descent for the lower bound reaches.
     */
    method RangeQuery(start: Option<int>, startInclusive: bool, end: Option<int>, endInclusive: bool)
      returns (rows: seq<int>)
      requires Valid() && (start.Some? || end.Some?)
      ensures rows == RowsWhere(Contents(), Range(start, startInclusive, end, endInclusive))
    {
      var r := Range(start, startInclusive, end, endInclusive);
      InvReadable(nodes, root, shape, order, Settled);
      if start.None? {
        var leaf := LeftmostLeaf();
        assert shape.chain[..0] == [];
        rows := CollectFrom(leaf, 0, r);
      } else {
        var leaf, j := FindLeafNode(start.value);
        NothingBefore(nodes, root, shape, order, Settled, j, r);
        rows := CollectFrom(leaf, j, r);
      }
    }

    /** `getAllKeys`: the keys of the leaves in chain order, which never decrease. */
    method GetAllKeys() returns (keys: seq<int>)
      requires Valid()
      ensures keys == SlotKeys(ChainSlots(nodes, shape.chain))
      ensures NonDecreasing(keys)
    {
      InvReadable(nodes, root, shape, order, Settled);
      ChainSorted(nodes, root, shape, order, Settled);
      ghost var chain := shape.chain;
      var leaf := LeftmostLeaf();
      keys := [];
      var current: Option<nat> := Some(leaf);
      ghost var j := 0;
      assert chain[..0] == [];
      while current.Some?
        invariant j <= |chain| && (current.Some? <==> j < |chain|)
        invariant current.Some? ==> current.value == chain[j]
        invariant LeavesParallel(nodes, chain[..j])
        invariant keys == SlotKeys(ChainSlots(nodes, chain[..j]))
        decreases |chain| - j
      {
        var n := current.value;
        ChainKeysStep(nodes, chain, j);
        keys := keys + nodes[n].keys;
        NextLeaf(nodes, chain, j);
        current := nodes[n].next;
        j := j + 1;
      }
      ScanDone(chain, j);
    }

    /** `getHeight`: the number of steps along first children from the root to a leaf. */
    method GetHeight() returns (h: nat)
      requires Valid()
      ensures h == Height()
    {
      var node := root;
      h := 0;
      while !nodes[node].isLeaf
        invariant node in shape.info && h + shape.info[node].level == shape.info[root].level
        decreases shape.info[node].level
      {
        assert InternalOk(nodes, shape, order, Settled, node);
        assert ChildOk(nodes, shape, Settled, node, 0);
        node := nodes[node].children[0];
        h := h + 1;
      }
    }

    /** `delete` is not implemented: it reports that nothing was deleted and changes nothing. */
    method Delete(key: int) returns (deleted: bool)
      ensures !deleted
    {
      deleted := false;
    }

    /** `getOrder`: the order the index was built with. */
    method GetOrder() returns (o: nat)
      ensures o == order
    {
      o := order;
    }

    /**
     * `evaluate` for a predicate on the indexed attribute: `EQUALS` is a
     * search; `LT`, `GT` and `RANGE` are range queries with the open upper,
     * the open lower and the closed pair of bounds; any other operator is
     * refused.
     */
    method Evaluate(op: Operator, key: int, secondKey: int) returns (res: Result<seq<int>>)
      requires Valid()
      ensures op == EQUALS ==> res.Success? && (forall x :: x in res.value ==> Entry(key, x) in Contents())
      ensures op == EQUALS && !LowerEnd(shape, key) ==> res == Success(RowsWhere(Contents(), Point(key)))
      ensures op == LT ==> res == Success(RowsWhere(Contents(), Range(None, false, Some(key), false)))
      ensures op == GT ==> res == Success(RowsWhere(Contents(), Range(Some(key), false, None, false)))
      ensures op == RANGE ==> res == Success(RowsWhere(Contents(), Range(Some(key), true, Some(secondKey), true)))
      ensures op !in {EQUALS, LT, GT, RANGE} ==> res == Failure(UnsupportedPredicate)
    {
      match op {
        case EQUALS =>
          var rows := Search(key);
          res := Success(rows);
        case LT =>
          var rows := RangeQuery(None, false, Some(key), false);
          res := Success(rows);
        case GT =>
          var rows := RangeQuery(Some(key), false, None, false);
          res := Success(rows);
        case RANGE =>
          var rows := RangeQuery(Some(key), true, Some(secondKey), true);
          res := Success(rows);
        case _ =>
          res := Failure(UnsupportedPredicate);
      }
    }
  }
}
