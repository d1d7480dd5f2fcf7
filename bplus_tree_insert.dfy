/**
 * The arena updates of one insertion, each as a function of the arena,
 * and for each the facts the index's methods need afterwards: the phase
 * of the invariant that now holds, that the chain reads the same entries
 * (or one more), and that no bucket changed unless it was meant to.
 */
module BPlusTreeInsert {
  import opened Common
  import opened BPlusTreeShape
  import opened BPlusTreeChain
  import opened BPlusTreeEntries
  import opened BPlusTreeParent
  import opened BPlusTreeLeafSteps
  import opened BPlusTreeLeafInsert
  import opened BPlusTreeInternalSteps
  import opened BPlusTreeQueries

  /** The arena grew, and every node of `before` outside the tree `tree` (every bucket) is unchanged. */
  ghost predicate Kept(before: seq<Node>, tree: map<nat, Info>, after: seq<Node>)
  {
    && |after| >= |before|
    && forall m :: 0 <= m < |before| && m !in tree ==> after[m] == before[m]
  }

  /** Tree nodes only come from the new part of the arena, and none changes level. */
  ghost predicate TreeGrows(n0: seq<Node>, t0: map<nat, Info>, t1: map<nat, Info>)
  {
    && (forall m :: m in t1 && m < |n0| ==> m in t0)
    && (forall m :: m in t0 ==> m in t1 && t1[m].level == t0[m].level)
  }

  lemma KeptTrans(n0: seq<Node>, t0: map<nat, Info>, n1: seq<Node>, t1: map<nat, Info>, n2: seq<Node>)
    requires Kept(n0, t0, n1) && Kept(n1, t1, n2) && TreeGrows(n0, t0, t1)
    ensures Kept(n0, t0, n2)
  {
  }

  /** Every bucket the chain reads is an arena node outside the tree. */
  ghost predicate BucketsOutside(nodes: seq<Node>, s: Shape)
    requires LeavesParallel(nodes, s.chain)
  {
    forall g :: 0 <= g < |ChainSlots(nodes, s.chain)| ==>
      ChainSlots(nodes, s.chain)[g].bucket < |nodes| && ChainSlots(nodes, s.chain)[g].bucket !in s.info
  }

  lemma InvBuckets(nodes: seq<Node>, root: nat, s: Shape, order: nat, ph: Phase)
    requires Inv(nodes, root, s, order, ph)
    ensures BucketsOutside(nodes, s) && |nodes| !in s.info
  {
    InvIdsLeaf(nodes, root, s, order, ph);
  }

  /** An arena that kept every bucket and reads the same slots reads the same entries. */
  lemma SlotsKeepEntries(nodes: seq<Node>, s: Shape, n': seq<Node>, c': seq<nat>)
    requires LeavesParallel(nodes, s.chain) && LeavesParallel(n', c')
    requires ChainSlots(n', c') == ChainSlots(nodes, s.chain)
    requires BucketsOutside(nodes, s) && Kept(nodes, s.info, n')
    ensures SameEntries(nodes, n', s.chain, c')
  {
    KeepsEntries(nodes, n', s.chain, c');
  }

  /** The leaf reached for `key` holds it. */
  ghost predicate Reaches(nodes: seq<Node>, s: Shape, key: int)
  {
    exists j :: 0 <= j < |s.chain| && s.chain[j] in s.info && s.chain[j] < |nodes| &&
      Above(s.info[s.chain[j]].lo, key) && AtMost(key, s.info[s.chain[j]].hi) && key in nodes[s.chain[j]].keys
  }

  lemma ReachedAt(nodes: seq<Node>, s: Shape, j: nat, key: int)
    requires j < |s.chain| && s.chain[j] in s.info && s.chain[j] < |nodes|
    requires Above(s.info[s.chain[j]].lo, key) && AtMost(key, s.info[s.chain[j]].hi) && key in nodes[s.chain[j]].keys
    ensures Reaches(nodes, s, key)
  {
  }

  /** A key that the leaf whose interval holds it does not hold is reached nowhere. */
  lemma NotReached(nodes: seq<Node>, root: nat, s: Shape, order: nat, ph: Phase, j: nat, key: int)
    requires Inv(nodes, root, s, order, ph)
    requires j < |s.chain| && Above(s.info[s.chain[j]].lo, key) && AtMost(key, s.info[s.chain[j]].hi)
    requires key !in nodes[s.chain[j]].keys
    ensures !Reaches(nodes, s, key)
  {
    if Reaches(nodes, s, key) {
      var k :| 0 <= k < |s.chain| && s.chain[k] in s.info && s.chain[k] < |nodes| &&
        Above(s.info[s.chain[k]].lo, key) && AtMost(key, s.info[s.chain[k]].hi) && key in nodes[s.chain[k]].keys;
      LeavesDisjoint(nodes, root, s, order, ph, j, k, key);
    }
  }

  /** What a leaf of the tree looks like. */
  lemma LeafShape(nodes: seq<Node>, root: nat, s: Shape, order: nat, ph: Phase, leaf: nat)
    requires Inv(nodes, root, s, order, ph)
    requires leaf in s.info && s.info[leaf].level == 0
    ensures leaf < |nodes| && |nodes[leaf].keys| == |nodes[leaf].values| == |nodes[leaf].children|
    ensures StrictlyAscending(nodes[leaf].keys)
    ensures ph == Settled ==> |nodes[leaf].keys| < order
    ensures forall i :: 0 <= i < |nodes[leaf].children| ==>
      nodes[leaf].children[i] < |nodes| && nodes[leaf].children[i] !in s.info
  {
    assert LeafOk(nodes, s, order, ph, leaf);
    forall i | 0 <= i < |nodes[leaf].children|
      ensures nodes[leaf].children[i] < |nodes| && nodes[leaf].children[i] !in s.info
    {
      assert nodes[leaf].children[i] in nodes[leaf].children;
    }
  }

  // ----- a key the leaf already holds -----

  /** A leaf split after a new key keeps the new entry, its fresh bucket and its slot. */
  lemma SplitKeepsNewKey(n0: seq<Node>, s0: Shape, n1: seq<Node>, n2: seq<Node>, c2: seq<nat>, key: int, rowId: int)
    requires AddsEntry(n0, n1, s0.chain, Entry(key, rowId)) && SameEntries(n1, n2, s0.chain, c2)
    requires Kept(n1, s0.info, n2) && |n0| !in s0.info && |n1| > |n0| && n1[|n0|].values == [rowId]
    requires Slot(key, |n0|) in ChainSlots(n1, s0.chain)
    ensures LeavesParallel(n2, c2) && BucketsIn(n2, ChainSlots(n2, c2))
    ensures multiset(Entries(n2, ChainSlots(n2, c2))) ==
      multiset(Entries(n0, ChainSlots(n0, s0.chain))) + multiset{Entry(key, rowId)}
    ensures |n2| > |n0| && n2[|n0|].values == [rowId] && Slot(key, |n0|) in ChainSlots(n2, c2)
  {
    assert n2[|n0|] == n1[|n0|];
  }

  /** What `insert` needs to know of the reached leaf and the position found in it. */
  lemma LeafForInsert(nodes: seq<Node>, root: nat, s: Shape, order: nat, leaf: nat, key: int, pos: nat)
    requires Inv(nodes, root, s, order, Settled)
    requires leaf in s.info && s.info[leaf].level == 0
    requires IsPosition(nodes[leaf].keys, key, pos)
    ensures leaf < |nodes| && |nodes[leaf].keys| == |nodes[leaf].values| == |nodes[leaf].children|
    ensures pos < |nodes[leaf].keys| ==> nodes[leaf].children[pos] < |nodes|
    ensures key in nodes[leaf].keys <==> pos < |nodes[leaf].keys| && nodes[leaf].keys[pos] == key
  {
    LeafShape(nodes, root, s, order, Settled, leaf);
    PositionFinds(nodes[leaf].keys, key, pos);
  }

  /** `rowId` appended to the bucket `b`. */
  function AppendRow(nodes: seq<Node>, b: nat, rowId: int): (r: seq<Node>)
    requires b < |nodes|
    ensures AppendRowRel(nodes, b, rowId, r)
  {
    nodes[b := nodes[b].(values := nodes[b].values + [rowId])]
  }

  /** Appending to a bucket leaves every tree node as it was. */
  lemma AppendRowFrame(nodes: seq<Node>, s: Shape, b: nat, rowId: int, n': seq<Node>)
    requires b < |nodes| && b !in s.info && AppendRowRel(nodes, b, rowId, n')
    ensures |n'| == |nodes|
    ensures forall n :: n in s.info && n < |nodes| ==> n'[n] == nodes[n]
  {
  }

  /** Everything the existing-key branch of `insert` establishes. */
  lemma AppendRowDone(nodes: seq<Node>, root: nat, s: Shape, order: nat, leaf: nat, pos: nat,
                      key: int, rowId: int, j: nat, n': seq<Node>)
    requires Inv(nodes, root, s, order, Settled)
    requires leaf in s.info && s.info[leaf].level == 0
    requires j < |s.chain| && s.chain[j] == leaf
    requires Above(s.info[leaf].lo, key) && AtMost(key, s.info[leaf].hi)
    requires pos < |nodes[leaf].keys| == |nodes[leaf].children| && nodes[leaf].keys[pos] == key
    requires nodes[leaf].children[pos] < |nodes|
    requires AppendRowRel(nodes, nodes[leaf].children[pos], rowId, n')
    ensures Inv(n', root, s, order, Settled)
    ensures AddsEntry(nodes, n', s.chain, Entry(key, rowId))
    ensures |n'| == |nodes| && forall n :: n in s.info && n < |nodes| ==> n'[n] == nodes[n]
    ensures Reaches(nodes, s, key)
    ensures AppendsToSlot(nodes, s.chain, key, rowId, n')
  {
    AppendRowStep(nodes, root, s, order, leaf, pos, key, rowId, n', j);
    LeafShape(nodes, root, s, order, Settled, leaf);
    SlotInChain(nodes, s.chain, j, pos);
    assert Slot(key, nodes[leaf].children[pos]) in ChainSlots(nodes, s.chain);
    AppendRowFrame(nodes, s, nodes[leaf].children[pos], rowId, n');
    assert key in nodes[leaf].keys;
    ReachedAt(nodes, s, j, key);
  }

  // ----- a new key -----

  /** `key` and `rowId` entered leaf `leaf` at `pos` with a fresh bucket `[rowId]` appended to the arena. */
  function InsertNewKey(nodes: seq<Node>, leaf: nat, pos: nat, key: int, rowId: int): (r: seq<Node>)
    requires leaf < |nodes|
    requires pos <= |nodes[leaf].keys| == |nodes[leaf].values| == |nodes[leaf].children|
    ensures InsertNewRel(nodes, leaf, pos, key, rowId, r)
  {
    var l := nodes[leaf];
    nodes[leaf := l.(keys := InsertAt(l.keys, pos, key), values := InsertAt(l.values, pos, rowId),
                     children := InsertAt(l.children, pos, |nodes|))]
      + [Node(true, [], [rowId], [], None)]
  }

  /** The new key lengthens the leaf by one and leaves every old bucket alone; the leaf is full exactly at `order` keys. */
  lemma InsertNewFrame(nodes: seq<Node>, s: Shape, order: nat, leaf: nat, pos: nat, key: int, rowId: int, n': seq<Node>)
    requires leaf < |nodes| && leaf in s.info
    requires pos <= |nodes[leaf].keys| == |nodes[leaf].values| == |nodes[leaf].children| < order
    requires InsertNewRel(nodes, leaf, pos, key, rowId, n')
    ensures Kept(nodes, s.info, n') && n'[|nodes|].values == [rowId]
    ensures |n'[leaf].keys| >= order ==> AfterNewKey(nodes, leaf, order) == FullLeaf(leaf) && |n'[leaf].keys| == order
    ensures |n'[leaf].keys| < order ==> AfterNewKey(nodes, leaf, order) == Settled
  {
  }

  /** The fresh bucket's slot is read by the chain. */
  lemma NewSlotRead(nodes: seq<Node>, n': seq<Node>, c: seq<nat>, j: nat, pos: nat, key: int)
    requires NewKeySlots(nodes, n', c, j, pos, key)
    ensures Slot(key, |nodes|) in ChainSlots(n', c)
  {
    var g := |ChainSlots(nodes, c[..j])| + pos;
    assert ChainSlots(n', c)[g] == Slot(key, |nodes|);
  }

  /** Everything the new-key branch of `insert` establishes. */
  lemma InsertNewDone(nodes: seq<Node>, root: nat, s: Shape, order: nat, leaf: nat, pos: nat,
                      key: int, rowId: int, j: nat, n': seq<Node>)
    requires InsertNewPre(nodes, root, s, order, leaf, pos, key, rowId, n', j)
    requires key !in nodes[leaf].keys
    ensures Inv(n', root, s, order, AfterNewKey(nodes, leaf, order))
    ensures AddsEntry(nodes, n', s.chain, Entry(key, rowId))
    ensures Slot(key, |nodes|) in ChainSlots(n', s.chain)
    ensures Kept(nodes, s.info, n') && n'[|nodes|].values == [rowId] && |nodes| !in s.info
    ensures |n'[leaf].keys| >= order ==> AfterNewKey(nodes, leaf, order) == FullLeaf(leaf) && |n'[leaf].keys| == order
    ensures |n'[leaf].keys| < order ==> AfterNewKey(nodes, leaf, order) == Settled
    ensures !Reaches(nodes, s, key)
  {
    InsertNewStep(nodes, root, s, order, leaf, pos, key, rowId, n', j);
    LeafShape(nodes, root, s, order, Settled, leaf);
    InsertNewFrame(nodes, s, order, leaf, pos, key, rowId, n');
    NewSlotRead(nodes, n', s.chain, j, pos, key);
    InvBuckets(nodes, root, s, order, Settled);
    NotReached(nodes, root, s, order, Settled, j, key);
  }

  // ----- splitLeaf -----

  /** The leaf keeps `keys[..mid]`; a new leaf appended to the arena takes `keys[mid..]` and follows it in the chain. */
  function SplitLeafNodes(nodes: seq<Node>, leaf: nat): seq<Node>
    requires leaf < |nodes|
    requires |nodes[leaf].values| == |nodes[leaf].children| == |nodes[leaf].keys|
  {
    var l := nodes[leaf];
    var mid := |l.keys| / 2;
    nodes[leaf := l.(keys := l.keys[..mid], values := l.values[..mid], children := l.children[..mid],
                     next := Some(|nodes|))]
      + [Node(true, l.keys[mid..], l.values[mid..], l.children[mid..], l.next)]
  }

  /** The new leaf covers the upper part of the old leaf's interval, from the separator on. */
  ghost function SplitLeafShape(nodes: seq<Node>, s: Shape, leaf: nat, j: nat): Shape
    requires leaf < |nodes| && leaf in s.info && j < |s.chain|
    requires |nodes[leaf].keys| >= 1
  {
    var sep := nodes[leaf].keys[|nodes[leaf].keys| / 2];
    Shape(s.info[leaf := s.info[leaf].(hi := Key(sep))][|nodes| := Info(0, Key(sep), s.info[leaf].hi, 0)],
          InsertAt(s.chain, j + 1, |nodes|))
  }

  lemma SplitLeafRelHolds(nodes: seq<Node>, s: Shape, leaf: nat, j: nat)
    requires leaf < |nodes| && leaf in s.info && j < |s.chain| && s.chain[j] == leaf
    requires |nodes[leaf].values| == |nodes[leaf].children| == |nodes[leaf].keys| >= 1
    ensures SplitLeafRel(nodes, s, leaf, j, SplitLeafNodes(nodes, leaf), SplitLeafShape(nodes, s, leaf, j))
  {
  }

  lemma SplitLeafFrame(nodes: seq<Node>, s: Shape, leaf: nat, j: nat, n': seq<Node>, s': Shape)
    requires leaf < |nodes| && leaf in s.info && j < |s.chain| && |nodes| !in s.info
    requires |nodes[leaf].values| == |nodes[leaf].children| == |nodes[leaf].keys| >= 1
    requires SplitLeafRel(nodes, s, leaf, j, n', s')
    ensures Kept(nodes, s.info, n') && TreeGrows(nodes, s.info, s'.info)
  {
  }

  lemma SplitLeafDone(nodes: seq<Node>, root: nat, s: Shape, order: nat, leaf: nat, j: nat, n': seq<Node>, s': Shape)
    requires SplitLeafPre(nodes, root, s, order, leaf, j, n', s')
    ensures Inv(n', root, s', order, Promote(leaf, LeafSep(nodes, leaf), |nodes|))
    ensures SameEntries(nodes, n', s.chain, s'.chain)
    ensures Kept(nodes, s.info, n') && TreeGrows(nodes, s.info, s'.info)
  {
    SplitLeafStep(nodes, root, s, order, leaf, j, n', s');
    InvBuckets(nodes, root, s, order, FullLeaf(leaf));
    SplitLeafFrame(nodes, s, leaf, j, n', s');
    SlotsKeepEntries(nodes, s, n', s'.chain);
  }

  // ----- a new root -----

  /** The new root: one key, the two halves of the split node as its children. */
  function NewRootNodes(nodes: seq<Node>, left: nat, sep: int, right: nat): seq<Node>
  {
    nodes + [Node(false, [sep], [], [left, right], None)]
  }

  /** The new root sits one level above the split node and spans all keys. */
  ghost function NewRootShape(nodes: seq<Node>, s: Shape, left: nat, right: nat): Shape
    requires left in s.info && right in s.info
  {
    Shape(s.info[left := s.info[left].(up := |nodes|)][right := s.info[right].(up := |nodes|)]
                [|nodes| := Info(s.info[left].level + 1, NegInf, PosInf, 0)],
          s.chain)
  }

  lemma NewRootRelHolds(nodes: seq<Node>, s: Shape, left: nat, sep: int, right: nat)
    requires left in s.info && right in s.info
    ensures NewRootRel(nodes, s, left, sep, right, NewRootNodes(nodes, left, sep, right), NewRootShape(nodes, s, left, right))
  {
  }

  lemma NewRootFrame(nodes: seq<Node>, s: Shape, left: nat, sep: int, right: nat, n': seq<Node>, s': Shape)
    requires left in s.info && right in s.info
    requires NewRootRel(nodes, s, left, sep, right, n', s')
    ensures Kept(nodes, s.info, n')
  {
  }

  lemma NewRootDone(nodes: seq<Node>, root: nat, s: Shape, order: nat, sep: int, right: nat, n': seq<Node>, s': Shape)
    requires NewRootPre(nodes, root, s, order, sep, right, n', s')
    ensures Inv(n', |nodes|, s', order, Settled)
    ensures s'.info[|nodes|].level == s.info[root].level + 1
    ensures n'[|nodes|].keys == [sep] && n'[|nodes|].children == [root, right]
    ensures SameEntries(nodes, n', s.chain, s'.chain)
    ensures Kept(nodes, s.info, n')
  {
    NewRootStep(nodes, root, s, order, sep, right, n', s');
    NewRootFrame(nodes, s, root, sep, right, n', s');
  }

  // ----- insertIntoParent -----

  /** `sep` entered the parent `p` at `i`, the new sibling `right` its children at `i + 1`. */
  function IntoParentNodes(nodes: seq<Node>, p: nat, i: nat, sep: int, right: nat): seq<Node>
    requires p < |nodes| && i <= |nodes[p].keys| && |nodes[p].children| == |nodes[p].keys| + 1
  {
    var pn := nodes[p];
    nodes[p := pn.(keys := InsertAt(pn.keys, i, sep), children := InsertAt(pn.children, i + 1, right))]
  }

  /** The new sibling records `p` as its parent. */
  ghost function IntoParentShape(s: Shape, p: nat, right: nat): Shape
    requires right in s.info
  {
    s.(info := s.info[right := s.info[right].(up := p)])
  }

  lemma IntoParentRelHolds(nodes: seq<Node>, s: Shape, p: nat, i: nat, sep: int, right: nat)
    requires p < |nodes| && right in s.info
    requires i <= |nodes[p].keys| && |nodes[p].children| == |nodes[p].keys| + 1
    ensures IntoParentRel(nodes, s, p, i, sep, right, IntoParentNodes(nodes, p, i, sep, right), IntoParentShape(s, p, right))
  {
  }

  /**
   * What `findParent` and `findPosition` find while `right` waits for its
   * separator: the recorded parent of `left`, one level up, and the index
   * at which `sep` enters it.
   */
  lemma ParentOfLeft(nodes: seq<Node>, root: nat, s: Shape, order: nat, left: nat, sep: int, right: nat)
    requires Inv(nodes, root, s, order, Promote(left, sep, right)) && left != root
    ensures Descends(nodes, s) && left in s.info && right in s.info
    ensures FindParent(nodes, s, root, left) == Some(s.info[left].up)
    ensures s.info[left].up in s.info && s.info[left].up < |nodes|
    ensures s.info[s.info[left].up].level == s.info[left].level + 1
    ensures forall i :: IsPosition(nodes[s.info[left].up].keys, sep, i) ==>
      IntoParentPre(nodes, root, s, order, left, sep, right, s.info[left].up, i)
  {
    var ph := Promote(left, sep, right);
    ParentFound(nodes, root, s, order, ph);
    var p := s.info[left].up;
    var ci :| 0 <= ci < |nodes[p].children| && nodes[p].children[ci] == left;
    ParentPosition(nodes, root, s, order, left, sep, right, p, ci);
    assert ChildOk(nodes, s, ph, p, ci);
    forall i | IsPosition(nodes[p].keys, sep, i)
      ensures IntoParentPre(nodes, root, s, order, left, sep, right, p, i)
    {
      PositionUnique(nodes[p].keys, sep, i, ci);
    }
  }

  /** The parent gains one key and keeps every bucket; it is full exactly at `order` keys. */
  lemma IntoParentFrame(nodes: seq<Node>, s: Shape, order: nat, p: nat, i: nat, sep: int, right: nat, n': seq<Node>, s': Shape)
    requires p < |nodes| && p in s.info && right in s.info
    requires i <= |nodes[p].keys| < order && |nodes[p].children| == |nodes[p].keys| + 1
    requires IntoParentRel(nodes, s, p, i, sep, right, n', s')
    ensures Kept(nodes, s.info, n') && TreeGrows(nodes, s.info, s'.info)
    ensures |n'[p].keys| >= order ==> AfterPromote(nodes, p, order) == FullInternal(p) && |n'[p].keys| == order
    ensures |n'[p].keys| < order ==> AfterPromote(nodes, p, order) == Settled
  {
  }

  /** A parent waiting for a separator is not full. */
  lemma ParentRoom(nodes: seq<Node>, root: nat, s: Shape, order: nat, left: nat, sep: int, right: nat, p: nat, i: nat)
    requires IntoParentPre(nodes, root, s, order, left, sep, right, p, i)
    ensures p < |nodes| && |nodes[p].keys| < order && |nodes[p].children| == |nodes[p].keys| + 1
    ensures IsPosition(nodes[p].keys, sep, i) && i <= |nodes[p].keys| && right in s.info
  {
    ParentPosition(nodes, root, s, order, left, sep, right, p, i);
  }

  lemma IntoParentDone(nodes: seq<Node>, root: nat, s: Shape, order: nat, left: nat, sep: int, right: nat,
                       p: nat, i: nat, n': seq<Node>, s': Shape)
    requires IntoParentPre(nodes, root, s, order, left, sep, right, p, i)
    requires p < |nodes| && i <= |nodes[p].keys| < order && |nodes[p].children| == |nodes[p].keys| + 1
    requires IntoParentRel(nodes, s, p, i, sep, right, n', s')
    ensures Inv(n', root, s', order, AfterPromote(nodes, p, order))
    ensures SameEntries(nodes, n', s.chain, s'.chain)
    ensures Kept(nodes, s.info, n') && TreeGrows(nodes, s.info, s'.info)
    ensures |n'[p].keys| >= order ==> AfterPromote(nodes, p, order) == FullInternal(p) && |n'[p].keys| == order
    ensures |n'[p].keys| < order ==> AfterPromote(nodes, p, order) == Settled
  {
    IntoParentStep(nodes, root, s, order, left, sep, right, p, i, n', s');
    IntoParentFrame(nodes, s, order, p, i, sep, right, n', s');
  }

  // ----- splitInternal -----

  /**
   * The node keeps `keys[..mid]` and `children[..mid + 1]`; a new internal
   * node appended to the arena takes `keys[mid + 1..]` and `children[mid + 1..]`.
   */
  function SplitInternalNodes(nodes: seq<Node>, n: nat): seq<Node>
    requires n < |nodes| && |nodes[n].keys| >= 1 && |nodes[n].children| == |nodes[n].keys| + 1
  {
    var nd := nodes[n];
    var mid := |nd.keys| / 2;
    nodes[n := nd.(keys := nd.keys[..mid], children := nd.children[..mid + 1])]
      + [Node(false, nd.keys[mid + 1..], [], nd.children[mid + 1..], None)]
  }

  /** The moved children record the new node as their parent; `keys[mid]` splits the node's interval. */
  ghost function SplitInternalShape(nodes: seq<Node>, s: Shape, n: nat): Shape
    requires n < |nodes| && n in s.info && |nodes[n].keys| >= 1 && |nodes[n].children| == |nodes[n].keys| + 1
  {
    var nd := nodes[n];
    var mid := |nd.keys| / 2;
    var moved := nd.children[mid + 1..];
    var info := map c | c in s.info :: if c != n && c in moved then s.info[c].(up := |nodes|) else s.info[c];
    Shape(info[n := s.info[n].(hi := Key(nd.keys[mid]))][|nodes| := Info(s.info[n].level, Key(nd.keys[mid]), s.info[n].hi, 0)],
          s.chain)
  }

  lemma SplitInternalRelHolds(nodes: seq<Node>, s: Shape, n: nat)
    requires n < |nodes| && n in s.info && |nodes| !in s.info
    requires |nodes[n].keys| >= 1 && |nodes[n].children| == |nodes[n].keys| + 1
    ensures SplitInternalRel(nodes, s, n, SplitInternalNodes(nodes, n), SplitInternalShape(nodes, s, n))
  {
    var s' := SplitInternalShape(nodes, s, n);
    assert s'.info.Keys == s.info.Keys + {|nodes|};
  }

  lemma SplitInternalFrame(nodes: seq<Node>, s: Shape, n: nat, n': seq<Node>, s': Shape)
    requires n < |nodes| && n in s.info && |nodes| !in s.info
    requires |nodes[n].keys| >= 1 && |nodes[n].children| == |nodes[n].keys| + 1
    requires SplitInternalRel(nodes, s, n, n', s')
    ensures Kept(nodes, s.info, n') && TreeGrows(nodes, s.info, s'.info)
  {
    forall m | m in s.info
      ensures m in s'.info && s'.info[m].level == s.info[m].level
    {
      assert m in s'.info.Keys;
    }
  }

  /** What an internal node of the tree looks like. */
  lemma InternalShape(nodes: seq<Node>, root: nat, s: Shape, order: nat, ph: Phase, n: nat)
    requires Inv(nodes, root, s, order, ph)
    requires n in s.info && s.info[n].level > 0
    ensures n < |nodes| && |nodes[n].children| == |nodes[n].keys| + 1 && |nodes| !in s.info
  {
    assert InternalOk(nodes, s, order, ph, n);
    InvBuckets(nodes, root, s, order, ph);
  }

  lemma SplitInternalDone(nodes: seq<Node>, root: nat, s: Shape, order: nat, n: nat, n': seq<Node>, s': Shape)
    requires SplitInternalPre(nodes, root, s, order, n)
    requires |nodes| !in s.info && n < |nodes| && |nodes[n].children| == |nodes[n].keys| + 1
    requires SplitInternalRel(nodes, s, n, n', s')
    ensures Inv(n', root, s', order, Promote(n, InternalSep(nodes, n), |nodes|))
    ensures SameEntries(nodes, n', s.chain, s'.chain)
    ensures Kept(nodes, s.info, n') && TreeGrows(nodes, s.info, s'.info)
  {
    SplitInternalStep(nodes, root, s, order, n, n', s');
    SplitInternalFrame(nodes, s, n, n', s');
  }
}
