/**
 * The steps of an insertion above the leaves: a split root gets a new root
 * holding the separator between its two halves; a split node's separator
 * and new sibling enter its parent at the position `findPosition` gives;
 * an internal node that reached `order` keys is split at `keys[mid]`. Each
 * lemma takes the tree invariant in one phase to the invariant in the next
 * and leaves the chain's slots and entries as they were.
 */
module BPlusTreeInternalSteps {
  import opened Common
  import opened BPlusTreeShape
  import opened BPlusTreeChain
  import opened BPlusTreeEntries
  import opened BPlusTreeParent

  /** Leaves, chain and buckets untouched: the chain reads the same slots and entries. */
  lemma ChainUntouched(nodes: seq<Node>, nodes': seq<Node>, s: Shape)
    requires LeavesParallel(nodes, s.chain)
    requires forall k :: 0 <= k < |s.chain| ==> s.chain[k] in s.info
    requires forall n :: n in s.info ==> n < |nodes|
    requires forall g :: 0 <= g < |ChainSlots(nodes, s.chain)| ==>
      ChainSlots(nodes, s.chain)[g].bucket < |nodes| && ChainSlots(nodes, s.chain)[g].bucket !in s.info
    requires |nodes'| >= |nodes|
    requires forall m :: 0 <= m < |nodes| && (m !in s.info || nodes[m].isLeaf) ==> nodes'[m] == nodes[m]
    requires forall k :: 0 <= k < |s.chain| ==> nodes[s.chain[k]].isLeaf
    ensures LeavesParallel(nodes', s.chain)
    ensures SameEntries(nodes, nodes', s.chain, s.chain)
  {
    assert forall k :: 0 <= k < |s.chain| ==> nodes'[s.chain[k]] == nodes[s.chain[k]];
    ChainSlotsFrame(nodes, nodes', s.chain);
    KeepsEntries(nodes, nodes', s.chain, s.chain);
  }

  /** Chain facts that only read leaves and the levels and intervals of tree nodes. */
  lemma ChainKept(nodes: seq<Node>, s: Shape, nodes': seq<Node>, s': Shape)
    requires forall n :: n in s.info ==> n < |nodes|
    requires ChainOk(nodes, s)
    requires s'.chain == s.chain
    requires forall n :: n in s'.info ==> n < |nodes'|
    requires forall n :: n in s.info ==> n in s'.info && s'.info[n].level == s.info[n].level
    requires forall n :: n in s'.info && n !in s.info ==> s'.info[n].level > 0
    requires forall k :: 0 <= k < |s.chain| ==>
      s'.info[s.chain[k]].lo == s.info[s.chain[k]].lo && s'.info[s.chain[k]].hi == s.info[s.chain[k]].hi
    requires forall k :: 0 <= k < |s.chain| ==> nodes'[s.chain[k]] == nodes[s.chain[k]]
    ensures ChainOk(nodes', s')
  {
    var c := s.chain;
    forall n | n in s'.info && s'.info[n].level == 0
      ensures n in c
    {
      assert n in s.info;
    }
    forall k | 0 <= k < |c| - 1
      ensures nodes'[c[k]].next == Some(c[k + 1])
      ensures s'.info[c[k]].hi == s'.info[c[k + 1]].lo
    {
    }
  }

  // ----- a new root -----

  /**
   * The arena and shape after the split root `left` gets a new root, appended
   * to the arena, with the one key `sep` and the children `left` and `right`.
   */
  ghost predicate NewRootRel(nodes: seq<Node>, s: Shape, left: nat, sep: int, right: nat,
                             nodes': seq<Node>, s': Shape)
    requires left in s.info && right in s.info
  {
    var nr := |nodes|;
    && |nodes'| == |nodes| + 1
    && (forall m :: 0 <= m < |nodes| ==> nodes'[m] == nodes[m])
    && nodes'[nr] == Node(false, [sep], [], [left, right], None)
    && s'.chain == s.chain
    && s'.info == s.info[left := s.info[left].(up := nr)][right := s.info[right].(up := nr)]
                        [nr := Info(s.info[left].level + 1, NegInf, PosInf, 0)]
  }

  ghost predicate NewRootPre(nodes: seq<Node>, root: nat, s: Shape, order: nat, sep: int, right: nat,
                             nodes': seq<Node>, s': Shape)
  {
    && Inv(nodes, root, s, order, Promote(root, sep, right))
    && NewRootRel(nodes, s, root, sep, right, nodes', s')
  }

  /** What every part of the new-root proof needs about the old state. */
  ghost predicate NewRootBase(nodes: seq<Node>, root: nat, s: Shape, order: nat, sep: int, right: nat,
                              nodes': seq<Node>, s': Shape)
  {
    && order >= 2
    && Framed(nodes, root, s)
    && RootOk(root, s, Promote(root, sep, right))
    && PromoteOk(nodes, root, s, order, Promote(root, sep, right))
    && NewRootRel(nodes, s, root, sep, right, nodes', s')
  }

  /**
   * A split root under a new root: the invariant holds at rest with the new
   * root, one level higher than the old one, and the chain reads the same
   * slots and entries.
   */
  lemma NewRootStep(nodes: seq<Node>, root: nat, s: Shape, order: nat, sep: int, right: nat,
                    nodes': seq<Node>, s': Shape)
    requires NewRootPre(nodes, root, s, order, sep, right, nodes', s')
    ensures Inv(nodes', |nodes|, s', order, Settled)
    ensures s'.info[|nodes|].level == s.info[root].level + 1
    ensures nodes'[|nodes|].keys == [sep] && nodes'[|nodes|].children == [root, right]
    ensures SameEntries(nodes, nodes', s.chain, s'.chain)
  {
    assert NewRootBase(nodes, root, s, order, sep, right, nodes', s');
    NewRootFramed(nodes, root, s, order, sep, right, nodes', s');
    NewRootLeaves(nodes, root, s, order, sep, right, nodes', s');
    NewRootInternals(nodes, root, s, order, sep, right, nodes', s');
    NewRootParents(nodes, root, s, order, sep, right, nodes', s');
    InvIdsChain(nodes, root, s, order, Promote(root, sep, right));
    NewRootChainOk(nodes, root, s, sep, right, nodes', s');
    NewRootChainEntries(nodes, root, s, sep, right, nodes', s');
  }

  lemma NewRootFramed(nodes: seq<Node>, root: nat, s: Shape, order: nat, sep: int, right: nat,
                      nodes': seq<Node>, s': Shape)
    requires NewRootBase(nodes, root, s, order, sep, right, nodes', s')
    ensures Framed(nodes', |nodes|, s')
    ensures RootOk(|nodes|, s', Settled)
  {
    var nr := |nodes|;
    forall m | m in s'.info
      ensures m < |nodes'| && s'.info[m].level <= s'.info[nr].level
      ensures nodes'[m].isLeaf <==> s'.info[m].level == 0
      ensures BoundLe(s'.info[m].lo, s'.info[m].hi) && s'.info[m].lo != PosInf && s'.info[m].hi != NegInf
    {
      if m != nr {
        assert m in s.info && s'.info[m].level == s.info[m].level;
        assert s.info[m].level <= s.info[root].level;
        assert s'.info[m].lo == s.info[m].lo && s'.info[m].hi == s.info[m].hi;
        assert nodes'[m] == nodes[m];
      }
    }
  }

  lemma NewRootLeaves(nodes: seq<Node>, root: nat, s: Shape, order: nat, sep: int, right: nat,
                      nodes': seq<Node>, s': Shape)
    requires NewRootBase(nodes, root, s, order, sep, right, nodes', s')
    requires forall n :: n in s.info && s.info[n].level == 0 ==> LeafOk(nodes, s, order, Promote(root, sep, right), n)
    ensures forall n :: n in s'.info && s'.info[n].level == 0 ==> LeafOk(nodes', s', order, Settled, n)
  {
    forall n | n in s'.info && s'.info[n].level == 0
      ensures LeafOk(nodes', s', order, Settled, n)
    {
      assert LeafOk(nodes, s, order, Promote(root, sep, right), n);
    }
  }

  lemma NewRootInternals(nodes: seq<Node>, root: nat, s: Shape, order: nat, sep: int, right: nat,
                         nodes': seq<Node>, s': Shape)
    requires NewRootBase(nodes, root, s, order, sep, right, nodes', s')
    requires forall n :: n in s.info && s.info[n].level > 0 ==> InternalOk(nodes, s, order, Promote(root, sep, right), n)
    ensures forall n :: n in s'.info && s'.info[n].level > 0 ==> InternalOk(nodes', s', order, Settled, n)
  {
    forall n | n in s'.info && s'.info[n].level > 0
      ensures InternalOk(nodes', s', order, Settled, n)
    {
      if n != |nodes| {
        NewRootKeepsInternal(nodes, root, s, order, sep, right, nodes', s', n);
      } else {
        NewRootNode(nodes, root, s, order, sep, right, nodes', s');
      }
    }
  }

  /** The new root is a well-formed internal node over the two halves. */
  lemma NewRootNode(nodes: seq<Node>, root: nat, s: Shape, order: nat, sep: int, right: nat,
                    nodes': seq<Node>, s': Shape)
    requires NewRootBase(nodes, root, s, order, sep, right, nodes', s')
    ensures |nodes| in s'.info && |nodes| < |nodes'|
    ensures InternalOk(nodes', s', order, Settled, |nodes|)
  {
    var nr := |nodes|;
    assert ChildOk(nodes', s', Settled, nr, 0);
    assert ChildOk(nodes', s', Settled, nr, 1);
  }

  lemma NewRootKeepsInternal(nodes: seq<Node>, root: nat, s: Shape, order: nat, sep: int, right: nat,
                             nodes': seq<Node>, s': Shape, n: nat)
    requires NewRootBase(nodes, root, s, order, sep, right, nodes', s')
    requires n in s.info && s.info[n].level > 0
    requires InternalOk(nodes, s, order, Promote(root, sep, right), n)
    ensures n in s'.info && n < |nodes'|
    ensures InternalOk(nodes', s', order, Settled, n)
  {
    var ph := Promote(root, sep, right);
    forall i | 0 <= i < |nodes'[n].children|
      ensures ChildOk(nodes', s', Settled, n, i)
    {
      assert ChildOk(nodes, s, ph, n, i);
      var c := nodes[n].children[i];
      assert c != root && c != right;
    }
  }

  lemma NewRootParents(nodes: seq<Node>, root: nat, s: Shape, order: nat, sep: int, right: nat,
                       nodes': seq<Node>, s': Shape)
    requires NewRootBase(nodes, root, s, order, sep, right, nodes', s')
    requires ParentsOk(nodes, root, s, Promote(root, sep, right))
    ensures forall n :: n in s'.info ==> n < |nodes'|
    ensures ParentsOk(nodes', |nodes|, s', Settled)
  {
    var nr := |nodes|;
    forall c | c in s'.info && c != nr
      ensures s'.info[c].up in s'.info && c in nodes'[s'.info[c].up].children && !nodes'[s'.info[c].up].isLeaf
    {
      if c != root && c != right {
        assert s'.info[c].up == s.info[c].up;
      }
    }
  }

  /** A new root leaves the leaf chain and its links as they were. */
  lemma NewRootChainOk(nodes: seq<Node>, root: nat, s: Shape, sep: int, right: nat,
                       nodes': seq<Node>, s': Shape)
    requires root in s.info && right in s.info
    requires forall n :: n in s.info ==> n < |nodes|
    requires ChainOk(nodes, s)
    requires NewRootRel(nodes, s, root, sep, right, nodes', s')
    ensures forall n :: n in s'.info ==> n < |nodes'|
    ensures ChainOk(nodes', s')
  {
    ChainKept(nodes, s, nodes', s');
  }

  /** A new root leaves the chain's slots, and so its entries, as they were. */
  lemma NewRootChainEntries(nodes: seq<Node>, root: nat, s: Shape, sep: int, right: nat,
                            nodes': seq<Node>, s': Shape)
    requires root in s.info && right in s.info
    requires forall n :: n in s.info ==> n < |nodes|
    requires forall k :: 0 <= k < |s.chain| ==> s.chain[k] in s.info && nodes[s.chain[k]].isLeaf
    requires LeavesParallel(nodes, s.chain)
    requires NoDuplicates(Buckets(ChainSlots(nodes, s.chain)))
    requires forall g :: 0 <= g < |ChainSlots(nodes, s.chain)| ==>
      ChainSlots(nodes, s.chain)[g].bucket < |nodes| && ChainSlots(nodes, s.chain)[g].bucket !in s.info
    requires NewRootRel(nodes, s, root, sep, right, nodes', s')
    ensures LeavesParallel(nodes', s'.chain)
    ensures SameEntries(nodes, nodes', s.chain, s'.chain)
    ensures NoDuplicates(Buckets(ChainSlots(nodes', s'.chain)))
  {
    ChainUntouched(nodes, nodes', s);
  }

  /** Chain leaves are leaf nodes, and their slots' buckets are bucket nodes. */
  lemma InvIdsChain(nodes: seq<Node>, root: nat, s: Shape, order: nat, ph: Phase)
    requires Inv(nodes, root, s, order, ph)
    ensures forall k :: 0 <= k < |s.chain| ==> nodes[s.chain[k]].isLeaf
    ensures forall g :: 0 <= g < |ChainSlots(nodes, s.chain)| ==>
      ChainSlots(nodes, s.chain)[g].bucket < |nodes| && ChainSlots(nodes, s.chain)[g].bucket !in s.info
  {
    forall g | 0 <= g < |ChainSlots(nodes, s.chain)|
      ensures ChainSlots(nodes, s.chain)[g].bucket < |nodes| && ChainSlots(nodes, s.chain)[g].bucket !in s.info
    {
      var j, i := SlotFromChain(nodes, s.chain, g);
      assert LeafOk(nodes, s, order, ph, s.chain[j]);
      assert nodes[s.chain[j]].children[i] in nodes[s.chain[j]].children;
    }
  }

  // ----- the separator enters the parent -----

  /** `findPosition` is determined by the keys: two positions of one key agree. */
  lemma PositionUnique(keys: seq<int>, key: int, i: int, k: int)
    requires IsPosition(keys, key, i) && IsPosition(keys, key, k)
    ensures i == k
  {
  }

  /**
   * `insertIntoParent` on the arena: `sep` enters the keys of `p` at `i` and
   * `right` its children at `i + 1`; `right` now records `p` as its parent.
   */
  ghost predicate IntoParentRel(nodes: seq<Node>, s: Shape, p: nat, i: nat, sep: int, right: nat,
                                nodes': seq<Node>, s': Shape)
    requires p < |nodes| && right in s.info
    requires i <= |nodes[p].keys| && |nodes[p].children| == |nodes[p].keys| + 1
  {
    var pn := nodes[p];
    && |nodes'| == |nodes|
    && (forall m :: 0 <= m < |nodes| && m != p ==> nodes'[m] == nodes[m])
    && nodes'[p] == pn.(keys := InsertAt(pn.keys, i, sep), children := InsertAt(pn.children, i + 1, right))
    && s'.chain == s.chain
    && s'.info == s.info[right := s.info[right].(up := p)]
  }

  /** The phase after the parent gained a key: at rest, or about to split the parent. */
  function AfterPromote(nodes: seq<Node>, p: nat, order: nat): Phase
    requires p < |nodes|
  {
    if |nodes[p].keys| + 1 < order then Settled else FullInternal(p)
  }

  /** What `insertIntoParent` knows: `left` (not the root) sits at child index `i` of its parent `p`. */
  ghost predicate IntoParentPre(nodes: seq<Node>, root: nat, s: Shape, order: nat, left: nat, sep: int,
                                right: nat, p: nat, i: nat)
  {
    && Inv(nodes, root, s, order, Promote(left, sep, right)) && left != root
    && p == s.info[left].up
    && p in s.info && i < |nodes[p].children| && nodes[p].children[i] == left
  }

  /** What every part of the insert-into-parent proof needs about the old state. */
  ghost predicate IntoParentBase(nodes: seq<Node>, root: nat, s: Shape, order: nat, left: nat, sep: int,
                                 right: nat, p: nat, i: nat, nodes': seq<Node>, s': Shape)
  {
    && order >= 2
    && Framed(nodes, root, s)
    && RootOk(root, s, Promote(left, sep, right)) && left != root
    && PromoteOk(nodes, root, s, order, Promote(left, sep, right))
    && p == s.info[left].up && p in s.info && s.info[p].level > 0
    && InternalOk(nodes, s, order, Promote(left, sep, right), p)
    && i < |nodes[p].children| && nodes[p].children[i] == left
    && IntoParentRel(nodes, s, p, i, sep, right, nodes', s')
  }

  /**
   * While `right` waits, the child index of `left` in its parent is where
   * `findPosition(parent.keys, sep)` stops.
   */
  lemma ParentPosition(nodes: seq<Node>, root: nat, s: Shape, order: nat, left: nat, sep: int,
                       right: nat, p: nat, i: nat)
    requires IntoParentPre(nodes, root, s, order, left, sep, right, p, i)
    ensures s.info[p].level > 0 && InternalOk(nodes, s, order, Promote(left, sep, right), p)
    ensures IsPosition(nodes[p].keys, sep, i)
  {
    var ph := Promote(left, sep, right);
    assert s.info[p].level > 0 by {
      assert nodes[p].children != [];
    }
    assert InternalOk(nodes, s, order, ph, p);
    assert ChildOk(nodes, s, ph, p, i);
    var keys := nodes[p].keys;
    assert StrictlyAscending(keys);
    PositionBetween(keys, sep, i);
  }

  /** In ascending keys, the gap between a smaller and a not-smaller neighbour is the position. */
  lemma PositionBetween(keys: seq<int>, key: int, i: nat)
    requires StrictlyAscending(keys) && i <= |keys|
    requires i > 0 ==> keys[i - 1] < key
    requires i < |keys| ==> key <= keys[i]
    ensures IsPosition(keys, key, i)
  {
    forall k | 0 <= k < i
      ensures keys[k] < key
    {
      assert keys[k] <= keys[i - 1];
    }
  }

  /**
   * The separator and the new sibling in the parent: the invariant holds at
   * rest or with the parent about to be split, and the chain reads the same
   * slots and entries.
   */
  lemma IntoParentStep(nodes: seq<Node>, root: nat, s: Shape, order: nat, left: nat, sep: int,
                       right: nat, p: nat, i: nat, nodes': seq<Node>, s': Shape)
    requires IntoParentPre(nodes, root, s, order, left, sep, right, p, i)
    requires IntoParentRel(nodes, s, p, i, sep, right, nodes', s')
    ensures Inv(nodes', root, s', order, AfterPromote(nodes, p, order))
    ensures SameEntries(nodes, nodes', s.chain, s'.chain)
  {
    ParentPosition(nodes, root, s, order, left, sep, right, p, i);
    assert IntoParentBase(nodes, root, s, order, left, sep, right, p, i, nodes', s');
    IntoParentLeaves(nodes, root, s, order, left, sep, right, p, i, nodes', s');
    IntoParentInternals(nodes, root, s, order, left, sep, right, p, i, nodes', s');
    IntoParentParents(nodes, root, s, order, left, sep, right, p, i, nodes', s');
    InvIdsChain(nodes, root, s, order, Promote(left, sep, right));
    IntoParentChain(nodes, s, p, i, sep, right, nodes', s');
  }

  lemma IntoParentLeaves(nodes: seq<Node>, root: nat, s: Shape, order: nat, left: nat, sep: int,
                         right: nat, p: nat, i: nat, nodes': seq<Node>, s': Shape)
    requires IntoParentBase(nodes, root, s, order, left, sep, right, p, i, nodes', s')
    requires forall n :: n in s.info && s.info[n].level == 0 ==> LeafOk(nodes, s, order, Promote(left, sep, right), n)
    ensures Framed(nodes', root, s')
    ensures RootOk(root, s', AfterPromote(nodes, p, order))
    ensures forall n :: n in s'.info && s'.info[n].level == 0 ==> LeafOk(nodes', s', order, AfterPromote(nodes, p, order), n)
  {
    forall n | n in s'.info && s'.info[n].level == 0
      ensures LeafOk(nodes', s', order, AfterPromote(nodes, p, order), n)
    {
      assert LeafOk(nodes, s, order, Promote(left, sep, right), n);
    }
  }

  lemma IntoParentInternals(nodes: seq<Node>, root: nat, s: Shape, order: nat, left: nat, sep: int,
                            right: nat, p: nat, i: nat, nodes': seq<Node>, s': Shape)
    requires IntoParentBase(nodes, root, s, order, left, sep, right, p, i, nodes', s')
    requires forall n :: n in s.info && s.info[n].level > 0 ==> InternalOk(nodes, s, order, Promote(left, sep, right), n)
    ensures forall n :: n in s'.info ==> n < |nodes'|
    ensures forall n :: n in s'.info && s'.info[n].level > 0 ==> InternalOk(nodes', s', order, AfterPromote(nodes, p, order), n)
  {
    forall n | n in s'.info && s'.info[n].level > 0
      ensures InternalOk(nodes', s', order, AfterPromote(nodes, p, order), n)
    {
      if n == p {
        IntoParentNode(nodes, root, s, order, left, sep, right, p, i, nodes', s');
      } else {
        IntoParentOthers(nodes, root, s, order, left, sep, right, p, i, nodes', s', n);
      }
    }
  }

  /** Internal nodes other than the parent keep their children and what they know of them. */
  lemma IntoParentOthers(nodes: seq<Node>, root: nat, s: Shape, order: nat, left: nat, sep: int,
                         right: nat, p: nat, i: nat, nodes': seq<Node>, s': Shape, n: nat)
    requires IntoParentBase(nodes, root, s, order, left, sep, right, p, i, nodes', s')
    requires n in s.info && s.info[n].level > 0 && n != p
    requires InternalOk(nodes, s, order, Promote(left, sep, right), n)
    ensures n in s'.info && n < |nodes'|
    ensures InternalOk(nodes', s', order, AfterPromote(nodes, p, order), n)
  {
    var ph := Promote(left, sep, right);
    var ph' := AfterPromote(nodes, p, order);
    forall k | 0 <= k < |nodes'[n].children|
      ensures ChildOk(nodes', s', ph', n, k)
    {
      assert ChildOk(nodes, s, ph, n, k);
      var c := nodes[n].children[k];
      assert c != right && c != left;
    }
  }

  /** The keys of the parent after `sep` entered at the position of `left`. */
  lemma IntoParentKeys(nodes: seq<Node>, root: nat, s: Shape, order: nat, left: nat, sep: int,
                       right: nat, p: nat, i: nat, nodes': seq<Node>, s': Shape)
    requires IntoParentBase(nodes, root, s, order, left, sep, right, p, i, nodes', s')
    ensures var keys' := nodes'[p].keys;
      && (forall k :: k in keys' ==> Above(s.info[p].lo, k) && AtMost(k, s.info[p].hi))
      && ((|keys'| < order && StrictlyAscending(keys')) ||
          (AfterPromote(nodes, p, order) == FullInternal(p) && |keys'| == order && NonDecreasing(keys') &&
           (order >= 3 ==> StrictlyAscending(keys'))))
  {
    var ph := Promote(left, sep, right);
    assert ChildOk(nodes, s, ph, p, i);
    var keys, keys' := nodes[p].keys, nodes'[p].keys;
    var inf := s.info[p];
    assert i > 0 ==> keys[i - 1] < sep;
    assert i < |keys| ==> sep <= keys[i] && (order >= 3 ==> sep < keys[i]);
    assert Above(inf.lo, sep) by {
      if i > 0 {
        assert keys[i - 1] in keys;
      }
    }
    assert AtMost(sep, inf.hi) by {
      if i < |keys| {
        assert keys[i] in keys;
      }
    }
    forall k | k in keys'
      ensures Above(inf.lo, k) && AtMost(k, inf.hi)
    {
      var m :| 0 <= m < |keys'| && keys'[m] == k;
      if m < i {
        assert keys[m] in keys;
      } else if m > i {
        assert keys[m - 1] in keys;
      }
    }
    InsertKeepsOrder(keys, i, sep);
    if |keys| == 0 {
      assert keys' == [sep];
    }
  }

  /**
   * Inserting `x` after a smaller key and before one it does not exceed keeps
   * an ascending list non-decreasing, and strictly ascending when `x` is also
   * below the key after it.
   */
  lemma InsertKeepsOrder(keys: seq<int>, i: nat, x: int)
    requires i <= |keys| && StrictlyAscending(keys)
    requires i > 0 ==> keys[i - 1] < x
    requires i < |keys| ==> x <= keys[i]
    ensures NonDecreasing(InsertAt(keys, i, x))
    ensures (i < |keys| ==> x < keys[i]) ==> StrictlyAscending(InsertAt(keys, i, x))
  {
    var r := InsertAt(keys, i, x);
    forall a, b | 0 <= a < b < |r|
      ensures r[a] <= r[b]
      ensures (i < |keys| ==> x < keys[i]) ==> r[a] < r[b]
    {
      if b < i {
        assert r[a] == keys[a] && r[b] == keys[b];
      } else if b == i {
        assert r[a] == keys[a] && keys[a] <= keys[i - 1];
      } else if a < i {
        assert r[a] == keys[a] && r[b] == keys[b - 1];
        assert keys[a] <= keys[i - 1] && keys[i] <= keys[b - 1];
      } else if a == i {
        assert r[b] == keys[b - 1] && keys[i] <= keys[b - 1];
      } else {
        assert r[a] == keys[a - 1] && r[b] == keys[b - 1];
      }
    }
  }

  /** The parent with the separator and the new sibling is a well-formed internal node. */
  lemma IntoParentNode(nodes: seq<Node>, root: nat, s: Shape, order: nat, left: nat, sep: int,
                       right: nat, p: nat, i: nat, nodes': seq<Node>, s': Shape)
    requires IntoParentBase(nodes, root, s, order, left, sep, right, p, i, nodes', s')
    ensures p in s'.info && p < |nodes'|
    ensures InternalOk(nodes', s', order, AfterPromote(nodes, p, order), p)
  {
    IntoParentKeys(nodes, root, s, order, left, sep, right, p, i, nodes', s');
    var ch, ch' := nodes[p].children, nodes'[p].children;
    assert right !in ch;
    forall a, b | 0 <= a < b < |ch'|
      ensures ch'[a] != ch'[b]
    {
      if a == i + 1 {
        assert ch'[b] == ch[b - 1];
      } else if b == i + 1 {
        assert ch'[a] == ch[a];
      } else {
        var a0 := if a < i + 1 then a else a - 1;
        var b0 := if b < i + 1 then b else b - 1;
        assert ch'[a] == ch[a0] && ch'[b] == ch[b0];
      }
    }
    forall k | 0 <= k < |ch'|
      ensures ChildOk(nodes', s', AfterPromote(nodes, p, order), p, k)
    {
      IntoParentChild(nodes, root, s, order, left, sep, right, p, i, nodes', s', k);
    }
  }

  lemma IntoParentChild(nodes: seq<Node>, root: nat, s: Shape, order: nat, left: nat, sep: int,
                        right: nat, p: nat, i: nat, nodes': seq<Node>, s': Shape, k: nat)
    requires IntoParentBase(nodes, root, s, order, left, sep, right, p, i, nodes', s')
    requires k < |nodes'[p].children|
    ensures p in s'.info && |nodes'[p].children| == |nodes'[p].keys| + 1
    ensures ChildOk(nodes', s', AfterPromote(nodes, p, order), p, k)
  {
    var ph := Promote(left, sep, right);
    var pn, pn' := nodes[p], nodes'[p];
    if k < i {
      assert ChildOk(nodes, s, ph, p, k);
      assert pn.children[k] != left;
    } else if k <= i + 1 {
      assert ChildOk(nodes, s, ph, p, i);
    } else {
      assert ChildOk(nodes, s, ph, p, k - 1);
      assert pn.children[k - 1] != left;
      assert pn'.children[k] == pn.children[k - 1];
    }
  }

  lemma IntoParentParents(nodes: seq<Node>, root: nat, s: Shape, order: nat, left: nat, sep: int,
                          right: nat, p: nat, i: nat, nodes': seq<Node>, s': Shape)
    requires IntoParentBase(nodes, root, s, order, left, sep, right, p, i, nodes', s')
    requires ParentsOk(nodes, root, s, Promote(left, sep, right))
    ensures forall n :: n in s'.info ==> n < |nodes'|
    ensures ParentsOk(nodes', root, s', AfterPromote(nodes, p, order))
    ensures PromoteOk(nodes', root, s', order, AfterPromote(nodes, p, order))
  {
    forall c | c in s'.info && c != root
      ensures s'.info[c].up in s'.info && c in nodes'[s'.info[c].up].children && !nodes'[s'.info[c].up].isLeaf
    {
      if c != right {
        var u := s.info[c].up;
        if u == p {
          var k :| 0 <= k < |nodes[p].children| && nodes[p].children[k] == c;
          if k <= i {
            assert nodes'[p].children[k] == c;
          } else {
            assert nodes'[p].children[k + 1] == c;
          }
        }
      } else {
        assert nodes'[p].children[i + 1] == right;
      }
    }
  }

  lemma IntoParentChain(nodes: seq<Node>, s: Shape, p: nat, i: nat, sep: int, right: nat,
                        nodes': seq<Node>, s': Shape)
    requires p in s.info && right in s.info
    requires forall n :: n in s.info ==> n < |nodes|
    requires !nodes[p].isLeaf
    requires i <= |nodes[p].keys| && |nodes[p].children| == |nodes[p].keys| + 1
    requires ChainOk(nodes, s) && LeavesParallel(nodes, s.chain)
    requires NoDuplicates(Buckets(ChainSlots(nodes, s.chain)))
    requires forall k :: 0 <= k < |s.chain| ==> nodes[s.chain[k]].isLeaf
    requires forall g :: 0 <= g < |ChainSlots(nodes, s.chain)| ==>
      ChainSlots(nodes, s.chain)[g].bucket < |nodes| && ChainSlots(nodes, s.chain)[g].bucket !in s.info
    requires IntoParentRel(nodes, s, p, i, sep, right, nodes', s')
    ensures ChainOk(nodes', s')
    ensures LeavesParallel(nodes', s'.chain)
    ensures SameEntries(nodes, nodes', s.chain, s'.chain)
    ensures NoDuplicates(Buckets(ChainSlots(nodes', s'.chain)))
  {
    ChainKept(nodes, s, nodes', s');
    ChainUntouched(nodes, nodes', s);
  }

  // ----- splitting a full internal node -----

  /** The key an internal split lifts: `keys[mid]` with `mid = size / 2`. */
  function InternalSep(nodes: seq<Node>, n: nat): int
    requires n < |nodes| && |nodes[n].keys| >= 1
  {
    nodes[n].keys[|nodes[n].keys| / 2]
  }

  /**
   * `splitInternal` on the arena: the node keeps `keys[..mid]` and
   * `children[..mid + 1]`; a new internal node, appended to the arena, takes
   * `keys[mid + 1..]` and `children[mid + 1..]`, whose children now record
   * it as their parent; `keys[mid]` becomes the upper end of the node and
   * the lower end of the new one.
   */
  ghost predicate SplitInternalRel(nodes: seq<Node>, s: Shape, n: nat, nodes': seq<Node>, s': Shape)
    requires n < |nodes| && n in s.info
    requires |nodes[n].keys| >= 1 && |nodes[n].children| == |nodes[n].keys| + 1
  {
    var nd := nodes[n];
    var mid := |nd.keys| / 2;
    var nn := |nodes|;
    && |nodes'| == |nodes| + 1
    && (forall m :: 0 <= m < |nodes| && m != n ==> nodes'[m] == nodes[m])
    && nodes'[n] == nd.(keys := nd.keys[..mid], children := nd.children[..mid + 1])
    && nodes'[nn] == Node(false, nd.keys[mid + 1..], [], nd.children[mid + 1..], None)
    && s'.chain == s.chain
    && s'.info.Keys == s.info.Keys + {nn}
    && s'.info[n] == s.info[n].(hi := Key(nd.keys[mid]))
    && s'.info[nn] == Info(s.info[n].level, Key(nd.keys[mid]), s.info[n].hi, 0)
    && (forall c :: c in s.info && c != n ==>
          s'.info[c] == if c in nd.children[mid + 1..] then s.info[c].(up := nn) else s.info[c])
  }

  ghost predicate SplitInternalPre(nodes: seq<Node>, root: nat, s: Shape, order: nat, n: nat)
  {
    && Inv(nodes, root, s, order, FullInternal(n))
    && n in s.info && s.info[n].level > 0 && |nodes[n].keys| == order
  }

  /** What every part of the split-internal proof needs about the old state. */
  ghost predicate SplitInternalBase(nodes: seq<Node>, root: nat, s: Shape, order: nat, n: nat,
                                    nodes': seq<Node>, s': Shape)
  {
    && order >= 2
    && Framed(nodes, root, s)
    && RootOk(root, s, FullInternal(n))
    && Descends(nodes, s)
    && n in s.info && s.info[n].level > 0
    && InternalOk(nodes, s, order, FullInternal(n), n)
    && |nodes[n].keys| == order
    && SplitInternalRel(nodes, s, n, nodes', s')
  }

  /**
   * Splitting a full internal node yields the invariant with the new node
   * waiting for `keys[mid]` to be inserted into the parent, and keeps the
   * chain's slots and entries.
   */
  lemma SplitInternalStep(nodes: seq<Node>, root: nat, s: Shape, order: nat, n: nat,
                          nodes': seq<Node>, s': Shape)
    requires SplitInternalPre(nodes, root, s, order, n)
    requires SplitInternalRel(nodes, s, n, nodes', s')
    ensures Inv(nodes', root, s', order, Promote(n, InternalSep(nodes, n), |nodes|))
    ensures SameEntries(nodes, nodes', s.chain, s'.chain)
  {
    InvDescends(nodes, root, s, order, FullInternal(n));
    assert SplitInternalBase(nodes, root, s, order, n, nodes', s');
    SplitInternalSepIn(nodes, root, s, order, n, nodes', s');
    SplitInternalFramed(nodes, root, s, n, nodes', s');
    SplitInternalRootOk(nodes, root, s, order, n, nodes', s');
    SplitInternalLeaves(nodes, root, s, order, n, nodes', s');
    SplitInternalInternals(nodes, root, s, order, n, nodes', s');
    SplitInternalParents(nodes, root, s, order, n, nodes', s');
    SplitInternalPromote(nodes, root, s, order, n, nodes', s');
    InvIdsChain(nodes, root, s, order, FullInternal(n));
    SplitInternalChain(nodes, s, n, nodes', s');
  }

  /** The keys on either side of `keys[mid]` and where `keys[mid]` lies. */
  lemma SplitInternalKeys(nodes: seq<Node>, root: nat, s: Shape, order: nat, n: nat,
                          nodes': seq<Node>, s': Shape)
    requires SplitInternalBase(nodes, root, s, order, n, nodes', s')
    ensures var keys, inf := nodes[n].keys, s.info[n]; var mid := |keys| / 2; var sep := keys[mid];
      && 1 <= mid < |keys|
      && Above(inf.lo, sep) && AtMost(sep, inf.hi)
      && (order >= 3 ==> Under(sep, inf.hi))
      && (forall k :: k in keys[..mid] ==> Above(inf.lo, k) && k <= sep)
      && (forall k :: k in keys[mid + 1..] ==> sep < k && AtMost(k, inf.hi))
      && StrictlyAscending(keys[..mid]) && StrictlyAscending(keys[mid + 1..])
  {
    var keys, inf := nodes[n].keys, s.info[n];
    var mid := |keys| / 2;
    assert keys[mid] in keys && keys[|keys| - 1] in keys;
    forall k | k in keys[..mid]
      ensures Above(inf.lo, k) && k <= keys[mid]
    {
      var a :| 0 <= a < mid && keys[a] == k;
      assert keys[a] in keys;
    }
    forall k | k in keys[mid + 1..]
      ensures keys[mid] < k && AtMost(k, inf.hi)
    {
      var a :| mid + 1 <= a < |keys| && keys[a] == k;
      assert keys[a] in keys;
    }
    assert StrictlyAscending(keys[..mid]) by {
      if order < 3 {
        assert |keys[..mid]| == 1;
      }
    }
  }

  /** The separator `keys[mid]` of a full internal node lies in the node's interval. */
  lemma SplitInternalSepIn(nodes: seq<Node>, root: nat, s: Shape, order: nat, n: nat,
                           nodes': seq<Node>, s': Shape)
    requires SplitInternalBase(nodes, root, s, order, n, nodes', s')
    ensures var keys, inf := nodes[n].keys, s.info[n]; var mid := |keys| / 2;
      && 1 <= mid < |keys| && Above(inf.lo, keys[mid]) && AtMost(keys[mid], inf.hi)
  {
    var keys := nodes[n].keys;
    assert keys[|keys| / 2] in keys;
  }

  /** Splitting an internal node keeps every tree node in the arena, with its level and a proper interval. */
  lemma SplitInternalFramed(nodes: seq<Node>, root: nat, s: Shape, n: nat, nodes': seq<Node>, s': Shape)
    requires Framed(nodes, root, s) && n in s.info && s.info[n].level > 0
    requires |nodes[n].keys| >= 1 && |nodes[n].children| == |nodes[n].keys| + 1
    requires SplitInternalRel(nodes, s, n, nodes', s')
    requires Above(s.info[n].lo, InternalSep(nodes, n)) && AtMost(InternalSep(nodes, n), s.info[n].hi)
    ensures Framed(nodes', root, s')
  {
    var nn := |nodes|;
    assert root != nn && s'.info[root].level == s.info[root].level;
    forall m | m in s'.info
      ensures m < |nodes'| && s'.info[m].level <= s'.info[root].level
      ensures nodes'[m].isLeaf <==> s'.info[m].level == 0
      ensures BoundLe(s'.info[m].lo, s'.info[m].hi) && s'.info[m].lo != PosInf && s'.info[m].hi != NegInf
    {
      if m == nn {
        assert s'.info[m].level == s.info[n].level && !nodes'[m].isLeaf;
      } else {
        assert m in s.info && s'.info[m].level == s.info[m].level;
        assert nodes'[m].isLeaf == nodes[m].isLeaf;
      }
    }
  }

  /** Splitting an internal node keeps the root's interval unbounded. */
  lemma SplitInternalRootOk(nodes: seq<Node>, root: nat, s: Shape, order: nat, n: nat,
                            nodes': seq<Node>, s': Shape)
    requires SplitInternalBase(nodes, root, s, order, n, nodes', s')
    ensures RootOk(root, s', Promote(n, InternalSep(nodes, n), |nodes|))
  {
    SplitInternalSepIn(nodes, root, s, order, n, nodes', s');
  }

  lemma SplitInternalLeaves(nodes: seq<Node>, root: nat, s: Shape, order: nat, n: nat,
                            nodes': seq<Node>, s': Shape)
    requires SplitInternalBase(nodes, root, s, order, n, nodes', s')
    requires forall m :: m in s.info && s.info[m].level == 0 ==> LeafOk(nodes, s, order, FullInternal(n), m)
    ensures forall m :: m in s'.info ==> m < |nodes'|
    ensures forall m :: m in s'.info && s'.info[m].level == 0 ==>
      LeafOk(nodes', s', order, Promote(n, InternalSep(nodes, n), |nodes|), m)
  {
    forall m | m in s'.info && s'.info[m].level == 0
      ensures LeafOk(nodes', s', order, Promote(n, InternalSep(nodes, n), |nodes|), m)
    {
      assert LeafOk(nodes, s, order, FullInternal(n), m);
    }
  }

  lemma SplitInternalInternals(nodes: seq<Node>, root: nat, s: Shape, order: nat, n: nat,
                               nodes': seq<Node>, s': Shape)
    requires SplitInternalBase(nodes, root, s, order, n, nodes', s')
    requires forall m :: m in s.info && s.info[m].level > 0 ==> InternalOk(nodes, s, order, FullInternal(n), m)
    ensures forall m :: m in s'.info ==> m < |nodes'|
    ensures forall m :: m in s'.info && s'.info[m].level > 0 ==>
      InternalOk(nodes', s', order, Promote(n, InternalSep(nodes, n), |nodes|), m)
  {
    forall m | m in s'.info && s'.info[m].level > 0
      ensures InternalOk(nodes', s', order, Promote(n, InternalSep(nodes, n), |nodes|), m)
    {
      if m == n {
        SplitInternalLeft(nodes, root, s, order, n, nodes', s');
      } else if m == |nodes| {
        SplitInternalRight(nodes, root, s, order, n, nodes', s');
      } else {
        SplitInternalOthers(nodes, root, s, order, n, nodes', s', m);
      }
    }
  }

  /** The node keeps the lower half as a well-formed internal node up to `keys[mid]`. */
  lemma SplitInternalLeft(nodes: seq<Node>, root: nat, s: Shape, order: nat, n: nat,
                          nodes': seq<Node>, s': Shape)
    requires SplitInternalBase(nodes, root, s, order, n, nodes', s')
    ensures n in s'.info && n < |nodes'|
    ensures InternalOk(nodes', s', order, Promote(n, InternalSep(nodes, n), |nodes|), n)
  {
    SplitInternalKeys(nodes, root, s, order, n, nodes', s');
    var ph, ph' := FullInternal(n), Promote(n, InternalSep(nodes, n), |nodes|);
    var nd := nodes[n];
    var mid := |nd.keys| / 2;
    forall k | 0 <= k <= mid
      ensures ChildOk(nodes', s', ph', n, k)
    {
      assert ChildOk(nodes, s, ph, n, k);
      var c := nd.children[k];
      assert c !in nd.children[mid + 1..] by {
        forall a | mid + 1 <= a < |nd.children|
          ensures nd.children[a] != c
        {
        }
      }
    }
  }

  /** The new node takes the upper half as a well-formed internal node above `keys[mid]`. */
  lemma SplitInternalRight(nodes: seq<Node>, root: nat, s: Shape, order: nat, n: nat,
                           nodes': seq<Node>, s': Shape)
    requires SplitInternalBase(nodes, root, s, order, n, nodes', s')
    ensures |nodes| in s'.info && |nodes| < |nodes'|
    ensures InternalOk(nodes', s', order, Promote(n, InternalSep(nodes, n), |nodes|), |nodes|)
  {
    SplitInternalKeys(nodes, root, s, order, n, nodes', s');
    SplitInternalRightDistinct(nodes, root, s, order, n, nodes', s');
    SplitInternalRightChildren(nodes, root, s, order, n, nodes', s');
  }

  /** The new node's children are distinct, being a tail of the old node's. */
  lemma SplitInternalRightDistinct(nodes: seq<Node>, root: nat, s: Shape, order: nat, n: nat,
                                   nodes': seq<Node>, s': Shape)
    requires SplitInternalBase(nodes, root, s, order, n, nodes', s')
    ensures |nodes| < |nodes'|
    ensures var r := nodes'[|nodes|].children; forall a, b :: 0 <= a < b < |r| ==> r[a] != r[b]
  {
    var nd := nodes[n];
    var mid := |nd.keys| / 2;
    var r := nodes'[|nodes|];
    forall a, b | 0 <= a < b < |r.children|
      ensures r.children[a] != r.children[b]
    {
      assert r.children[a] == nd.children[mid + 1 + a] && r.children[b] == nd.children[mid + 1 + b];
    }
  }

  /** Every child of the new node sits below it with the interval its separators give. */
  lemma SplitInternalRightChildren(nodes: seq<Node>, root: nat, s: Shape, order: nat, n: nat,
                                   nodes': seq<Node>, s': Shape)
    requires SplitInternalBase(nodes, root, s, order, n, nodes', s')
    ensures |nodes| in s'.info && |nodes| < |nodes'|
    ensures |nodes'[|nodes|].children| == |nodes'[|nodes|].keys| + 1
    ensures forall k :: 0 <= k < |nodes'[|nodes|].children| ==>
      ChildOk(nodes', s', Promote(n, InternalSep(nodes, n), |nodes|), |nodes|, k)
  {
    var ph, ph' := FullInternal(n), Promote(n, InternalSep(nodes, n), |nodes|);
    var nd, nn := nodes[n], |nodes|;
    var mid := |nd.keys| / 2;
    var r := nodes'[nn];
    forall k | 0 <= k < |r.children|
      ensures ChildOk(nodes', s', ph', nn, k)
    {
      assert ChildOk(nodes, s, ph, n, mid + 1 + k);
      assert r.children[k] == nd.children[mid + 1 + k];
    }
  }

  /** Every other internal node keeps its children; the split node's parent sees it waiting for its sibling. */
  lemma SplitInternalOthers(nodes: seq<Node>, root: nat, s: Shape, order: nat, n: nat,
                            nodes': seq<Node>, s': Shape, m: nat)
    requires SplitInternalBase(nodes, root, s, order, n, nodes', s')
    requires m in s.info && s.info[m].level > 0 && m != n
    requires InternalOk(nodes, s, order, FullInternal(n), m)
    ensures m in s'.info && m < |nodes'|
    ensures InternalOk(nodes', s', order, Promote(n, InternalSep(nodes, n), |nodes|), m)
  {
    var ph, ph' := FullInternal(n), Promote(n, InternalSep(nodes, n), |nodes|);
    var nd := nodes[n];
    var mid := |nd.keys| / 2;
    forall k | 0 <= k < |nodes'[m].children|
      ensures ChildOk(nodes', s', ph', m, k)
    {
      assert ChildOk(nodes, s, ph, m, k);
      var c := nodes[m].children[k];
      assert c !in nd.children[mid + 1..] by {
        forall a | mid + 1 <= a < |nd.children|
          ensures nd.children[a] != c
        {
          assert ChildOk(nodes, s, ph, n, a);
        }
      }
    }
  }

  lemma SplitInternalParents(nodes: seq<Node>, root: nat, s: Shape, order: nat, n: nat,
                             nodes': seq<Node>, s': Shape)
    requires SplitInternalBase(nodes, root, s, order, n, nodes', s')
    requires ParentsOk(nodes, root, s, FullInternal(n))
    ensures forall m :: m in s'.info ==> m < |nodes'|
    ensures ParentsOk(nodes', root, s', Promote(n, InternalSep(nodes, n), |nodes|))
  {
    forall c | c in s'.info && c != root && c != |nodes|
      ensures s'.info[c].up in s'.info && s'.info[c].up < |nodes'|
      ensures c in nodes'[s'.info[c].up].children && !nodes'[s'.info[c].up].isLeaf
    {
      SplitInternalParent(nodes, root, s, order, n, nodes', s', c);
    }
  }

  lemma SplitInternalParent(nodes: seq<Node>, root: nat, s: Shape, order: nat, n: nat,
                            nodes': seq<Node>, s': Shape, c: nat)
    requires SplitInternalBase(nodes, root, s, order, n, nodes', s')
    requires c in s.info && c != root
    requires s.info[c].up in s.info && c in nodes[s.info[c].up].children && !nodes[s.info[c].up].isLeaf
    ensures c in s'.info && s'.info[c].up in s'.info && s'.info[c].up < |nodes'|
    ensures c in nodes'[s'.info[c].up].children && !nodes'[s'.info[c].up].isLeaf
  {
    var nd := nodes[n];
    var mid := |nd.keys| / 2;
    var u := s.info[c].up;
    if c == n {
      assert s'.info[c].up == u && u != n;
    } else if c in nd.children[mid + 1..] {
      assert s'.info[c].up == |nodes|;
      var k :| mid + 1 <= k < |nd.children| && nd.children[k] == c;
      assert nodes'[|nodes|].children[k - mid - 1] == c;
    } else {
      assert s'.info[c].up == u;
      if u == n {
        var k :| 0 <= k < |nd.children| && nd.children[k] == c;
        assert nodes'[n].children[k] == c;
      }
    }
  }

  lemma SplitInternalPromote(nodes: seq<Node>, root: nat, s: Shape, order: nat, n: nat,
                             nodes': seq<Node>, s': Shape)
    requires SplitInternalBase(nodes, root, s, order, n, nodes', s')
    ensures forall m :: m in s'.info ==> m < |nodes'|
    ensures PromoteOk(nodes', root, s', order, Promote(n, InternalSep(nodes, n), |nodes|))
  {
    SplitInternalKeys(nodes, root, s, order, n, nodes', s');
    var nd, nn := nodes[n], |nodes|;
    assert forall c :: c in nd.children ==> c in s.info && c < nn;
    forall m | m in s'.info && !nodes'[m].isLeaf
      ensures nn !in nodes'[m].children
    {
      if m == nn || m == n {
        assert forall c :: c in nodes'[m].children ==> c in nd.children;
      } else {
        assert nodes'[m] == nodes[m];
        assert forall c :: c in nodes[m].children ==> c in s.info;
      }
    }
  }

  lemma SplitInternalChain(nodes: seq<Node>, s: Shape, n: nat, nodes': seq<Node>, s': Shape)
    requires n in s.info && s.info[n].level > 0
    requires forall m :: m in s.info ==> m < |nodes|
    requires |nodes[n].keys| >= 1 && |nodes[n].children| == |nodes[n].keys| + 1
    requires !nodes[n].isLeaf
    requires ChainOk(nodes, s) && LeavesParallel(nodes, s.chain)
    requires NoDuplicates(Buckets(ChainSlots(nodes, s.chain)))
    requires forall k :: 0 <= k < |s.chain| ==> nodes[s.chain[k]].isLeaf
    requires forall g :: 0 <= g < |ChainSlots(nodes, s.chain)| ==>
      ChainSlots(nodes, s.chain)[g].bucket < |nodes| && ChainSlots(nodes, s.chain)[g].bucket !in s.info
    requires SplitInternalRel(nodes, s, n, nodes', s')
    ensures ChainOk(nodes', s')
    ensures LeavesParallel(nodes', s'.chain)
    ensures SameEntries(nodes, nodes', s.chain, s'.chain)
    ensures NoDuplicates(Buckets(ChainSlots(nodes', s'.chain)))
  {
    ChainKept(nodes, s, nodes', s');
    ChainUntouched(nodes, nodes', s);
  }
}
