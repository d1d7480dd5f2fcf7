/**
 * The two ways `insert` changes the leaf it reached: a key the leaf already
 * holds gets the row id appended to its bucket; a new key is inserted at
 * its position together with a fresh bucket holding just the row id.
 */
module BPlusTreeLeafInsert {
  import opened Common
  import opened BPlusTreeShape
  import opened BPlusTreeChain
  import opened BPlusTreeEntries

  // ----- a new key -----

  /**
   * The arena after inserting the new `key` at `pos` of `leaf`: the key, the
   * row id and the id of a fresh bucket node (appended to the arena) enter
   * the three lists at `pos`.
   */
  ghost predicate InsertNewRel(nodes: seq<Node>, leaf: nat, pos: nat, key: int, rowId: int, nodes': seq<Node>)
    requires leaf < |nodes|
    requires pos <= |nodes[leaf].keys| == |nodes[leaf].values| == |nodes[leaf].children|
  {
    var l := nodes[leaf];
    var nb := |nodes|;
    && |nodes'| == |nodes| + 1
    && (forall m :: 0 <= m < |nodes| && m != leaf ==> nodes'[m] == nodes[m])
    && nodes'[leaf] == l.(keys := InsertAt(l.keys, pos, key), values := InsertAt(l.values, pos, rowId),
                          children := InsertAt(l.children, pos, nb))
    && nodes'[nb] == Node(true, [], [rowId], [], None)
  }

  /** The new-key phase: a leaf that reached `order` keys is about to be split. */
  function AfterNewKey(nodes: seq<Node>, leaf: nat, order: nat): Phase
    requires leaf < |nodes|
  {
    if |nodes[leaf].keys| + 1 < order then Settled else FullLeaf(leaf)
  }

  ghost predicate InsertNewBase(nodes: seq<Node>, root: nat, s: Shape, order: nat, leaf: nat, pos: nat,
                                key: int, rowId: int, nodes': seq<Node>)
  {
    && order >= 2
    && Framed(nodes, root, s)
    && leaf in s.info && s.info[leaf].level == 0
    && LeafOk(nodes, s, order, Settled, leaf)
    && Above(s.info[leaf].lo, key) && AtMost(key, s.info[leaf].hi)
    && IsPosition(nodes[leaf].keys, key, pos)
    && (pos == |nodes[leaf].keys| || nodes[leaf].keys[pos] != key)
    && InsertNewRel(nodes, leaf, pos, key, rowId, nodes')
  }

  lemma InsertNewFramed(nodes: seq<Node>, root: nat, s: Shape, order: nat, leaf: nat, pos: nat,
                        key: int, rowId: int, nodes': seq<Node>)
    requires InsertNewBase(nodes, root, s, order, leaf, pos, key, rowId, nodes')
    ensures Framed(nodes', root, s)
  {
  }

  /** The leaf stays strictly ascending inside its interval. */
  lemma InsertNewLeafOk(nodes: seq<Node>, root: nat, s: Shape, order: nat, leaf: nat, pos: nat,
                        key: int, rowId: int, nodes': seq<Node>)
    requires InsertNewBase(nodes, root, s, order, leaf, pos, key, rowId, nodes')
    requires Framed(nodes', root, s)
    ensures LeafOk(nodes', s, order, AfterNewKey(nodes, leaf, order), leaf)
  {
    var l, l' := nodes[leaf], nodes'[leaf];
    assert LeafOk(nodes, s, order, Settled, leaf);
    forall i, k | 0 <= i < k < |l'.keys|
      ensures l'.keys[i] < l'.keys[k]
    {
      if k < pos {
      } else if k == pos {
        assert l'.keys[i] == l.keys[i];
      } else if i < pos {
        assert l'.keys[i] == l.keys[i] && l'.keys[k] == l.keys[k - 1];
        assert l.keys[pos] > key;
      } else if i == pos {
        assert l.keys[pos] > key;
        assert l'.keys[k] == l.keys[k - 1];
      } else {
        assert l'.keys[i] == l.keys[i - 1] && l'.keys[k] == l.keys[k - 1];
      }
    }
    forall k | k in l'.keys
      ensures AtOrAbove(s.info[leaf].lo, k) && AtMost(k, s.info[leaf].hi)
    {
      var i :| 0 <= i < |l'.keys| && l'.keys[i] == k;
      if i < pos {
        assert l.keys[i] in l.keys;
      } else if i > pos {
        assert l.keys[i - 1] in l.keys;
      }
    }
    forall b | b in l'.children
      ensures b < |nodes'| && b !in s.info
    {
      var i :| 0 <= i < |l'.children| && l'.children[i] == b;
      if i < pos {
        assert l.children[i] in l.children;
      } else if i > pos {
        assert l.children[i - 1] in l.children;
      }
    }
  }

  lemma InsertNewLeaves(nodes: seq<Node>, root: nat, s: Shape, order: nat, leaf: nat, pos: nat,
                        key: int, rowId: int, nodes': seq<Node>)
    requires InsertNewBase(nodes, root, s, order, leaf, pos, key, rowId, nodes')
    requires forall n :: n in s.info && s.info[n].level == 0 ==> LeafOk(nodes, s, order, Settled, n)
    requires Framed(nodes', root, s)
    ensures forall n :: n in s.info && s.info[n].level == 0 ==>
      LeafOk(nodes', s, order, AfterNewKey(nodes, leaf, order), n)
  {
    forall n | n in s.info && s.info[n].level == 0
      ensures LeafOk(nodes', s, order, AfterNewKey(nodes, leaf, order), n)
    {
      if n == leaf {
        InsertNewLeafOk(nodes, root, s, order, leaf, pos, key, rowId, nodes');
      } else {
        assert LeafOk(nodes, s, order, Settled, n);
        assert nodes'[n] == nodes[n];
      }
    }
  }

  lemma InsertNewInternals(nodes: seq<Node>, root: nat, s: Shape, order: nat, leaf: nat, pos: nat,
                           key: int, rowId: int, nodes': seq<Node>)
    requires InsertNewBase(nodes, root, s, order, leaf, pos, key, rowId, nodes')
    requires forall n :: n in s.info && s.info[n].level > 0 ==> InternalOk(nodes, s, order, Settled, n)
    requires Framed(nodes', root, s)
    ensures forall n :: n in s.info && s.info[n].level > 0 ==>
      InternalOk(nodes', s, order, AfterNewKey(nodes, leaf, order), n)
  {
    var ph := AfterNewKey(nodes, leaf, order);
    forall n | n in s.info && s.info[n].level > 0
      ensures InternalOk(nodes', s, order, ph, n)
    {
      assert InternalOk(nodes, s, order, Settled, n);
      assert nodes'[n] == nodes[n];
      forall i | 0 <= i < |nodes'[n].children|
        ensures ChildOk(nodes', s, ph, n, i)
      {
        assert ChildOk(nodes, s, Settled, n, i);
      }
    }
  }

  lemma InsertNewLinks(nodes: seq<Node>, root: nat, s: Shape, order: nat, leaf: nat, pos: nat,
                       key: int, rowId: int, nodes': seq<Node>)
    requires InsertNewBase(nodes, root, s, order, leaf, pos, key, rowId, nodes')
    requires ParentsOk(nodes, root, s, Settled) && RootOk(root, s, Settled)
    requires Framed(nodes', root, s)
    ensures ParentsOk(nodes', root, s, AfterNewKey(nodes, leaf, order))
    ensures PromoteOk(nodes', root, s, order, AfterNewKey(nodes, leaf, order))
    ensures RootOk(root, s, AfterNewKey(nodes, leaf, order))
  {
    forall c | c in s.info && c != root
      ensures s.info[c].up in s.info && c in nodes'[s.info[c].up].children && !nodes'[s.info[c].up].isLeaf
    {
      assert s.info[c].up != leaf;
    }
  }

  /** A new key in a leaf leaves the `next` links of the chain as they were. */
  lemma InsertNewNext(nodes: seq<Node>, root: nat, s: Shape, order: nat, leaf: nat, pos: nat,
                       key: int, rowId: int, nodes': seq<Node>)
    requires InsertNewBase(nodes, root, s, order, leaf, pos, key, rowId, nodes')
    requires ChainOk(nodes, s)
    requires Framed(nodes', root, s)
    ensures ChainOk(nodes', s)
  {
    var c := s.chain;
    assert nodes'[Last(c)].next == nodes[Last(c)].next;
    forall k | 0 <= k < |c| - 1
      ensures nodes'[c[k]].next == Some(c[k + 1])
    {
      assert nodes'[c[k]].next == nodes[c[k]].next;
    }
  }

  /** The chain's slots gain the new key's slot, in the leaf's position. */
  lemma InsertNewSlots(nodes: seq<Node>, root: nat, s: Shape, order: nat, leaf: nat, pos: nat,
                       key: int, rowId: int, nodes': seq<Node>, j: nat)
    requires InsertNewBase(nodes, root, s, order, leaf, pos, key, rowId, nodes')
    requires LeavesParallel(nodes, s.chain)
    requires j < |s.chain| && s.chain[j] == leaf
    requires forall k, m :: 0 <= k < m < |s.chain| ==> s.chain[k] != s.chain[m]
    ensures LeavesParallel(nodes, s.chain[..j])
    ensures |ChainSlots(nodes, s.chain[..j])| + pos <= |ChainSlots(nodes, s.chain)|
    ensures LeavesParallel(nodes', s.chain)
    ensures ChainSlots(nodes', s.chain) ==
      InsertAt(ChainSlots(nodes, s.chain), |ChainSlots(nodes, s.chain[..j])| + pos, Slot(key, |nodes|))
  {
    InsertNewLeafSlots(nodes, leaf, pos, key, rowId, nodes');
    ChainSlotsInsert(nodes, nodes', s.chain, j, leaf, pos, Slot(key, |nodes|));
  }

  lemma InsertNewLeafSlots(nodes: seq<Node>, leaf: nat, pos: nat, key: int, rowId: int, nodes': seq<Node>)
    requires leaf < |nodes|
    requires pos <= |nodes[leaf].keys| == |nodes[leaf].values| == |nodes[leaf].children|
    requires InsertNewRel(nodes, leaf, pos, key, rowId, nodes')
    ensures |nodes'[leaf].keys| == |nodes'[leaf].children|
    ensures LeafSlots(nodes'[leaf]) == InsertAt(LeafSlots(nodes[leaf]), pos, Slot(key, |nodes|))
  {
  }

  /** A leaf of the chain that gains slot `x` at `pos` makes the chain gain it at the matching place. */
  lemma ChainSlotsInsert(nodes: seq<Node>, nodes': seq<Node>, c: seq<nat>, j: nat, leaf: nat, pos: nat, x: Slot)
    requires j < |c| && c[j] == leaf && LeavesParallel(nodes, c)
    requires forall k, m :: 0 <= k < m < |c| ==> c[k] != c[m]
    requires |nodes'| > |nodes|
    requires forall m :: 0 <= m < |nodes| && m != leaf ==> nodes'[m] == nodes[m]
    requires pos <= |nodes[leaf].keys|
    requires |nodes'[leaf].keys| == |nodes'[leaf].children|
    requires LeafSlots(nodes'[leaf]) == InsertAt(LeafSlots(nodes[leaf]), pos, x)
    ensures LeavesParallel(nodes, c[..j])
    ensures |ChainSlots(nodes, c[..j])| + pos <= |ChainSlots(nodes, c)|
    ensures LeavesParallel(nodes', c)
    ensures ChainSlots(nodes', c) == InsertAt(ChainSlots(nodes, c), |ChainSlots(nodes, c[..j])| + pos, x)
  {
    ChainSlotsAt(nodes, c, j);
    var pre, post := c[..j], c[j + 1..];
    LeafApart(c, j);
    LeavesUntouchedByInsert(nodes, nodes', pre, leaf);
    LeavesUntouchedByInsert(nodes, nodes', post, leaf);
    LeavesParallelAfterInsert(nodes, nodes', c, leaf);
    ChainSlotsAt(nodes', c, j);
    InsertAtSplit(ChainSlots(nodes, pre), LeafSlots(nodes[leaf]), ChainSlots(nodes, post), pos, x);
  }

  lemma InsertAtSplit<T>(a: seq<T>, m: seq<T>, b: seq<T>, pos: nat, x: T)
    requires pos <= |m|
    ensures a + InsertAt(m, pos, x) + b == InsertAt(a + m + b, |a| + pos, x)
  {
    var l, r := a + InsertAt(m, pos, x) + b, InsertAt(a + m + b, |a| + pos, x);
    assert |l| == |r|;
    forall i | 0 <= i < |l|
      ensures l[i] == r[i]
    {
      if i < |a| {
      } else if i < |a| + |m| + 1 {
        assert l[i] == InsertAt(m, pos, x)[i - |a|];
      } else {
        assert l[i] == b[i - |a| - |m| - 1];
      }
    }
  }

  /** A leaf that occurs once in the chain is in neither the part before it nor the part after it. */
  lemma LeafApart(c: seq<nat>, j: nat)
    requires j < |c| && forall k, m :: 0 <= k < m < |c| ==> c[k] != c[m]
    ensures c[j] !in c[..j] && c[j] !in c[j + 1..]
  {
    var pre, post := c[..j], c[j + 1..];
    assert forall k :: 0 <= k < |pre| ==> pre[k] == c[k];
    assert forall k :: 0 <= k < |post| ==> post[k] == c[j + 1 + k];
  }

  /** Changing one leaf while keeping its keys and children parallel keeps the chain readable. */
  lemma LeavesParallelAfterInsert(nodes: seq<Node>, nodes': seq<Node>, c: seq<nat>, leaf: nat)
    requires LeavesParallel(nodes, c)
    requires |nodes'| > |nodes| && leaf < |nodes'|
    requires forall m :: 0 <= m < |nodes| && m != leaf ==> nodes'[m] == nodes[m]
    requires |nodes'[leaf].keys| == |nodes'[leaf].children|
    ensures LeavesParallel(nodes', c)
  {
    assert forall k :: 0 <= k < |c| && c[k] != leaf ==> nodes'[c[k]] == nodes[c[k]];
  }

  lemma LeavesUntouchedByInsert(nodes: seq<Node>, nodes': seq<Node>, c: seq<nat>, leaf: nat)
    requires LeavesParallel(nodes, c) && leaf !in c
    requires |nodes'| > |nodes|
    requires forall m :: 0 <= m < |nodes| && m != leaf ==> nodes'[m] == nodes[m]
    ensures LeavesParallel(nodes', c)
    ensures ChainSlots(nodes', c) == ChainSlots(nodes, c)
  {
    assert forall k :: 0 <= k < |c| ==> nodes'[c[k]] == nodes[c[k]];
    ChainSlotsFrame(nodes, nodes', c);
  }

  /** The fresh bucket is no bucket of the old chain, so the chain's buckets stay distinct. */
  lemma InsertNewBuckets(slots: seq<Slot>, g: nat, key: int, nb: nat)
    requires g <= |slots|
    requires NoDuplicates(Buckets(slots))
    requires forall i :: 0 <= i < |slots| ==> slots[i].bucket < nb
    ensures NoDuplicates(Buckets(InsertAt(slots, g, Slot(key, nb))))
  {
    var r := InsertAt(slots, g, Slot(key, nb));
    var bs := Buckets(r);
    forall i, k | 0 <= i < k < |bs|
      ensures bs[i] != bs[k]
    {
      if i == g {
        assert bs[k] == slots[k - 1].bucket;
      } else if k == g {
        assert bs[i] == slots[i].bucket;
      } else {
        var i0 := if i < g then i else i - 1;
        var k0 := if k < g then k else k - 1;
        assert bs[i] == Buckets(slots)[i0] && bs[k] == Buckets(slots)[k0];
      }
    }
  }

  /** What `insert` knows when it adds a new key to the leaf it reached. */
  ghost predicate InsertNewPre(nodes: seq<Node>, root: nat, s: Shape, order: nat, leaf: nat, pos: nat,
                               key: int, rowId: int, nodes': seq<Node>, j: nat)
  {
    && Inv(nodes, root, s, order, Settled)
    && leaf in s.info && s.info[leaf].level == 0
    && j < |s.chain| && s.chain[j] == leaf
    && Above(s.info[leaf].lo, key) && AtMost(key, s.info[leaf].hi)
    && IsPosition(nodes[leaf].keys, key, pos)
    && (pos == |nodes[leaf].keys| || nodes[leaf].keys[pos] != key)
    && |nodes[leaf].values| == |nodes[leaf].children| == |nodes[leaf].keys|
    && InsertNewRel(nodes, leaf, pos, key, rowId, nodes')
  }

  /** The chain's slots after a new key entered leaf `c[j]` at `pos` with the fresh bucket `|nodes|`. */
  ghost predicate NewKeySlots(nodes: seq<Node>, nodes': seq<Node>, c: seq<nat>, j: nat, pos: nat, key: int)
  {
    && LeavesParallel(nodes, c) && LeavesParallel(nodes', c)
    && j < |c| && LeavesParallel(nodes, c[..j])
    && |ChainSlots(nodes, c[..j])| + pos <= |ChainSlots(nodes, c)|
    && ChainSlots(nodes', c) == InsertAt(ChainSlots(nodes, c), |ChainSlots(nodes, c[..j])| + pos, Slot(key, |nodes|))
  }

  /** Reading the chain after the change gives the entries read before, plus `e`. */
  ghost predicate AddsEntry(nodes: seq<Node>, nodes': seq<Node>, c: seq<nat>, e: Entry)
  {
    && LeavesParallel(nodes, c) && LeavesParallel(nodes', c)
    && BucketsIn(nodes, ChainSlots(nodes, c)) && BucketsIn(nodes', ChainSlots(nodes', c))
    && multiset(Entries(nodes', ChainSlots(nodes', c))) == multiset(Entries(nodes, ChainSlots(nodes, c))) + multiset{e}
  }

  /**
   * Inserting a new key keeps the invariant (the leaf may now be full), adds
   * the key's slot to the chain and adds exactly the entry (key, rowId).
   */
  lemma InsertNewStep(nodes: seq<Node>, root: nat, s: Shape, order: nat, leaf: nat, pos: nat,
                      key: int, rowId: int, nodes': seq<Node>, j: nat)
    requires InsertNewPre(nodes, root, s, order, leaf, pos, key, rowId, nodes', j)
    ensures Inv(nodes', root, s, order, AfterNewKey(nodes, leaf, order))
    ensures NewKeySlots(nodes, nodes', s.chain, j, pos, key)
    ensures AddsEntry(nodes, nodes', s.chain, Entry(key, rowId))
  {
    InsertNewInv(nodes, root, s, order, leaf, pos, key, rowId, nodes', j);
    InvIdsLeaf(nodes, root, s, order, Settled);
    InsertNewAdds(nodes, nodes', s.chain, j, pos, leaf, key, rowId);
  }

  lemma InsertNewAdds(nodes: seq<Node>, nodes': seq<Node>, c: seq<nat>, j: nat, pos: nat,
                      leaf: nat, key: int, rowId: int)
    requires NewKeySlots(nodes, nodes', c, j, pos, key)
    requires forall g :: 0 <= g < |ChainSlots(nodes, c)| ==>
      ChainSlots(nodes, c)[g].bucket < |nodes| && ChainSlots(nodes, c)[g].bucket != leaf
    requires |nodes'| == |nodes| + 1 && nodes'[|nodes|].values == [rowId]
    requires forall m :: 0 <= m < |nodes| && m != leaf ==> nodes'[m] == nodes[m]
    ensures AddsEntry(nodes, nodes', c, Entry(key, rowId))
  {
    var cs := ChainSlots(nodes, c);
    var g := |ChainSlots(nodes, c[..j])| + pos;
    assert BucketsIn(nodes, cs);
    assert forall i :: 0 <= i < |cs| ==> nodes'[cs[i].bucket].values == nodes[cs[i].bucket].values;
    EntriesInsertSlot(nodes, nodes', cs, g, key, rowId);
    assert ChainSlots(nodes', c) == InsertAt(cs, g, Slot(key, |nodes|));
  }

  lemma InsertNewInv(nodes: seq<Node>, root: nat, s: Shape, order: nat, leaf: nat, pos: nat,
                     key: int, rowId: int, nodes': seq<Node>, j: nat)
    requires InsertNewPre(nodes, root, s, order, leaf, pos, key, rowId, nodes', j)
    ensures Inv(nodes', root, s, order, AfterNewKey(nodes, leaf, order))
    ensures NewKeySlots(nodes, nodes', s.chain, j, pos, key)
  {
    InsertNewShape(nodes, root, s, order, leaf, pos, key, rowId, nodes', j);
    InvIdsLeaf(nodes, root, s, order, Settled);
    InsertNewChain(nodes, s.chain, leaf, pos, key, rowId, nodes', j);
  }

  lemma InsertNewShape(nodes: seq<Node>, root: nat, s: Shape, order: nat, leaf: nat, pos: nat,
                       key: int, rowId: int, nodes': seq<Node>, j: nat)
    requires InsertNewPre(nodes, root, s, order, leaf, pos, key, rowId, nodes', j)
    ensures Framed(nodes', root, s)
    ensures RootOk(root, s, AfterNewKey(nodes, leaf, order))
    ensures forall n :: n in s.info && s.info[n].level == 0 ==>
      LeafOk(nodes', s, order, AfterNewKey(nodes, leaf, order), n)
    ensures forall n :: n in s.info && s.info[n].level > 0 ==>
      InternalOk(nodes', s, order, AfterNewKey(nodes, leaf, order), n)
    ensures ParentsOk(nodes', root, s, AfterNewKey(nodes, leaf, order))
    ensures PromoteOk(nodes', root, s, order, AfterNewKey(nodes, leaf, order))
    ensures ChainOk(nodes', s)
  {
    assert LeafOk(nodes, s, order, Settled, leaf);
    assert InsertNewBase(nodes, root, s, order, leaf, pos, key, rowId, nodes');
    InsertNewFramed(nodes, root, s, order, leaf, pos, key, rowId, nodes');
    InsertNewLeaves(nodes, root, s, order, leaf, pos, key, rowId, nodes');
    InsertNewInternals(nodes, root, s, order, leaf, pos, key, rowId, nodes');
    InsertNewLinks(nodes, root, s, order, leaf, pos, key, rowId, nodes');
    InsertNewNext(nodes, root, s, order, leaf, pos, key, rowId, nodes');
  }

  lemma InsertNewChain(nodes: seq<Node>, c: seq<nat>, leaf: nat, pos: nat,
                       key: int, rowId: int, nodes': seq<Node>, j: nat)
    requires j < |c| && c[j] == leaf && LeavesParallel(nodes, c)
    requires forall k, m :: 0 <= k < m < |c| ==> c[k] != c[m]
    requires pos <= |nodes[leaf].keys| == |nodes[leaf].values| == |nodes[leaf].children|
    requires InsertNewRel(nodes, leaf, pos, key, rowId, nodes')
    requires NoDuplicates(Buckets(ChainSlots(nodes, c)))
    requires forall g :: 0 <= g < |ChainSlots(nodes, c)| ==> ChainSlots(nodes, c)[g].bucket < |nodes|
    ensures NewKeySlots(nodes, nodes', c, j, pos, key)
    ensures LeavesParallel(nodes', c) && NoDuplicates(Buckets(ChainSlots(nodes', c)))
  {
    InsertNewLeafSlots(nodes, leaf, pos, key, rowId, nodes');
    ChainSlotsInsert(nodes, nodes', c, j, leaf, pos, Slot(key, |nodes|));
    ChainBucketsAfterInsert(nodes, nodes', c, j, pos, key);
  }

  lemma ChainBucketsAfterInsert(nodes: seq<Node>, nodes': seq<Node>, c: seq<nat>, j: nat, pos: nat, key: int)
    requires LeavesParallel(nodes, c) && j < |c| && LeavesParallel(nodes, c[..j])
    requires |ChainSlots(nodes, c[..j])| + pos <= |ChainSlots(nodes, c)|
    requires NoDuplicates(Buckets(ChainSlots(nodes, c)))
    requires forall g :: 0 <= g < |ChainSlots(nodes, c)| ==> ChainSlots(nodes, c)[g].bucket < |nodes|
    requires LeavesParallel(nodes', c)
    requires ChainSlots(nodes', c) == InsertAt(ChainSlots(nodes, c), |ChainSlots(nodes, c[..j])| + pos, Slot(key, |nodes|))
    ensures NoDuplicates(Buckets(ChainSlots(nodes', c)))
  {
    InsertNewBuckets(ChainSlots(nodes, c), |ChainSlots(nodes, c[..j])| + pos, key, |nodes|);
  }

  /** Bucket ids along the chain name bucket nodes, never tree nodes. */
  lemma InvIdsLeaf(nodes: seq<Node>, root: nat, s: Shape, order: nat, ph: Phase)
    requires Inv(nodes, root, s, order, ph)
    ensures forall g :: 0 <= g < |ChainSlots(nodes, s.chain)| ==>
      ChainSlots(nodes, s.chain)[g].bucket < |nodes| && ChainSlots(nodes, s.chain)[g].bucket !in s.info
  {
    forall g | 0 <= g < |ChainSlots(nodes, s.chain)|
      ensures ChainSlots(nodes, s.chain)[g].bucket < |nodes| && ChainSlots(nodes, s.chain)[g].bucket !in s.info
    {
      var j, i := SlotFromChain(nodes, s.chain, g);
      assert LeafOk(nodes, s, order, ph, s.chain[j]);
      assert nodes[s.chain[j]].children[i] in nodes[s.chain[j]].children;
    }
  }

  // ----- a key the leaf already holds -----

  /** The arena after appending `rowId` to bucket node `b`. */
  ghost predicate AppendRowRel(nodes: seq<Node>, b: nat, rowId: int, nodes': seq<Node>)
    requires b < |nodes|
  {
    && |nodes'| == |nodes|
    && (forall m :: 0 <= m < |nodes| && m != b ==> nodes'[m] == nodes[m])
    && nodes'[b] == nodes[b].(values := nodes[b].values + [rowId])
  }

  /** `rowId` went to the end of the bucket of a slot of `chain` that holds `key`, and nowhere else. */
  ghost predicate AppendsToSlot(nodes: seq<Node>, chain: seq<nat>, key: int, rowId: int, nodes': seq<Node>)
  {
    && LeavesParallel(nodes, chain)
    && exists b: nat :: b < |nodes| && Slot(key, b) in ChainSlots(nodes, chain) && AppendRowRel(nodes, b, rowId, nodes')
  }

  /** An arena that agrees with `nodes` on every tree node keeps the invariant and the chain's slots. */
  lemma TreeFrame(nodes: seq<Node>, root: nat, s: Shape, order: nat, ph: Phase, nodes': seq<Node>)
    requires Inv(nodes, root, s, order, ph)
    requires |nodes'| == |nodes|
    requires forall n :: n in s.info ==> nodes'[n] == nodes[n]
    ensures Inv(nodes', root, s, order, ph)
    ensures ChainSlots(nodes', s.chain) == ChainSlots(nodes, s.chain)
  {
    forall n | n in s.info && s.info[n].level == 0
      ensures LeafOk(nodes', s, order, ph, n)
    {
      assert LeafOk(nodes, s, order, ph, n);
    }
    forall n | n in s.info && s.info[n].level > 0
      ensures InternalOk(nodes', s, order, ph, n)
    {
      assert InternalOk(nodes, s, order, ph, n);
      forall i | 0 <= i < |nodes'[n].children|
        ensures ChildOk(nodes', s, ph, n, i)
      {
        assert ChildOk(nodes, s, ph, n, i);
      }
    }
    var c := s.chain;
    assert forall k :: 0 <= k < |c| ==> c[k] in s.info;
    ChainSlotsFrame(nodes, nodes', c);
  }

  /**
   * Appending `rowId` to the bucket of the key at `pos`, which the leaf
   * already holds, changes no tree node, keeps the chain's slots and adds
   * exactly the entry (key, rowId).
   */
  lemma AppendRowStep(nodes: seq<Node>, root: nat, s: Shape, order: nat, leaf: nat, pos: nat,
                      key: int, rowId: int, nodes': seq<Node>, j: nat)
    requires Inv(nodes, root, s, order, Settled)
    requires leaf in s.info && s.info[leaf].level == 0
    requires j < |s.chain| && s.chain[j] == leaf
    requires pos < |nodes[leaf].keys| == |nodes[leaf].children| && nodes[leaf].keys[pos] == key
    requires nodes[leaf].children[pos] < |nodes|
    requires AppendRowRel(nodes, nodes[leaf].children[pos], rowId, nodes')
    ensures Inv(nodes', root, s, order, Settled)
    ensures nodes'[leaf] == nodes[leaf]
    ensures ChainSlots(nodes', s.chain) == ChainSlots(nodes, s.chain)
    ensures AddsEntry(nodes, nodes', s.chain, Entry(key, rowId))
  {
    var b := nodes[leaf].children[pos];
    assert LeafOk(nodes, s, order, Settled, leaf);
    assert b in nodes[leaf].children;
    TreeFrame(nodes, root, s, order, Settled, nodes');
    InvIdsLeaf(nodes, root, s, order, Settled);
    assert BucketsIn(nodes, ChainSlots(nodes, s.chain));
    AppendRowAdds(nodes, nodes', s.chain, j, pos, rowId);
  }

  lemma AppendRowAdds(nodes: seq<Node>, nodes': seq<Node>, c: seq<nat>, j: nat, pos: nat, rowId: int)
    requires LeavesParallel(nodes, c) && j < |c|
    requires pos < |nodes[c[j]].keys|
    requires nodes[c[j]].children[pos] < |nodes|
    requires AppendRowRel(nodes, nodes[c[j]].children[pos], rowId, nodes')
    requires LeavesParallel(nodes', c) && ChainSlots(nodes', c) == ChainSlots(nodes, c)
    requires NoDuplicates(Buckets(ChainSlots(nodes, c)))
    requires BucketsIn(nodes, ChainSlots(nodes, c))
    ensures AddsEntry(nodes, nodes', c, Entry(nodes[c[j]].keys[pos], rowId))
  {
    var slots := ChainSlots(nodes, c);
    SlotInChain(nodes, c, j, pos);
    var g := |ChainSlots(nodes, c[..j])| + pos;
    var e := Entry(nodes[c[j]].keys[pos], rowId);
    AppendRowSlots(nodes, nodes', slots, g, e.key, nodes[c[j]].children[pos], rowId);
    AddsEntryFromSlots(nodes, nodes', c, e);
  }

  /** Appending to the bucket of slot `g`, which no other slot shares, adds one entry. */
  /** Adding an entry without changing the chain's slots. */
  lemma AddsEntryFromSlots(nodes: seq<Node>, nodes': seq<Node>, c: seq<nat>, e: Entry)
    requires LeavesParallel(nodes, c) && LeavesParallel(nodes', c) && ChainSlots(nodes', c) == ChainSlots(nodes, c)
    requires BucketsIn(nodes, ChainSlots(nodes, c)) && BucketsIn(nodes', ChainSlots(nodes, c))
    requires multiset(Entries(nodes', ChainSlots(nodes, c))) == multiset(Entries(nodes, ChainSlots(nodes, c))) + multiset{e}
    ensures AddsEntry(nodes, nodes', c, e)
  {
  }

  lemma AppendRowSlots(nodes: seq<Node>, nodes': seq<Node>, slots: seq<Slot>, g: nat, key: int, b: nat, rowId: int)
    requires BucketsIn(nodes, slots) && g < |slots| && slots[g] == Slot(key, b)
    requires NoDuplicates(Buckets(slots))
    requires b < |nodes| && AppendRowRel(nodes, b, rowId, nodes')
    ensures BucketsIn(nodes', slots)
    ensures multiset(Entries(nodes', slots)) == multiset(Entries(nodes, slots)) + multiset{Entry(key, rowId)}
  {
    forall i | 0 <= i < |slots| && i != g
      ensures slots[i].bucket != slots[g].bucket
    {
      assert Buckets(slots)[i] != Buckets(slots)[g];
    }
    EntriesAppendRow(nodes, nodes', slots, g, rowId);
  }
}
