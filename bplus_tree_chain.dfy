/**
 * The leaf chain read as one sequence of slots (key, bucket), and what the
 * tree invariant says about it: the keys along the chain never decrease,
 * the half-open intervals `(lo, hi]` of the leaves do not overlap, and only
 * the first leaf is unbounded below.
 */
module BPlusTreeChain {
  import opened Common
  import opened BPlusTreeShape

  lemma LeavesParallelAppend(nodes: seq<Node>, a: seq<nat>, b: seq<nat>)
    requires LeavesParallel(nodes, a) && LeavesParallel(nodes, b)
    ensures LeavesParallel(nodes, a + b)
  {
    forall j | 0 <= j < |a + b|
      ensures (a + b)[j] < |nodes| && |nodes[(a + b)[j]].keys| == |nodes[(a + b)[j]].children|
    {
      if j >= |a| {
        assert (a + b)[j] == b[j - |a|];
      }
    }
  }

  lemma {:induction false} ChainSlotsAppend(nodes: seq<Node>, a: seq<nat>, b: seq<nat>)
    requires LeavesParallel(nodes, a) && LeavesParallel(nodes, b)
    ensures LeavesParallel(nodes, a + b)
    ensures ChainSlots(nodes, a + b) == ChainSlots(nodes, a) + ChainSlots(nodes, b)
    decreases |b|
  {
    LeavesParallelAppend(nodes, a, b);
    if b != [] {
      var b' := b[..|b| - 1];
      assert LeavesParallel(nodes, b') by {
        assert forall i :: 0 <= i < |b'| ==> b'[i] == b[i];
      }
      ChainSlotsAppend(nodes, a, b');
      assert (a + b)[..|a + b| - 1] == a + b';
      assert Last(a + b) == Last(b);
      assert ChainSlots(nodes, a + b) == ChainSlots(nodes, a + b') + LeafSlots(nodes[Last(b)]);
      assert ChainSlots(nodes, b) == ChainSlots(nodes, b') + LeafSlots(nodes[Last(b)]);
    } else {
      assert a + b == a;
    }
  }

  lemma ChainSlotsSingle(nodes: seq<Node>, n: nat)
    requires n < |nodes| && |nodes[n].keys| == |nodes[n].children|
    ensures LeavesParallel(nodes, [n])
    ensures ChainSlots(nodes, [n]) == LeafSlots(nodes[n])
  {
    assert [n][..0] == [];
  }

  /** Leaves whose slots did not change contribute the same slots. */
  lemma {:induction false} ChainSlotsFrame(nodes: seq<Node>, nodes': seq<Node>, chain: seq<nat>)
    requires LeavesParallel(nodes, chain) && LeavesParallel(nodes', chain)
    requires forall j :: 0 <= j < |chain| ==> LeafSlots(nodes'[chain[j]]) == LeafSlots(nodes[chain[j]])
    ensures ChainSlots(nodes', chain) == ChainSlots(nodes, chain)
    decreases |chain|
  {
    if chain != [] {
      var c := chain[..|chain| - 1];
      assert LeavesParallel(nodes, c) && LeavesParallel(nodes', c);
      assert forall j :: 0 <= j < |c| ==> c[j] == chain[j];
      ChainSlotsFrame(nodes, nodes', c);
    }
  }

  /** Splitting the chain at leaf `j`. */
  lemma ChainSlotsAt(nodes: seq<Node>, chain: seq<nat>, j: nat)
    requires LeavesParallel(nodes, chain) && j < |chain|
    ensures LeavesParallel(nodes, chain[..j]) && LeavesParallel(nodes, chain[j + 1..])
    ensures ChainSlots(nodes, chain) ==
      ChainSlots(nodes, chain[..j]) + LeafSlots(nodes[chain[j]]) + ChainSlots(nodes, chain[j + 1..])
  {
    assert chain == chain[..j] + [chain[j]] + chain[j + 1..];
    assert LeavesParallel(nodes, chain[..j]) by {
      assert forall i :: 0 <= i < j ==> chain[..j][i] == chain[i];
    }
    var rest := chain[j + 1..];
    assert LeavesParallel(nodes, rest) by {
      forall i | 0 <= i < |rest|
        ensures rest[i] < |nodes| && |nodes[rest[i]].keys| == |nodes[rest[i]].children|
      {
        assert rest[i] == chain[j + 1 + i];
      }
    }
    ChainSlotsAppend(nodes, chain[..j], [chain[j]]);
    ChainSlotsAppend(nodes, chain[..j] + [chain[j]], chain[j + 1..]);
    ChainSlotsSingle(nodes, chain[j]);
  }

  /** Slot `i` of leaf `chain[j]` sits at `|ChainSlots(nodes, chain[..j])| + i` of the whole chain. */
  lemma SlotInChain(nodes: seq<Node>, chain: seq<nat>, j: nat, i: nat)
    requires LeavesParallel(nodes, chain) && j < |chain| && i < |nodes[chain[j]].keys|
    ensures LeavesParallel(nodes, chain[..j])
    ensures |ChainSlots(nodes, chain[..j])| + i < |ChainSlots(nodes, chain)|
    ensures ChainSlots(nodes, chain)[|ChainSlots(nodes, chain[..j])| + i] ==
      Slot(nodes[chain[j]].keys[i], nodes[chain[j]].children[i])
  {
    ChainSlotsAt(nodes, chain, j);
  }

  /** Every slot of the chain comes from some slot of some leaf. */
  lemma {:induction false} SlotFromChain(nodes: seq<Node>, chain: seq<nat>, g: nat)
    returns (j: nat, i: nat)
    requires LeavesParallel(nodes, chain) && g < |ChainSlots(nodes, chain)|
    ensures j < |chain| && i < |nodes[chain[j]].keys|
    ensures LeavesParallel(nodes, chain[..j])
    ensures g == |ChainSlots(nodes, chain[..j])| + i
    ensures ChainSlots(nodes, chain)[g] == Slot(nodes[chain[j]].keys[i], nodes[chain[j]].children[i])
    decreases |chain|
  {
    var c := chain[..|chain| - 1];
    assert LeavesParallel(nodes, c);
    if g < |ChainSlots(nodes, c)| {
      j, i := SlotFromChain(nodes, c, g);
      assert c[..j] == chain[..j];
    } else {
      j := |chain| - 1;
      i := g - |ChainSlots(nodes, c)|;
      assert chain[..j] == c;
    }
  }

  /** The leaves' intervals are proper and each ends where the next begins. */
  ghost predicate ChainIntervals(s: Shape)
  {
    && (forall i :: 0 <= i < |s.chain| ==>
          s.chain[i] in s.info && BoundLe(s.info[s.chain[i]].lo, s.info[s.chain[i]].hi))
    && (forall i :: 0 <= i < |s.chain| - 1 ==> s.info[s.chain[i]].hi == s.info[s.chain[i + 1]].lo)
  }

  lemma {:induction false} IntervalsOrdered(s: Shape, j: nat, k: nat)
    requires ChainIntervals(s) && j < k < |s.chain|
    ensures BoundLe(s.info[s.chain[j]].hi, s.info[s.chain[k]].lo)
    decreases k - j
  {
    if j + 1 < k {
      IntervalsOrdered(s, j + 1, k);
    }
  }

  /** Along the chain, the upper end of an earlier leaf is at most the lower end of a later one. */
  lemma ChainOrdered(nodes: seq<Node>, root: nat, s: Shape, order: nat, ph: Phase, j: nat, k: nat)
    requires Inv(nodes, root, s, order, ph)
    requires j < k < |s.chain|
    ensures BoundLe(s.info[s.chain[j]].hi, s.info[s.chain[k]].lo)
  {
    assert ChainIntervals(s);
    IntervalsOrdered(s, j, k);
  }

  /** The leaf intervals `(lo, hi]` of different chain leaves are disjoint. */
  lemma LeavesDisjoint(nodes: seq<Node>, root: nat, s: Shape, order: nat, ph: Phase,
                       j: nat, k: nat, key: int)
    requires Inv(nodes, root, s, order, ph)
    requires j < |s.chain| && k < |s.chain|
    requires Above(s.info[s.chain[j]].lo, key) && AtMost(key, s.info[s.chain[j]].hi)
    requires Above(s.info[s.chain[k]].lo, key) && AtMost(key, s.info[s.chain[k]].hi)
    ensures j == k
  {
    if j < k {
      ChainOrdered(nodes, root, s, order, ph, j, k);
    } else if k < j {
      ChainOrdered(nodes, root, s, order, ph, k, j);
    }
  }

  /** A leaf unbounded below is the first leaf of the chain. */
  lemma FirstLeaf(nodes: seq<Node>, root: nat, s: Shape, order: nat, ph: Phase, n: nat)
    requires Inv(nodes, root, s, order, ph)
    requires n in s.info && s.info[n].level == 0 && s.info[n].lo == NegInf
    ensures n == s.chain[0]
  {
    LaterLeavesBounded(nodes, root, s, order, ph);
  }

  /** Every leaf after the first has a finite lower end. */
  lemma LaterLeavesBounded(nodes: seq<Node>, root: nat, s: Shape, order: nat, ph: Phase)
    requires Inv(nodes, root, s, order, ph)
    ensures forall k :: 0 < k < |s.chain| ==> s.info[s.chain[k]].lo != NegInf
  {
    forall k | 0 < k < |s.chain|
      ensures s.info[s.chain[k]].lo != NegInf
    {
      assert s.info[s.chain[k - 1]].hi == s.info[s.chain[k]].lo;
    }
  }

  /** Keys of earlier leaves are at most the lower end of a later leaf. */
  lemma KeyBeforeLeaf(nodes: seq<Node>, root: nat, s: Shape, order: nat, ph: Phase,
                      j: nat, k: nat, key: int)
    requires Inv(nodes, root, s, order, ph)
    requires j < k < |s.chain| && key in nodes[s.chain[j]].keys
    ensures AtMost(key, s.info[s.chain[k]].lo)
  {
    ChainOrdered(nodes, root, s, order, ph, j, k);
    assert LeafOk(nodes, s, order, ph, s.chain[j]);
  }

  /** The keys read along the chain never decrease. */
  lemma ChainSorted(nodes: seq<Node>, root: nat, s: Shape, order: nat, ph: Phase)
    requires Inv(nodes, root, s, order, ph)
    ensures NonDecreasing(SlotKeys(ChainSlots(nodes, s.chain)))
  {
    var ks := SlotKeys(ChainSlots(nodes, s.chain));
    forall g, h | 0 <= g < h < |ks|
      ensures ks[g] <= ks[h]
    {
      SlotsOrdered(nodes, root, s, order, ph, g, h);
    }
  }

  lemma SlotsOrdered(nodes: seq<Node>, root: nat, s: Shape, order: nat, ph: Phase, g: nat, h: nat)
    requires Inv(nodes, root, s, order, ph)
    requires g < h < |ChainSlots(nodes, s.chain)|
    ensures ChainSlots(nodes, s.chain)[g].key <= ChainSlots(nodes, s.chain)[h].key
  {
    var j, i := SlotFromChain(nodes, s.chain, g);
    var k, m := SlotFromChain(nodes, s.chain, h);
    var a, b := s.chain[j], s.chain[k];
    if j < k {
      KeyBeforeLeaf(nodes, root, s, order, ph, j, k, nodes[a].keys[i]);
      assert LeafOk(nodes, s, order, ph, b);
      assert nodes[b].keys[m] in nodes[b].keys;
    } else if j == k {
      assert LeafOk(nodes, s, order, ph, a);
    } else {
      ChainPrefixGrows(nodes, s.chain, k, j);
    }
  }

  /** A longer prefix of the chain holds at least the slots of leaf `k` more. */
  lemma ChainPrefixGrows(nodes: seq<Node>, chain: seq<nat>, k: nat, j: nat)
    requires LeavesParallel(nodes, chain) && k < j <= |chain|
    ensures LeavesParallel(nodes, chain[..k]) && LeavesParallel(nodes, chain[..j])
    ensures |ChainSlots(nodes, chain[..k])| + |nodes[chain[k]].keys| <= |ChainSlots(nodes, chain[..j])|
  {
    var pre := chain[..j];
    assert LeavesParallel(nodes, pre) by {
      assert forall i :: 0 <= i < j ==> pre[i] == chain[i];
    }
    ChainSlotsAt(nodes, pre, k);
    assert pre[..k] == chain[..k];
    assert pre[k] == chain[k];
  }
}
