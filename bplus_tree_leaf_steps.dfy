/**
 * The steps of an insertion that touch a leaf: appending a row id to the
 * bucket of a key the leaf already holds, inserting a new key with a fresh
 * bucket, and splitting a leaf that reached `order` keys. Each lemma takes
 * the tree invariant in one phase to the invariant in the next and says how
 * the chain's slots change.
 */
module BPlusTreeLeafSteps {
  import opened Common
  import opened BPlusTreeShape
  import opened BPlusTreeChain

  /** Facts every phase of the invariant gives about arena ids. */
  lemma InvIds(nodes: seq<Node>, root: nat, s: Shape, order: nat, ph: Phase)
    requires Inv(nodes, root, s, order, ph)
    ensures forall n, c :: n in s.info && !nodes[n].isLeaf && c in nodes[n].children ==> c in s.info
    ensures forall n, b :: n in s.info && nodes[n].isLeaf && b in nodes[n].children ==>
      b < |nodes| && b !in s.info
    ensures forall g :: 0 <= g < |ChainSlots(nodes, s.chain)| ==>
      ChainSlots(nodes, s.chain)[g].bucket < |nodes| && ChainSlots(nodes, s.chain)[g].bucket !in s.info
  {
    forall n, c | n in s.info && !nodes[n].isLeaf && c in nodes[n].children
      ensures c in s.info
    {
      assert InternalOk(nodes, s, order, ph, n);
      var i :| 0 <= i < |nodes[n].children| && nodes[n].children[i] == c;
      assert ChildOk(nodes, s, ph, n, i);
    }
    forall n, b | n in s.info && nodes[n].isLeaf && b in nodes[n].children
      ensures b < |nodes| && b !in s.info
    {
      assert LeafOk(nodes, s, order, ph, n);
    }
    forall g | 0 <= g < |ChainSlots(nodes, s.chain)|
      ensures ChainSlots(nodes, s.chain)[g].bucket < |nodes| && ChainSlots(nodes, s.chain)[g].bucket !in s.info
    {
      var j, i := SlotFromChain(nodes, s.chain, g);
      assert nodes[s.chain[j]].children[i] in nodes[s.chain[j]].children;
    }
  }

  // ----- splitting a full leaf -----

  /**
   * `splitLeaf` on the arena: the leaf keeps its first `mid` entries and
   * points at a new leaf, appended to the arena, that takes the rest and the
   * old `next`; the new leaf follows the old one in the chain.
   */
  ghost predicate SplitLeafRel(nodes: seq<Node>, s: Shape, leaf: nat, j: nat,
                               nodes': seq<Node>, s': Shape)
    requires leaf < |nodes| && leaf in s.info && j < |s.chain|
    requires |nodes[leaf].keys| >= 1
    requires |nodes[leaf].values| == |nodes[leaf].children| == |nodes[leaf].keys|
  {
    var l := nodes[leaf];
    var mid := |l.keys| / 2;
    var nl := |nodes|;
    && s.chain[j] == leaf
    && |nodes'| == |nodes| + 1
    && (forall m :: 0 <= m < |nodes| && m != leaf ==> nodes'[m] == nodes[m])
    && nodes'[leaf] == l.(keys := l.keys[..mid], values := l.values[..mid],
                          children := l.children[..mid], next := Some(nl))
    && nodes'[nl] == Node(true, l.keys[mid..], l.values[mid..], l.children[mid..], l.next)
    && s'.info == s.info[leaf := s.info[leaf].(hi := Key(l.keys[mid]))]
                        [nl := Info(0, Key(l.keys[mid]), s.info[leaf].hi, 0)]
    && s'.chain == InsertAt(s.chain, j + 1, nl)
  }

  /** What every part of the split-leaf proof needs about the old state. */
  ghost predicate SplitLeafBase(nodes: seq<Node>, root: nat, s: Shape, order: nat, leaf: nat, j: nat,
                                nodes': seq<Node>, s': Shape)
  {
    && order >= 2
    && Framed(nodes, root, s)
    && leaf in s.info && s.info[leaf].level == 0
    && LeafOk(nodes, s, order, FullLeaf(leaf), leaf)
    && |nodes[leaf].keys| == order
    && j < |s.chain|
    && SplitLeafRel(nodes, s, leaf, j, nodes', s')
  }

  /** Children of internal tree nodes are tree nodes. */
  ghost predicate ChildrenInTree(nodes: seq<Node>, s: Shape)
    requires forall n :: n in s.info ==> n < |nodes|
  {
    forall n, c :: n in s.info && !nodes[n].isLeaf && c in nodes[n].children ==> c in s.info
  }

  ghost predicate SplitLeafPre(nodes: seq<Node>, root: nat, s: Shape, order: nat, leaf: nat, j: nat,
                               nodes': seq<Node>, s': Shape)
  {
    && Inv(nodes, root, s, order, FullLeaf(leaf))
    && leaf in s.info && s.info[leaf].level == 0 && |nodes[leaf].keys| == order
    && j < |s.chain|
    && SplitLeafRel(nodes, s, leaf, j, nodes', s')
  }

  /** The separator a leaf split sends up: the new leaf's first key. */
  function LeafSep(nodes: seq<Node>, leaf: nat): int
    requires leaf < |nodes| && |nodes[leaf].keys| >= 1
  {
    nodes[leaf].keys[|nodes[leaf].keys| / 2]
  }

  lemma SplitLeafKeys(nodes: seq<Node>, root: nat, s: Shape, order: nat, leaf: nat, j: nat,
                      nodes': seq<Node>, s': Shape)
    requires SplitLeafBase(nodes, root, s, order, leaf, j, nodes', s')
    ensures var l := nodes[leaf]; var mid := |l.keys| / 2;
      && 1 <= mid < |l.keys|
      && (order >= 3 ==> mid < |l.keys| - 1)
      && Above(s.info[leaf].lo, l.keys[mid])
      && AtMost(l.keys[mid], s.info[leaf].hi)
      && (order >= 3 ==> Under(l.keys[mid], s.info[leaf].hi))
  {
    var l := nodes[leaf];
    var mid := |l.keys| / 2;
    assert LeafOk(nodes, s, order, FullLeaf(leaf), leaf);
    assert l.keys[0] in l.keys && l.keys[mid] in l.keys && l.keys[|l.keys| - 1] in l.keys;
  }

  lemma SplitLeafFramed(nodes: seq<Node>, root: nat, s: Shape, order: nat, leaf: nat, j: nat,
                        nodes': seq<Node>, s': Shape)
    requires SplitLeafBase(nodes, root, s, order, leaf, j, nodes', s')
    requires RootOk(root, s, FullLeaf(leaf))
    ensures Framed(nodes', root, s')
    ensures RootOk(root, s', Promote(leaf, LeafSep(nodes, leaf), |nodes|))
  {
    SplitLeafKeys(nodes, root, s, order, leaf, j, nodes', s');
  }

  lemma SplitLeafLeaves(nodes: seq<Node>, root: nat, s: Shape, order: nat, leaf: nat, j: nat,
                        nodes': seq<Node>, s': Shape)
    requires SplitLeafBase(nodes, root, s, order, leaf, j, nodes', s')
    requires forall n :: n in s.info && s.info[n].level == 0 ==> LeafOk(nodes, s, order, FullLeaf(leaf), n)
    requires Framed(nodes', root, s')
    ensures forall n :: n in s'.info && s'.info[n].level == 0 ==>
      LeafOk(nodes', s', order, Promote(leaf, LeafSep(nodes, leaf), |nodes|), n)
  {
    SplitLeafKeys(nodes, root, s, order, leaf, j, nodes', s');
    var ph := Promote(leaf, LeafSep(nodes, leaf), |nodes|);
    var l := nodes[leaf];
    var mid := |l.keys| / 2;
    var nl := |nodes|;
    InfoSplitKeepsUp(s.info, leaf, Key(l.keys[mid]), nl, s'.info);
    forall n | n in s'.info && s'.info[n].level == 0
      ensures LeafOk(nodes', s', order, ph, n)
    {
      if n == leaf {
        LeafLowerOk(nodes, s, order, leaf, nodes', s', ph);
      } else if n == nl {
        LeafUpperOk(nodes, s, order, leaf, nodes', s', ph);
      } else {
        LeafOkKept(nodes, s, nodes', s', order, FullLeaf(leaf), ph, n);
      }
    }
  }

  lemma SplitLeafInternals(nodes: seq<Node>, root: nat, s: Shape, order: nat, leaf: nat, j: nat,
                           nodes': seq<Node>, s': Shape)
    requires SplitLeafBase(nodes, root, s, order, leaf, j, nodes', s')
    requires forall n :: n in s.info && s.info[n].level > 0 ==> InternalOk(nodes, s, order, FullLeaf(leaf), n)
    requires Framed(nodes', root, s')
    ensures forall n :: n in s'.info && s'.info[n].level > 0 ==>
      InternalOk(nodes', s', order, Promote(leaf, LeafSep(nodes, leaf), |nodes|), n)
  {
    var ph := Promote(leaf, LeafSep(nodes, leaf), |nodes|);
    forall n | n in s'.info && s'.info[n].level > 0
      ensures InternalOk(nodes', s', order, ph, n)
    {
      assert InternalOk(nodes, s, order, FullLeaf(leaf), n);
      assert nodes'[n] == nodes[n] && s'.info[n] == s.info[n];
      forall i | 0 <= i < |nodes'[n].children|
        ensures ChildOk(nodes', s', ph, n, i)
      {
        assert ChildOk(nodes, s, FullLeaf(leaf), n, i);
      }
    }
  }

  lemma SplitLeafParents(nodes: seq<Node>, root: nat, s: Shape, order: nat, leaf: nat, j: nat,
                         nodes': seq<Node>, s': Shape)
    requires SplitLeafBase(nodes, root, s, order, leaf, j, nodes', s')
    requires ParentsOk(nodes, root, s, FullLeaf(leaf))
    requires Framed(nodes', root, s')
    ensures ParentsOk(nodes', root, s', Promote(leaf, LeafSep(nodes, leaf), |nodes|))
  {
    var nl := |nodes|;
    var l := nodes[leaf];
    InfoSplitKeepsUp(s.info, leaf, Key(l.keys[|l.keys| / 2]), nl, s'.info);
    ParentsAfterSplit(nodes, root, s, leaf, nodes', s', nl, LeafSep(nodes, leaf));
  }

  /** Splitting the interval of `leaf` with a new node `nl` keeps every old node and its parent link. */
  lemma InfoSplitKeepsUp(info: map<nat, Info>, leaf: nat, x: Bound, nl: nat, info': map<nat, Info>)
    requires leaf in info && nl !in info
    requires info' == info[leaf := info[leaf].(hi := x)][nl := Info(0, x, info[leaf].hi, 0)]
    ensures forall c :: c in info ==> c in info'
    ensures forall c :: c in info' ==> c in info || c == nl
    ensures forall c :: c in info' && c != nl ==> c in info && info'[c].up == info[c].up
    ensures forall c :: c in info && c != leaf ==> info'[c] == info[c]
  {
  }

  /** The lower half of a split leaf, with the separator as its new upper end, is a well-formed leaf. */
  lemma LeafLowerOk(nodes: seq<Node>, s: Shape, order: nat, leaf: nat, nodes': seq<Node>, s': Shape, ph': Phase)
    requires leaf in s.info && leaf < |nodes| <= |nodes'| && leaf in s'.info
    requires LeafOk(nodes, s, order, FullLeaf(leaf), leaf) && |nodes[leaf].keys| >= 2
    requires var l := nodes[leaf]; var mid := |l.keys| / 2;
      && nodes'[leaf].keys == l.keys[..mid] && nodes'[leaf].values == l.values[..mid]
      && nodes'[leaf].children == l.children[..mid]
      && s'.info[leaf] == s.info[leaf].(hi := Key(l.keys[mid]))
    requires forall b :: b < |nodes| && b !in s.info ==> b !in s'.info
    ensures LeafOk(nodes', s', order, ph', leaf)
  {
    var l := nodes[leaf];
    var mid := |l.keys| / 2;
    forall k | k in nodes'[leaf].keys
      ensures AtOrAbove(s'.info[leaf].lo, k) && AtMost(k, s'.info[leaf].hi)
    {
      var i :| 0 <= i < mid && l.keys[i] == k;
      assert l.keys[i] in l.keys;
    }
    assert forall b :: b in nodes'[leaf].children ==> b in l.children;
  }

  /** The upper half of a split leaf, from the separator to the old upper end, is a well-formed leaf. */
  lemma LeafUpperOk(nodes: seq<Node>, s: Shape, order: nat, leaf: nat, nodes': seq<Node>, s': Shape, ph': Phase)
    requires leaf in s.info && leaf < |nodes| < |nodes'| && |nodes| in s'.info
    requires LeafOk(nodes, s, order, FullLeaf(leaf), leaf) && |nodes[leaf].keys| >= 2
    requires var l := nodes[leaf]; var mid := |l.keys| / 2;
      && nodes'[|nodes|].keys == l.keys[mid..] && nodes'[|nodes|].values == l.values[mid..]
      && nodes'[|nodes|].children == l.children[mid..]
      && s'.info[|nodes|] == Info(0, Key(l.keys[mid]), s.info[leaf].hi, 0)
    requires forall b :: b < |nodes| && b !in s.info ==> b !in s'.info
    ensures LeafOk(nodes', s', order, ph', |nodes|)
  {
    var l := nodes[leaf];
    var mid := |l.keys| / 2;
    var nl := |nodes|;
    forall k | k in nodes'[nl].keys
      ensures AtOrAbove(s'.info[nl].lo, k) && AtMost(k, s'.info[nl].hi)
    {
      var i :| mid <= i < |l.keys| && l.keys[i] == k;
      assert l.keys[i] in l.keys;
    }
    assert forall b :: b in nodes'[nl].children ==> b in l.children;
  }

  /** A leaf whose node and interval are unchanged stays well formed when the arena only grew by untracked nodes. */
  lemma LeafOkKept(nodes: seq<Node>, s: Shape, nodes': seq<Node>, s': Shape, order: nat, ph: Phase, ph': Phase, n: nat)
    requires n in s.info && n < |nodes| <= |nodes'| && n in s'.info
    requires LeafOk(nodes, s, order, ph, n)
    requires nodes'[n] == nodes[n] && s'.info[n] == s.info[n]
    requires forall b :: b < |nodes| && b !in s.info ==> b !in s'.info
    requires ph == FullLeaf(n) ==> ph' == FullLeaf(n)
    ensures LeafOk(nodes', s', order, ph', n)
  {
  }

  /** Parent links survive when only a leaf changed and the one new node is exempt. */
  lemma ParentsAfterSplit(nodes: seq<Node>, root: nat, s: Shape, leaf: nat, nodes': seq<Node>, s': Shape, nl: nat,
                          sep: int)
    requires forall n :: n in s.info ==> n < |nodes|
    requires forall n :: n in s'.info ==> n < |nodes'|
    requires ParentsOk(nodes, root, s, FullLeaf(leaf))
    requires leaf < |nodes| && nodes[leaf].isLeaf && nl == |nodes| <= |nodes'|
    requires forall m :: 0 <= m < |nodes| && m != leaf ==> nodes'[m] == nodes[m]
    requires forall c :: c in s.info ==> c in s'.info
    requires forall c :: c in s'.info && c != nl ==> c in s.info && s'.info[c].up == s.info[c].up
    ensures ParentsOk(nodes', root, s', Promote(leaf, sep, nl))
  {
    forall c | c in s'.info && c != root && c != nl
      ensures s'.info[c].up in s'.info && c in nodes'[s'.info[c].up].children
      ensures !nodes'[s'.info[c].up].isLeaf
    {
      var p := s.info[c].up;
      assert p in s.info && c in nodes[p].children && !nodes[p].isLeaf;
      assert p != leaf && p < nl && nodes'[p] == nodes[p];
    }
  }

  lemma SplitLeafPromote(nodes: seq<Node>, root: nat, s: Shape, order: nat, leaf: nat, j: nat,
                         nodes': seq<Node>, s': Shape)
    requires SplitLeafBase(nodes, root, s, order, leaf, j, nodes', s')
    requires ChildrenInTree(nodes, s)
    requires Framed(nodes', root, s')
    ensures PromoteOk(nodes', root, s', order, Promote(leaf, LeafSep(nodes, leaf), |nodes|))
  {
    SplitLeafKeys(nodes, root, s, order, leaf, j, nodes', s');
    var nl := |nodes|;
    forall n | n in s'.info && !nodes'[n].isLeaf
      ensures nl !in nodes'[n].children
    {
      assert n != nl && n != leaf;
      assert n in s.info && nodes'[n] == nodes[n];
      assert forall c :: c in nodes[n].children ==> c in s.info && c < nl;
    }
  }

  lemma SplitLeafChainMembers(nodes: seq<Node>, root: nat, s: Shape, order: nat, leaf: nat, j: nat,
                              nodes': seq<Node>, s': Shape)
    requires SplitLeafBase(nodes, root, s, order, leaf, j, nodes', s')
    requires ChainOk(nodes, s)
    requires Framed(nodes', root, s')
    ensures |s'.chain| >= 1
    ensures forall k :: 0 <= k < |s'.chain| ==> s'.chain[k] in s'.info && s'.info[s'.chain[k]].level == 0
    ensures forall n :: n in s'.info && s'.info[n].level == 0 ==> n in s'.chain
  {
    var l := nodes[leaf];
    assert |nodes| !in s.info;
    MembersSplit(s.info, s.chain, j, |nodes|, Key(l.keys[|l.keys| / 2]), s'.info, s'.chain);
  }

  /** Cutting chain leaf `j` in two keeps the chain listing exactly the leaves. */
  lemma MembersSplit(info: map<nat, Info>, c: seq<nat>, j: nat, nl: nat, x: Bound,
                     info': map<nat, Info>, c': seq<nat>)
    requires j < |c| && nl !in info
    requires forall k :: 0 <= k < |c| ==> c[k] in info && info[c[k]].level == 0
    requires forall n :: n in info && info[n].level == 0 ==> n in c
    requires info' == info[c[j] := info[c[j]].(hi := x)][nl := Info(0, x, info[c[j]].hi, 0)]
    requires c' == InsertAt(c, j + 1, nl)
    ensures |c'| >= 1
    ensures forall k :: 0 <= k < |c'| ==> c'[k] in info' && info'[c'[k]].level == 0
    ensures forall n :: n in info' && info'[n].level == 0 ==> n in c'
  {
    forall k | 0 <= k < |c'|
      ensures c'[k] in info' && info'[c'[k]].level == 0
    {
      if k <= j {
        assert c'[k] == c[k];
      } else if k > j + 1 {
        assert c'[k] == c[k - 1];
      }
    }
    forall n | n in info' && info'[n].level == 0
      ensures n in c'
    {
      if n == nl {
        assert c'[j + 1] == n;
      } else {
        var k :| 0 <= k < |c| && c[k] == n;
        if k <= j {
          assert c'[k] == n;
        } else {
          assert c'[k + 1] == n;
        }
      }
    }
  }

  lemma SplitLeafChainDistinct(nodes: seq<Node>, root: nat, s: Shape, order: nat, leaf: nat, j: nat,
                               nodes': seq<Node>, s': Shape)
    requires SplitLeafBase(nodes, root, s, order, leaf, j, nodes', s')
    requires ChainOk(nodes, s)
    ensures forall k, m :: 0 <= k < m < |s'.chain| ==> s'.chain[k] != s'.chain[m]
  {
    var c, c' := s.chain, s'.chain;
    forall k, m | 0 <= k < m < |c'|
      ensures c'[k] != c'[m]
    {
      if m == j + 1 {
        assert c[k] in s.info;
      } else if k == j + 1 {
        assert c[m - 1] in s.info;
      } else if m < j + 1 {
        assert c'[k] == c[k] && c'[m] == c[m];
      } else if k > j + 1 {
        assert c'[k] == c[k - 1] && c'[m] == c[m - 1];
      } else {
        assert c'[k] == c[k] && c'[m] == c[m - 1];
      }
    }
  }

  lemma SplitLeafNextLinks(nodes: seq<Node>, root: nat, s: Shape, order: nat, leaf: nat, j: nat,
                           nodes': seq<Node>, s': Shape)
    requires SplitLeafBase(nodes, root, s, order, leaf, j, nodes', s')
    requires ChainOk(nodes, s)
    ensures forall k :: 0 <= k < |s'.chain| - 1 ==> nodes'[s'.chain[k]].next == Some(s'.chain[k + 1])
  {
    var c, c' := s.chain, s'.chain;
    forall k | 0 <= k < |c'| - 1
      ensures nodes'[c'[k]].next == Some(c'[k + 1])
    {
      if k < j {
        assert c'[k] == c[k] && c'[k + 1] == c[k + 1];
        assert c[k] != leaf;
      } else if k == j {
        assert c'[k] == leaf && c'[k + 1] == |nodes|;
      } else if k == j + 1 {
        assert c'[k + 1] == c[j + 1];
      } else {
        assert c'[k] == c[k - 1] && c'[k + 1] == c[k];
        assert c[k - 1] != leaf;
      }
    }
  }

  lemma SplitLeafIntervalLinks(nodes: seq<Node>, root: nat, s: Shape, order: nat, leaf: nat, j: nat,
                               nodes': seq<Node>, s': Shape)
    requires SplitLeafBase(nodes, root, s, order, leaf, j, nodes', s')
    requires ChainOk(nodes, s)
    ensures forall k :: 0 <= k < |s'.chain| - 1 ==> s'.info[s'.chain[k]].hi == s'.info[s'.chain[k + 1]].lo
  {
    var l := nodes[leaf];
    IntervalsSplit(s.info, s.chain, j, |nodes|, Key(l.keys[|l.keys| / 2]), s'.info, s'.chain);
  }

  /** Cutting chain interval `j` in two at `x` keeps neighbouring intervals adjacent. */
  lemma IntervalsSplit(info: map<nat, Info>, c: seq<nat>, j: nat, nl: nat, x: Bound,
                       info': map<nat, Info>, c': seq<nat>)
    requires j < |c| && nl !in info
    requires forall k :: 0 <= k < |c| ==> c[k] in info
    requires forall k :: 0 <= k < |c| && k != j ==> c[k] != c[j]
    requires forall k :: 0 <= k < |c| - 1 ==> info[c[k]].hi == info[c[k + 1]].lo
    requires info' == info[c[j] := info[c[j]].(hi := x)][nl := Info(0, x, info[c[j]].hi, 0)]
    requires c' == InsertAt(c, j + 1, nl)
    ensures forall k :: 0 <= k < |c'| - 1 ==> info'[c'[k]].hi == info'[c'[k + 1]].lo
  {
    forall k | 0 <= k < |c'| - 1
      ensures info'[c'[k]].hi == info'[c'[k + 1]].lo
    {
      if k < j {
        assert c'[k] == c[k] && c'[k + 1] == c[k + 1];
      } else if k == j {
        assert c'[k] == c[j] && c'[k + 1] == nl;
      } else if k == j + 1 {
        assert c'[k] == nl && c'[k + 1] == c[j + 1];
      } else {
        assert c'[k] == c[k - 1] && c'[k + 1] == c[k];
      }
    }
  }

  lemma SplitLeafChainEnds(nodes: seq<Node>, root: nat, s: Shape, order: nat, leaf: nat, j: nat,
                           nodes': seq<Node>, s': Shape)
    requires SplitLeafBase(nodes, root, s, order, leaf, j, nodes', s')
    requires ChainOk(nodes, s)
    ensures nodes'[Last(s'.chain)].next == None
    ensures s'.info[s'.chain[0]].lo == NegInf
    ensures s'.info[Last(s'.chain)].hi == PosInf
  {
    var c, c' := s.chain, s'.chain;
    if j < |c| - 1 {
      assert Last(c') == Last(c) && Last(c) != leaf && Last(c) in s.info;
    } else {
      assert Last(c') == |nodes| && Last(c) == leaf;
    }
    if j > 0 {
      assert c'[0] == c[0] && c[0] != leaf;
    }
  }

  lemma SplitLeafChain(nodes: seq<Node>, root: nat, s: Shape, order: nat, leaf: nat, j: nat,
                       nodes': seq<Node>, s': Shape)
    requires SplitLeafBase(nodes, root, s, order, leaf, j, nodes', s')
    requires ChainOk(nodes, s)
    requires Framed(nodes', root, s')
    ensures ChainOk(nodes', s')
  {
    SplitLeafChainMembers(nodes, root, s, order, leaf, j, nodes', s');
    SplitLeafChainDistinct(nodes, root, s, order, leaf, j, nodes', s');
    SplitLeafNextLinks(nodes, root, s, order, leaf, j, nodes', s');
    SplitLeafIntervalLinks(nodes, root, s, order, leaf, j, nodes', s');
    SplitLeafChainEnds(nodes, root, s, order, leaf, j, nodes', s');
  }

  lemma SplitLeafSlots(nodes: seq<Node>, root: nat, s: Shape, order: nat, leaf: nat, j: nat,
                       nodes': seq<Node>, s': Shape)
    requires SplitLeafBase(nodes, root, s, order, leaf, j, nodes', s')
    requires LeavesParallel(nodes, s.chain)
    requires forall k, m :: 0 <= k < m < |s.chain| ==> s.chain[k] != s.chain[m]
    ensures LeavesParallel(nodes', s'.chain)
    ensures ChainSlots(nodes', s'.chain) == ChainSlots(nodes, s.chain)
  {
    SplitChainSlots(nodes, nodes', s.chain, j, leaf);
  }

  /** Replacing leaf `c[j]` by its two halves keeps the chain's slots. */
  lemma SplitChainSlots(nodes: seq<Node>, nodes': seq<Node>, c: seq<nat>, j: nat, leaf: nat)
    requires j < |c| && c[j] == leaf && LeavesParallel(nodes, c)
    requires forall k, m :: 0 <= k < m < |c| ==> c[k] != c[m]
    requires |nodes'| == |nodes| + 1
    requires forall m :: 0 <= m < |nodes| && m != leaf ==> nodes'[m] == nodes[m]
    requires var l := nodes[leaf]; var mid := |l.keys| / 2;
      && nodes'[leaf].keys == l.keys[..mid] && nodes'[leaf].children == l.children[..mid]
      && nodes'[|nodes|].keys == l.keys[mid..] && nodes'[|nodes|].children == l.children[mid..]
    ensures LeavesParallel(nodes', InsertAt(c, j + 1, |nodes|))
    ensures ChainSlots(nodes', InsertAt(c, j + 1, |nodes|)) == ChainSlots(nodes, c)
  {
    var nl := |nodes|;
    ChainSlotsAt(nodes, c, j);
    var pre, post := c[..j], c[j + 1..];
    assert leaf !in pre by {
      assert forall k :: 0 <= k < |pre| ==> pre[k] == c[k];
    }
    assert leaf !in post by {
      assert forall k :: 0 <= k < |post| ==> post[k] == c[j + 1 + k];
    }
    LeavesUntouched(nodes, nodes', pre, leaf);
    LeavesUntouched(nodes, nodes', post, leaf);
    SplitLeafHalves(nodes, nodes', leaf);
    ChainSlotsAppend(nodes', pre, [leaf, nl]);
    ChainSlotsAppend(nodes', pre + [leaf, nl], post);
    InsertAfter(c, j, nl);
  }

  /** Inserting after position `j` puts the new element between `c[j]` and the rest. */
  lemma InsertAfter<T>(c: seq<T>, j: nat, x: T)
    requires j < |c|
    ensures InsertAt(c, j + 1, x) == c[..j] + [c[j], x] + c[j + 1..]
  {
    assert c[..j + 1] == c[..j] + [c[j]];
  }

  /** Leaves other than the changed one keep their slots. */
  lemma LeavesUntouched(nodes: seq<Node>, nodes': seq<Node>, c: seq<nat>, leaf: nat)
    requires LeavesParallel(nodes, c) && leaf !in c
    requires |nodes'| > |nodes|
    requires forall m :: 0 <= m < |nodes| && m != leaf ==> nodes'[m] == nodes[m]
    ensures LeavesParallel(nodes', c)
    ensures ChainSlots(nodes', c) == ChainSlots(nodes, c)
  {
    assert forall k :: 0 <= k < |c| ==> nodes'[c[k]] == nodes[c[k]];
    ChainSlotsFrame(nodes, nodes', c);
  }

  /** The two halves of the split leaf read as the slots of the leaf before the split. */
  lemma SplitLeafHalves(nodes: seq<Node>, nodes': seq<Node>, leaf: nat)
    requires leaf < |nodes| < |nodes'|
    requires |nodes[leaf].keys| == |nodes[leaf].children|
    requires var l := nodes[leaf]; var mid := |l.keys| / 2;
      && nodes'[leaf].keys == l.keys[..mid] && nodes'[leaf].children == l.children[..mid]
      && nodes'[|nodes|].keys == l.keys[mid..] && nodes'[|nodes|].children == l.children[mid..]
    ensures LeavesParallel(nodes', [leaf, |nodes|])
    ensures ChainSlots(nodes', [leaf, |nodes|]) == LeafSlots(nodes[leaf])
  {
    var nl := |nodes|;
    var l := nodes[leaf];
    var mid := |l.keys| / 2;
    ChainSlotsSingle(nodes', leaf);
    ChainSlotsSingle(nodes', nl);
    ChainSlotsAppend(nodes', [leaf], [nl]);
    assert [leaf] + [nl] == [leaf, nl];
    SlotsCut(l, nodes'[leaf], nodes'[nl], mid);
  }

  /** The slots of a leaf cut at `mid` are the slots of the two halves, in order. */
  lemma SlotsCut(l: Node, a: Node, b: Node, mid: nat)
    requires |l.keys| == |l.children| && mid <= |l.keys|
    requires a.keys == l.keys[..mid] && a.children == l.children[..mid]
    requires b.keys == l.keys[mid..] && b.children == l.children[mid..]
    ensures LeafSlots(a) + LeafSlots(b) == LeafSlots(l)
  {
    var sa, sb := LeafSlots(a), LeafSlots(b);
    forall i | 0 <= i < |l.keys|
      ensures (sa + sb)[i] == LeafSlots(l)[i]
    {
      if i < mid {
        assert (sa + sb)[i] == sa[i];
      } else {
        assert (sa + sb)[i] == sb[i - mid];
      }
    }
  }

  /**
   * Splitting a full leaf yields the invariant with the new leaf waiting
   * for its first key to be inserted into the parent, and keeps the slots
   * read along the chain.
   */
  lemma SplitLeafStep(nodes: seq<Node>, root: nat, s: Shape, order: nat, leaf: nat, j: nat,
                      nodes': seq<Node>, s': Shape)
    requires SplitLeafPre(nodes, root, s, order, leaf, j, nodes', s')
    ensures Inv(nodes', root, s', order, Promote(leaf, LeafSep(nodes, leaf), |nodes|))
    ensures ChainSlots(nodes', s'.chain) == ChainSlots(nodes, s.chain)
  {
    InvIds(nodes, root, s, order, FullLeaf(leaf));
    assert SplitLeafBase(nodes, root, s, order, leaf, j, nodes', s');
    SplitLeafFramed(nodes, root, s, order, leaf, j, nodes', s');
    SplitLeafLeaves(nodes, root, s, order, leaf, j, nodes', s');
    SplitLeafInternals(nodes, root, s, order, leaf, j, nodes', s');
    SplitLeafParents(nodes, root, s, order, leaf, j, nodes', s');
    SplitLeafPromote(nodes, root, s, order, leaf, j, nodes', s');
    SplitLeafChain(nodes, root, s, order, leaf, j, nodes', s');
    SplitLeafSlots(nodes, root, s, order, leaf, j, nodes', s');
  }
}
