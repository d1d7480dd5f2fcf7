/**
 * `findParent`: a depth-first search from a node for the internal node that
 * lists a given child. It first scans the node's own children, then
 * searches each child's subtree in order. Under the tree invariant every
 * node has exactly one parent and hangs below the root, so the search from
 * the root returns that parent.
 */
module BPlusTreeParent {
  import opened Common
  import opened BPlusTreeShape

  /** The parent of `child` within the subtree of `node`, searched depth first. */
  function FindParent(nodes: seq<Node>, ghost s: Shape, node: nat, child: nat): (r: Option<nat>)
    requires Descends(nodes, s)
    requires node in s.info
    ensures r.Some? ==>
      r.value in s.info && !nodes[r.value].isLeaf && child in nodes[r.value].children
    decreases s.info[node].level, 1, 0
  {
    if nodes[node].isLeaf then None
    else if child in nodes[node].children then Some(node)
    else FindParentAmong(nodes, s, nodes[node].children, 0, child, s.info[node].level)
  }

  /** The first hit of `FindParent` in the subtrees of `kids[i..]`. */
  function FindParentAmong(nodes: seq<Node>, ghost s: Shape, kids: seq<nat>, i: nat,
                           child: nat, ghost bound: nat): (r: Option<nat>)
    requires Descends(nodes, s)
    requires i <= |kids|
    requires forall k :: k in kids ==> k in s.info && s.info[k].level < bound
    ensures r.Some? ==>
      r.value in s.info && !nodes[r.value].isLeaf && child in nodes[r.value].children
    decreases bound, 0, |kids| - i
  {
    if i == |kids| then None
    else
      match FindParent(nodes, s, kids[i], child)
      case Some(p) => Some(p)
      case None => FindParentAmong(nodes, s, kids, i + 1, child, bound)
  }

  /** Every tree node from level `from` up, except the root, is a child of its recorded parent one level higher. */
  ghost predicate Linked(nodes: seq<Node>, root: nat, s: Shape, from: nat)
    requires forall n :: n in s.info ==> n < |nodes|
  {
    forall c :: c in s.info && c != root && s.info[c].level >= from ==>
      && s.info[c].up in s.info
      && s.info[s.info[c].up].level == s.info[c].level + 1
      && c in nodes[s.info[c].up].children
  }

  /** Every linked node other than the root lies strictly below the root's level. */
  lemma BelowRoot(nodes: seq<Node>, root: nat, s: Shape, from: nat)
    requires Framed(nodes, root, s) && Linked(nodes, root, s, from)
    ensures forall c :: c in s.info && c != root && s.info[c].level >= from ==>
      s.info[c].level < s.info[root].level
  {
    forall c | c in s.info && c != root && s.info[c].level >= from
      ensures s.info[c].level < s.info[root].level
    {
      assert s.info[s.info[c].up].level <= s.info[root].level;
    }
  }

  /** A downward path of tree nodes, each an internal node listing the next as a child. */
  ghost predicate IsPath(nodes: seq<Node>, s: Shape, path: seq<nat>)
  {
    && |path| >= 1
    && (forall i :: 0 <= i < |path| ==> path[i] in s.info && path[i] < |nodes|)
    && (forall i :: 0 <= i < |path| - 1 ==> !nodes[path[i]].isLeaf && path[i + 1] in nodes[path[i]].children)
  }

  /** Every linked node hangs on a path from the root. */
  lemma {:induction false} PathFromRoot(nodes: seq<Node>, root: nat, s: Shape, from: nat, n: nat)
    returns (path: seq<nat>)
    requires Framed(nodes, root, s) && Linked(nodes, root, s, from)
    requires n in s.info && s.info[n].level >= from
    ensures IsPath(nodes, s, path) && path[0] == root && Last(path) == n
    decreases s.info[root].level - s.info[n].level
  {
    if n == root {
      path := [n];
    } else {
      BelowRoot(nodes, root, s, from);
      var p := s.info[n].up;
      var above := PathFromRoot(nodes, root, s, from, p);
      assert !nodes[p].isLeaf;
      path := above + [n];
      assert path[|path| - 2] == p;
    }
  }

  /** A later subtree that finds a parent makes the scan find one. */
  lemma {:induction false} AmongComplete(nodes: seq<Node>, s: Shape, kids: seq<nat>, i: nat,
                                         child: nat, bound: nat, k: nat)
    requires Descends(nodes, s)
    requires i <= k < |kids|
    requires forall m :: m in kids ==> m in s.info && s.info[m].level < bound
    requires FindParent(nodes, s, kids[k], child).Some?
    ensures FindParentAmong(nodes, s, kids, i, child, bound).Some?
    decreases k - i
  {
    if i < k && FindParent(nodes, s, kids[i], child).None? {
      AmongComplete(nodes, s, kids, i + 1, child, bound, k);
    }
  }

  /** A subtree of `a` that finds a parent makes the search from `a` find one. */
  lemma FindParentViaChild(nodes: seq<Node>, s: Shape, a: nat, c: nat, x: nat)
    requires Descends(nodes, s)
    requires a in s.info && !nodes[a].isLeaf && c in nodes[a].children
    requires c in s.info && FindParent(nodes, s, c, x).Some?
    ensures FindParent(nodes, s, a, x).Some?
  {
    var kids := nodes[a].children;
    var k :| 0 <= k < |kids| && kids[k] == c;
    if x !in kids {
      AmongComplete(nodes, s, kids, 0, x, s.info[a].level, k);
    }
  }

  /** The search from the top of a path finds a parent of any child of the path's last node. */
  lemma {:induction false} FindParentComplete(nodes: seq<Node>, s: Shape, path: seq<nat>, x: nat)
    requires Descends(nodes, s) && IsPath(nodes, s, path)
    requires !nodes[Last(path)].isLeaf && x in nodes[Last(path)].children
    ensures FindParent(nodes, s, path[0], x).Some?
    decreases |path|
  {
    if |path| > 1 {
      var rest := path[1..];
      assert IsPath(nodes, s, rest) by {
        assert forall i :: 0 <= i < |rest| ==> rest[i] == path[i + 1];
      }
      assert Last(rest) == Last(path);
      FindParentComplete(nodes, s, rest, x);
      FindParentViaChild(nodes, s, path[0], path[1], x);
    }
  }

  /** Every child of an internal tree node is a tree node one level lower. */
  lemma InvDescends(nodes: seq<Node>, root: nat, s: Shape, order: nat, ph: Phase)
    requires Inv(nodes, root, s, order, ph)
    ensures Descends(nodes, s)
  {
    forall n | n in s.info && !nodes[n].isLeaf
      ensures forall c :: c in nodes[n].children ==> c in s.info && s.info[c].level < s.info[n].level
    {
      assert InternalOk(nodes, s, order, ph, n);
      ChildrenBelow(nodes, s, order, ph, n);
    }
  }

  lemma ChildrenBelow(nodes: seq<Node>, s: Shape, order: nat, ph: Phase, n: nat)
    requires n in s.info && n < |nodes| && InternalOk(nodes, s, order, ph, n)
    ensures forall c :: c in nodes[n].children ==> c in s.info && s.info[c].level < s.info[n].level
  {
    forall c | c in nodes[n].children
      ensures c in s.info && s.info[c].level < s.info[n].level
    {
      var i :| 0 <= i < |nodes[n].children| && nodes[n].children[i] == c;
      assert ChildOk(nodes, s, ph, n, i);
    }
  }

  /** While a promotion is pending, every node above the split level hangs below its parent. */
  lemma InvLinked(nodes: seq<Node>, root: nat, s: Shape, order: nat, ph: Phase)
    requires Inv(nodes, root, s, order, ph) && ph.Promote?
    ensures Linked(nodes, root, s, s.info[ph.left].level + 1)
  {
    forall c | c in s.info && c != root && s.info[c].level >= s.info[ph.left].level + 1
      ensures s.info[c].up in s.info
      ensures s.info[s.info[c].up].level == s.info[c].level + 1
      ensures c in nodes[s.info[c].up].children
    {
      var p := s.info[c].up;
      var i :| 0 <= i < |nodes[p].children| && nodes[p].children[i] == c;
      assert ChildOk(nodes, s, ph, p, i);
    }
  }

  /**
   * While the sibling of a split non-root node waits for its separator,
   * `findParent(root, left)` returns the recorded parent of `left`.
   */
  lemma ParentFound(nodes: seq<Node>, root: nat, s: Shape, order: nat, ph: Phase)
    requires Inv(nodes, root, s, order, ph) && ph.Promote? && ph.left != root
    ensures Descends(nodes, s)
    ensures FindParent(nodes, s, root, ph.left) == Some(s.info[ph.left].up)
  {
    var x := ph.left;
    var p := s.info[x].up;
    var from := s.info[x].level + 1;
    InvDescends(nodes, root, s, order, ph);
    InvLinked(nodes, root, s, order, ph);
    assert s.info[p].level == from by {
      var i :| 0 <= i < |nodes[p].children| && nodes[p].children[i] == x;
      assert ChildOk(nodes, s, ph, p, i);
    }
    var path := PathFromRoot(nodes, root, s, from, p);
    FindParentComplete(nodes, s, path, x);
    var q := FindParent(nodes, s, root, x).value;
    var i :| 0 <= i < |nodes[q].children| && nodes[q].children[i] == x;
    assert ChildOk(nodes, s, ph, q, i);
  }
}
