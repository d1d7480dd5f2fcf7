/**
 * The shape of the B+ tree: its nodes kept in an arena (a node's identity is
 * its index), the ghost bookkeeping that describes where each node sits, and
 * the invariant that holds between operations and, in a weakened form, at
 * every step of an insertion's split cascade.
 *
 * Keys are `int`s. A leaf holds its keys in ascending order; next to the key
 * at index i it holds the first row id inserted for that key (`values[i]`)
 * and, in `children[i]`, the id of an auxiliary bucket node whose `values`
 * list holds every row id inserted for that key. An internal node with k
 * keys has k + 1 children; the subtree at child i holds the keys between
 * separators i - 1 and i.
 */
module BPlusTreeShape {
  import opened Common

  /** A tree node, a leaf or an auxiliary bucket node; `next` links the leaves. */
  datatype Node = Node(isLeaf: bool, keys: seq<int>, values: seq<int>,
                       children: seq<nat>, next: Option<nat>)

  /** An end of a key interval. */
  datatype Bound = NegInf | Key(k: int) | PosInf

  /** `b < k` */
  predicate Above(b: Bound, k: int) { b.NegInf? || (b.Key? && b.k < k) }

  /** `b <= k` */
  predicate AtOrAbove(b: Bound, k: int) { b.NegInf? || (b.Key? && b.k <= k) }

  /** `k <= b` */
  predicate AtMost(k: int, b: Bound) { b.PosInf? || (b.Key? && k <= b.k) }

  /** `k < b` */
  predicate Under(k: int, b: Bound) { b.PosInf? || (b.Key? && k < b.k) }

  /** `a <= b` */
  predicate BoundLe(a: Bound, b: Bound)
  {
    a.NegInf? || b.PosInf? || (a.Key? && b.Key? && a.k <= b.k)
  }

  /**
   * Ghost facts about one tree node: its level (0 for leaves), the interval
   * `lo .. hi` its keys lie in, and its parent (meaningless for the root).
   */
  datatype Info = Info(level: nat, lo: Bound, hi: Bound, up: nat)

  /**
   * The tree nodes are exactly the keys of `info`; every other arena entry
   * is a bucket node. `chain` lists the leaves in `next` order.
   */
  datatype Shape = Shape(info: map<nat, Info>, chain: seq<nat>)

  /**
   * Where an insertion stands: at rest; with a leaf or an internal node
   * holding `order` keys, about to be split; or with a node `left` just
   * split, whose new right sibling `right` waits for the separator `sep`
   * to be inserted into the parent of `left`.
   */
  datatype Phase =
    | Settled
    | FullLeaf(leaf: nat)
    | FullInternal(node: nat)
    | Promote(left: nat, sep: int, right: nat)

  /** `list.add(i, x)`: `x` inserted before index `i`. */
  function InsertAt<T>(s: seq<T>, i: nat, x: T): (r: seq<T>)
    requires i <= |s|
    ensures |r| == |s| + 1 && r[i] == x
    ensures forall j :: 0 <= j < i ==> r[j] == s[j]
    ensures forall j :: i < j < |r| ==> r[j] == s[j - 1]
  {
    s[..i] + [x] + s[i..]
  }

  /** `i` is where `findPosition` stops: the first index whose key is not below `key`. */
  predicate IsPosition(keys: seq<int>, key: int, i: int)
  {
    && 0 <= i <= |keys|
    && (forall j :: 0 <= j < i ==> keys[j] < key)
    && (i == |keys| || keys[i] >= key)
  }

  /** The lower end of the interval of child `i` of an internal node. */
  function ChildLo(nd: Node, lo: Bound, i: nat): Bound
    requires i <= |nd.keys|
  {
    if i == 0 then lo else Key(nd.keys[i - 1])
  }

  /** The upper end of the interval of child `i` of an internal node. */
  function ChildHi(nd: Node, hi: Bound, i: nat): Bound
    requires i <= |nd.keys|
  {
    if i == |nd.keys| then hi else Key(nd.keys[i])
  }

  /** Every tree node is in the arena, levels never exceed the root's, and only level 0 holds leaves. */
  ghost predicate Framed(nodes: seq<Node>, root: nat, s: Shape)
  {
    && root in s.info
    && (forall n :: n in s.info ==> n < |nodes|)
    && (forall n :: n in s.info ==> s.info[n].level <= s.info[root].level)
    && (forall n :: n in s.info ==> (nodes[n].isLeaf <==> s.info[n].level == 0))
    && (forall n :: n in s.info ==>
          BoundLe(s.info[n].lo, s.info[n].hi) && s.info[n].lo != PosInf && s.info[n].hi != NegInf)
  }

  /** The children of an internal tree node are tree nodes one level lower. */
  ghost predicate Descends(nodes: seq<Node>, s: Shape)
  {
    forall n :: n in s.info ==>
      && n < |nodes|
      && (!nodes[n].isLeaf ==>
            forall c :: c in nodes[n].children ==> c in s.info && s.info[c].level < s.info[n].level)
  }

  /** A leaf: parallel lists, ascending keys inside its interval, bucket children, fewer than `order` keys. */
  ghost predicate LeafOk(nodes: seq<Node>, s: Shape, order: nat, ph: Phase, n: nat)
    requires n in s.info && n < |nodes|
  {
    var nd, inf := nodes[n], s.info[n];
    && |nd.keys| == |nd.values| == |nd.children|
    && StrictlyAscending(nd.keys)
    && (forall k :: k in nd.keys ==> AtOrAbove(inf.lo, k) && AtMost(k, inf.hi))
    && (forall b :: b in nd.children ==> b < |nodes| && b !in s.info)
    && (|nd.keys| < order || (ph == FullLeaf(n) && |nd.keys| == order))
  }

  /**
   * Child `i` of the internal node `n` sits one level lower, names `n` as
   * its parent and has the interval the separators around it give; while
   * `left` waits for its separator, its upper end is the separator and its
   * new sibling has the upper end `left` had.
   */
  ghost predicate ChildOk(nodes: seq<Node>, s: Shape, ph: Phase, n: nat, i: nat)
    requires n in s.info && n < |nodes|
    requires |nodes[n].children| == |nodes[n].keys| + 1 && i < |nodes[n].children|
  {
    var nd := nodes[n];
    var c := nd.children[i];
    && c in s.info
    && s.info[c].level + 1 == s.info[n].level
    && s.info[c].up == n
    && s.info[c].lo == ChildLo(nd, s.info[n].lo, i)
    && if ph.Promote? && c == ph.left then
         && ph.right in s.info
         && s.info[c].hi == Key(ph.sep)
         && s.info[ph.right].hi == ChildHi(nd, s.info[n].hi, i)
       else
         s.info[c].hi == ChildHi(nd, s.info[n].hi, i)
  }

  /**
   * An internal node: one more child than keys, distinct children, keys
   * strictly inside its interval and ascending, fewer than `order` of them
   * (or exactly `order`, non-decreasing, when it is about to be split).
   */
  ghost predicate InternalOk(nodes: seq<Node>, s: Shape, order: nat, ph: Phase, n: nat)
    requires n in s.info && n < |nodes|
  {
    var nd, inf := nodes[n], s.info[n];
    && |nd.children| == |nd.keys| + 1
    && (forall k :: k in nd.keys ==> Above(inf.lo, k) && AtMost(k, inf.hi))
    && ((|nd.keys| < order && StrictlyAscending(nd.keys)) ||
        (ph == FullInternal(n) && |nd.keys| == order && NonDecreasing(nd.keys) &&
         (order >= 3 ==> StrictlyAscending(nd.keys))))
    && (forall i, j :: 0 <= i < j < |nd.children| ==> nd.children[i] != nd.children[j])
    && (forall i :: 0 <= i < |nd.children| ==> ChildOk(nodes, s, ph, n, i))
  }

  /** Every tree node other than the root (and a sibling still waiting) is a child of its parent. */
  ghost predicate ParentsOk(nodes: seq<Node>, root: nat, s: Shape, ph: Phase)
    requires forall n :: n in s.info ==> n < |nodes|
  {
    forall c :: c in s.info && c != root && !(ph.Promote? && c == ph.right) ==>
      s.info[c].up in s.info && c in nodes[s.info[c].up].children && !nodes[s.info[c].up].isLeaf
  }

  /** The root spans all keys (its upper end passes to the sibling while the root itself is split). */
  ghost predicate RootOk(root: nat, s: Shape, ph: Phase)
    requires root in s.info
  {
    && s.info[root].lo == NegInf
    && (ph.Promote? && ph.left == root ==> ph.right in s.info && s.info[ph.right].hi == PosInf)
    && (!(ph.Promote? && ph.left == root) ==> s.info[root].hi == PosInf)
  }

  /**
   * The pending promotion: `left` and `right` are tree nodes of one level,
   * split at `sep`, which lies strictly above `left`'s lower end and (when
   * the order is at least 3) strictly below `right`'s upper end; `right`
   * is nobody's child yet.
   */
  ghost predicate PromoteOk(nodes: seq<Node>, root: nat, s: Shape, order: nat, ph: Phase)
    requires forall n :: n in s.info ==> n < |nodes|
  {
    ph.Promote? ==>
      && ph.left in s.info && ph.right in s.info
      && ph.left != ph.right && ph.right != root
      && s.info[ph.right].level == s.info[ph.left].level
      && s.info[ph.left].hi == Key(ph.sep)
      && s.info[ph.right].lo == Key(ph.sep)
      && Above(s.info[ph.left].lo, ph.sep)
      && AtMost(ph.sep, s.info[ph.right].hi)
      && (order >= 3 ==> Under(ph.sep, s.info[ph.right].hi))
      && (forall n :: n in s.info && !nodes[n].isLeaf ==> ph.right !in nodes[n].children)
  }

  /** The last element of a non-empty sequence. */
  function Last(c: seq<nat>): nat
    requires |c| > 0
  {
    c[|c| - 1]
  }

  /**
   * The leaf chain: every leaf exactly once, linked by `next`, with
   * adjacent intervals meeting, from minus infinity to plus infinity.
   */
  ghost predicate ChainOk(nodes: seq<Node>, s: Shape)
    requires forall n :: n in s.info ==> n < |nodes|
  {
    var c := s.chain;
    && |c| >= 1
    && (forall j :: 0 <= j < |c| ==> c[j] in s.info && s.info[c[j]].level == 0)
    && (forall j, k :: 0 <= j < k < |c| ==> c[j] != c[k])
    && (forall n :: n in s.info && s.info[n].level == 0 ==> n in c)
    && (forall j :: 0 <= j < |c| - 1 ==> nodes[c[j]].next == Some(c[j + 1]))
    && (forall j :: 0 <= j < |c| - 1 ==> s.info[c[j]].hi == s.info[c[j + 1]].lo)
    && nodes[Last(c)].next == None
    && s.info[c[0]].lo == NegInf
    && s.info[Last(c)].hi == PosInf
  }

  /** A key of a leaf and the bucket node holding its row ids. */
  datatype Slot = Slot(key: int, bucket: nat)

  /** The slots of one leaf, in key order. */
  function LeafSlots(nd: Node): (r: seq<Slot>)
    requires |nd.keys| == |nd.children|
    ensures |r| == |nd.keys|
    ensures forall i :: 0 <= i < |r| ==> r[i] == Slot(nd.keys[i], nd.children[i])
  {
    seq(|nd.keys|, i requires 0 <= i < |nd.keys| => Slot(nd.keys[i], nd.children[i]))
  }

  /** The leaves in `chain` have parallel key and child lists. */
  ghost predicate LeavesParallel(nodes: seq<Node>, chain: seq<nat>)
  {
    forall j :: 0 <= j < |chain| ==> chain[j] < |nodes| && |nodes[chain[j]].keys| == |nodes[chain[j]].children|
  }

  /** The slots of the leaves of `chain`, leaf after leaf. */
  function ChainSlots(nodes: seq<Node>, chain: seq<nat>): seq<Slot>
    requires LeavesParallel(nodes, chain)
  {
    if chain == [] then []
    else ChainSlots(nodes, chain[..|chain| - 1]) + LeafSlots(nodes[Last(chain)])
  }

  /** The bucket ids of a sequence of slots. */
  function Buckets(slots: seq<Slot>): (r: seq<int>)
    ensures |r| == |slots|
    ensures forall i :: 0 <= i < |r| ==> r[i] == slots[i].bucket
  {
    seq(|slots|, i requires 0 <= i < |slots| => slots[i].bucket)
  }

  /** The keys of a sequence of slots. */
  function SlotKeys(slots: seq<Slot>): (r: seq<int>)
    ensures |r| == |slots|
    ensures forall i :: 0 <= i < |r| ==> r[i] == slots[i].key
  {
    seq(|slots|, i requires 0 <= i < |slots| => slots[i].key)
  }

  /** The whole invariant, for the given phase. */
  ghost predicate Inv(nodes: seq<Node>, root: nat, s: Shape, order: nat, ph: Phase)
  {
    && order >= 2
    && Framed(nodes, root, s)
    && RootOk(root, s, ph)
    && (forall n :: n in s.info && s.info[n].level == 0 ==> LeafOk(nodes, s, order, ph, n))
    && (forall n :: n in s.info && s.info[n].level > 0 ==> InternalOk(nodes, s, order, ph, n))
    && ParentsOk(nodes, root, s, ph)
    && PromoteOk(nodes, root, s, order, ph)
    && ChainOk(nodes, s)
    && LeavesParallel(nodes, s.chain)
    && NoDuplicates(Buckets(ChainSlots(nodes, s.chain)))
  }
}
