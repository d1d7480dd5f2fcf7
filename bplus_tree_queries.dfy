/**
 * What the read operations of the B+ tree return, stated over the entries
 * the leaf chain holds: a range query selects the row ids of the entries
 * whose key satisfies the bounds, in chain order; an equality search is the
 * range `[key, key]`. The lemmas here let the scanning loops advance one
 * slot and one leaf at a time.
 */
module BPlusTreeQueries {
  import opened Common
  import opened BPlusTreeShape
  import opened BPlusTreeChain
  import opened BPlusTreeEntries

  /**
   * The bounds of `rangeQuery`: a missing bound does not constrain, and
   * its inclusiveness flag is then ignored.
   */
  datatype Range = Range(start: Option<int>, startInclusive: bool, end: Option<int>, endInclusive: bool)

  /** `k` passes both the lower and the upper bound of `r`. */
  predicate InRange(r: Range, k: int)
  {
    && (r.start.Some? ==> r.start.value < k || (r.startInclusive && k == r.start.value))
    && (r.end.Some? ==> k < r.end.value || (r.endInclusive && k == r.end.value))
  }

  /** The range holding exactly `key`. */
  function Point(key: int): (r: Range)
    ensures forall k :: InRange(r, k) <==> k == key
  {
    Range(Some(key), true, Some(key), true)
  }

  /** The row ids of the entries whose key lies in `r`, in the order of the entries. */
  function RowsWhere(es: seq<Entry>, r: Range): (rows: seq<int>)
    ensures |rows| <= |es|
    ensures forall x :: x in rows ==> exists e :: e in es && InRange(r, e.key) && e.row == x
  {
    if es == [] then []
    else
      var e := es[|es| - 1];
      RowsWhere(es[..|es| - 1], r) + (if InRange(r, e.key) then [e.row] else [])
  }

  /** Every entry in range contributes its row id: the converse of the contract of `RowsWhere`. */
  lemma {:induction false} RowsWhereComplete(es: seq<Entry>, r: Range, e: Entry)
    requires e in es && InRange(r, e.key)
    ensures e.row in RowsWhere(es, r)
    decreases |es|
  {
    var p := es[..|es| - 1];
    if e != es[|es| - 1] {
      assert e in p by {
        var i :| 0 <= i < |es| && es[i] == e;
        assert i < |es| - 1 && p[i] == e;
      }
      RowsWhereComplete(p, r, e);
    }
  }

  lemma {:induction false} RowsWhereAppend(a: seq<Entry>, b: seq<Entry>, r: Range)
    ensures RowsWhere(a + b, r) == RowsWhere(a, r) + RowsWhere(b, r)
    decreases |b|
  {
    if b == [] {
      assert a + b == a;
    } else {
      var b' := b[..|b| - 1];
      RowsWhereAppend(a, b', r);
      assert (a + b)[..|a + b| - 1] == a + b';
      assert (a + b)[|a + b| - 1] == b[|b| - 1];
    }
  }

  /** The entries of one slot are all in range or all out of it. */
  lemma {:induction false} RowsWhereSlot(key: int, rows: seq<int>, r: Range)
    ensures RowsWhere(SlotEntries(key, rows), r) == if InRange(r, key) then rows else []
    decreases |rows|
  {
    if rows != [] {
      var p := rows[..|rows| - 1];
      RowsWhereSlot(key, p, r);
      assert SlotEntries(key, rows)[..|rows| - 1] == SlotEntries(key, p);
    }
  }

  /** Slots whose keys are all out of range select nothing. */
  lemma {:induction false} RowsWhereNone(nodes: seq<Node>, slots: seq<Slot>, r: Range)
    requires BucketsIn(nodes, slots)
    requires forall i :: 0 <= i < |slots| ==> !InRange(r, slots[i].key)
    ensures RowsWhere(Entries(nodes, slots), r) == []
    decreases |slots|
  {
    if slots != [] {
      var p := slots[..|slots| - 1];
      var last := slots[|slots| - 1];
      assert BucketsIn(nodes, p);
      RowsWhereNone(nodes, p, r);
      RowsWhereAppend(Entries(nodes, p), SlotEntries(last.key, nodes[last.bucket].values), r);
      RowsWhereSlot(last.key, nodes[last.bucket].values, r);
    }
  }

  /** Reading one more slot of a leaf. */
  lemma ScanSlotStep(nodes: seq<Node>, slots: seq<Slot>, i: nat, r: Range)
    requires BucketsIn(nodes, slots) && i < |slots|
    ensures BucketsIn(nodes, slots[..i]) && BucketsIn(nodes, slots[..i + 1])
    ensures RowsWhere(Entries(nodes, slots[..i + 1]), r) ==
      RowsWhere(Entries(nodes, slots[..i]), r) +
        (if InRange(r, slots[i].key) then nodes[slots[i].bucket].values else [])
  {
    var q := slots[..i + 1];
    assert BucketsIn(nodes, q);
    assert q[..i] == slots[..i];
    RowsWhereAppend(Entries(nodes, slots[..i]), SlotEntries(slots[i].key, nodes[slots[i].bucket].values), r);
    RowsWhereSlot(slots[i].key, nodes[slots[i].bucket].values, r);
  }

  /** The first `j` leaves of a readable chain are readable, and their slots begin the chain's. */
  lemma ChainPrefix(nodes: seq<Node>, chain: seq<nat>, j: nat)
    requires LeavesParallel(nodes, chain) && BucketsIn(nodes, ChainSlots(nodes, chain))
    requires j <= |chain|
    ensures LeavesParallel(nodes, chain[..j])
    ensures BucketsIn(nodes, ChainSlots(nodes, chain[..j]))
    ensures |ChainSlots(nodes, chain[..j])| <= |ChainSlots(nodes, chain)|
    ensures ChainSlots(nodes, chain[..j]) == ChainSlots(nodes, chain)[..|ChainSlots(nodes, chain[..j])|]
  {
    assert chain == chain[..j] + chain[j..];
    assert LeavesParallel(nodes, chain[..j]) by {
      assert forall i :: 0 <= i < j ==> chain[..j][i] == chain[i];
    }
    assert LeavesParallel(nodes, chain[j..]) by {
      assert forall i :: 0 <= i < |chain| - j ==> chain[j..][i] == chain[j + i];
    }
    ChainSlotsAppend(nodes, chain[..j], chain[j..]);
    var a, all := ChainSlots(nodes, chain[..j]), ChainSlots(nodes, chain);
    assert forall i :: 0 <= i < |a| ==> a[i] == all[i];
  }

  /**
   * Reading one more leaf of the chain: the rows selected from the first
   * `j + 1` leaves are those of the first `j` leaves followed by those of
   * leaf `j`.
   */
  lemma ScanLeafStep(nodes: seq<Node>, chain: seq<nat>, j: nat, r: Range)
    requires LeavesParallel(nodes, chain) && BucketsIn(nodes, ChainSlots(nodes, chain))
    requires j < |chain|
    ensures LeavesParallel(nodes, chain[..j]) && BucketsIn(nodes, ChainSlots(nodes, chain[..j]))
    ensures LeavesParallel(nodes, chain[..j + 1]) && BucketsIn(nodes, ChainSlots(nodes, chain[..j + 1]))
    ensures BucketsIn(nodes, LeafSlots(nodes[chain[j]]))
    ensures RowsWhere(Entries(nodes, ChainSlots(nodes, chain[..j + 1])), r) ==
      RowsWhere(Entries(nodes, ChainSlots(nodes, chain[..j])), r) +
        RowsWhere(Entries(nodes, LeafSlots(nodes[chain[j]])), r)
  {
    ChainPrefix(nodes, chain, j);
    ChainPrefix(nodes, chain, j + 1);
    var c := chain[..j + 1];
    assert c[..j] == chain[..j];
    assert Last(c) == chain[j];
    var a, b := ChainSlots(nodes, chain[..j]), LeafSlots(nodes[chain[j]]);
    assert ChainSlots(nodes, c) == a + b;
    assert BucketsIn(nodes, b) by {
      forall i | 0 <= i < |b|
        ensures b[i].bucket < |nodes|
      {
        assert (a + b)[|a| + i] == b[i];
      }
    }
    EntriesAppend(nodes, a, b);
    RowsWhereAppend(Entries(nodes, a), Entries(nodes, b), r);
  }

  /** Every slot in the first `j0` leaves holds a key below the lower end of leaf `j0`, when that end is finite. */
  lemma SlotsBeforeLeaf(nodes: seq<Node>, root: nat, s: Shape, order: nat, ph: Phase, j0: nat, g: nat)
    requires Inv(nodes, root, s, order, ph)
    requires j0 < |s.chain|
    requires LeavesParallel(nodes, s.chain[..j0]) && g < |ChainSlots(nodes, s.chain[..j0])|
    ensures AtMost(ChainSlots(nodes, s.chain[..j0])[g].key, s.info[s.chain[j0]].lo)
  {
    var c := s.chain[..j0];
    var k, i := SlotFromChain(nodes, c, g);
    assert c[k] == s.chain[k];
    assert nodes[s.chain[k]].keys[i] in nodes[s.chain[k]].keys;
    KeyBeforeLeaf(nodes, root, s, order, ph, k, j0, nodes[s.chain[k]].keys[i]);
  }

  /**
   * A range with a lower bound selects nothing from the leaves before the
   * leaf the descent for that bound reaches.
   */
  lemma NothingBefore(nodes: seq<Node>, root: nat, s: Shape, order: nat, ph: Phase, j0: nat, r: Range)
    requires Inv(nodes, root, s, order, ph) && BucketsIn(nodes, ChainSlots(nodes, s.chain))
    requires j0 < |s.chain| && r.start.Some? && Above(s.info[s.chain[j0]].lo, r.start.value)
    ensures LeavesParallel(nodes, s.chain[..j0]) && BucketsIn(nodes, ChainSlots(nodes, s.chain[..j0]))
    ensures RowsWhere(Entries(nodes, ChainSlots(nodes, s.chain[..j0])), r) == []
  {
    ChainPrefix(nodes, s.chain, j0);
    var slots := ChainSlots(nodes, s.chain[..j0]);
    if j0 > 0 {
      LaterLeavesBounded(nodes, root, s, order, ph);
      forall g | 0 <= g < |slots|
        ensures !InRange(r, slots[g].key)
      {
        SlotsBeforeLeaf(nodes, root, s, order, ph, j0, g);
      }
      RowsWhereNone(nodes, slots, r);
    }
  }

  /**
   * A slot of the chain with key `key` lies either in the leaf `j` whose
   * interval `(lo, hi]` holds `key`, or in a later leaf whose lower end is
   * `key` itself.
   */
  lemma WhereKeyLives(nodes: seq<Node>, root: nat, s: Shape, order: nat, ph: Phase, j: nat, key: int, g: nat)
    returns (k: nat, i: nat)
    requires Inv(nodes, root, s, order, ph)
    requires j < |s.chain| && Above(s.info[s.chain[j]].lo, key) && AtMost(key, s.info[s.chain[j]].hi)
    requires g < |ChainSlots(nodes, s.chain)| && ChainSlots(nodes, s.chain)[g].key == key
    ensures k < |s.chain| && i < |nodes[s.chain[k]].keys| && nodes[s.chain[k]].keys[i] == key
    ensures LeavesParallel(nodes, s.chain[..k]) && g == |ChainSlots(nodes, s.chain[..k])| + i
    ensures k == j || (j < k && s.info[s.chain[k]].lo == Key(key))
  {
    k, i := SlotFromChain(nodes, s.chain, g);
    var n := s.chain[k];
    assert LeafOk(nodes, s, order, ph, n);
    assert nodes[n].keys[i] in nodes[n].keys;
    if k != j {
      LaterLeavesBounded(nodes, root, s, order, ph);
      assert ChainIntervals(s);
      KeyElsewhere(s, j, k, key);
    }
  }

  /**
   * A key inside leaf `j`'s interval `(lo, hi]` that also lies in leaf
   * `k`'s `[lo, hi]` can only be the lower end of a later leaf.
   */
  lemma KeyElsewhere(s: Shape, j: nat, k: nat, key: int)
    requires ChainIntervals(s) && forall m :: 0 < m < |s.chain| ==> s.info[s.chain[m]].lo != NegInf
    requires j < |s.chain| && k < |s.chain| && j != k
    requires Above(s.info[s.chain[j]].lo, key) && AtMost(key, s.info[s.chain[j]].hi)
    requires AtOrAbove(s.info[s.chain[k]].lo, key) && AtMost(key, s.info[s.chain[k]].hi)
    ensures j < k && s.info[s.chain[k]].lo == Key(key)
  {
    if k < j {
      IntervalsOrdered(s, k, j);
      assert false;
    }
    IntervalsOrdered(s, j, k);
  }

  /**
   * One step of `findLeafNode`: below an internal node whose interval holds
   * `key`, the child at the key's position is one level lower and its
   * interval still holds `key`.
   */
  lemma DescendStep(nodes: seq<Node>, root: nat, s: Shape, order: nat, n: nat, key: int, pos: nat)
    requires Inv(nodes, root, s, order, Settled)
    requires n in s.info && n < |nodes| && !nodes[n].isLeaf
    requires Above(s.info[n].lo, key) && AtMost(key, s.info[n].hi)
    requires IsPosition(nodes[n].keys, key, pos)
    ensures pos < |nodes[n].children| && nodes[n].children[pos] in s.info
    ensures s.info[nodes[n].children[pos]].level < s.info[n].level
    ensures Above(s.info[nodes[n].children[pos]].lo, key) && AtMost(key, s.info[nodes[n].children[pos]].hi)
  {
    assert InternalOk(nodes, s, order, Settled, n);
    assert ChildOk(nodes, s, Settled, n, pos);
  }

  /** Where `findPosition` stops in ascending keys, `key` is present exactly when it is found there. */
  lemma PositionFinds(keys: seq<int>, key: int, pos: nat)
    requires StrictlyAscending(keys) && IsPosition(keys, key, pos)
    ensures key in keys <==> pos < |keys| && keys[pos] == key
  {
    if key in keys {
      var i :| 0 <= i < |keys| && keys[i] == key;
      if pos < i {
        assert false;
      }
    }
  }

  /**
   * `key` is the lower end of some leaf other than the first: a separator
   * that a leaf split copied up. The descent for such a key stops at the
   * leaf to the left of the one that starts with it.
   */
  ghost predicate LowerEnd(s: Shape, key: int)
  {
    exists k :: 0 < k < |s.chain| && s.chain[k] in s.info && s.info[s.chain[k]].lo == Key(key)
  }

  /** No slot before `g` in range: the slots before it select nothing. */
  lemma NoneBefore(nodes: seq<Node>, slots: seq<Slot>, g: nat, r: Range)
    requires BucketsIn(nodes, slots) && g < |slots|
    requires forall h :: 0 <= h < g ==> !InRange(r, slots[h].key)
    ensures RowsWhere(Entries(nodes, slots[..g]), r) == []
  {
    var pre := slots[..g];
    assert forall h :: 0 <= h < |pre| ==> pre[h] == slots[h];
    RowsWhereNone(nodes, pre, r);
  }

  /** No slot after `g` in range: the slots after it select nothing. */
  lemma NoneAfter(nodes: seq<Node>, slots: seq<Slot>, g: nat, r: Range)
    requires BucketsIn(nodes, slots) && g < |slots|
    requires forall h :: g < h < |slots| ==> !InRange(r, slots[h].key)
    ensures RowsWhere(Entries(nodes, slots[g + 1..]), r) == []
  {
    var post := slots[g + 1..];
    assert forall h :: 0 <= h < |post| ==> post[h] == slots[g + 1 + h];
    RowsWhereNone(nodes, post, r);
  }

  /** Only the slot at `g` holds `key`. */
  lemma OnlySlot(nodes: seq<Node>, slots: seq<Slot>, g: nat, r: Range)
    requires BucketsIn(nodes, slots) && g < |slots|
    requires forall h :: 0 <= h < |slots| && h != g ==> !InRange(r, slots[h].key)
    ensures RowsWhere(Entries(nodes, slots), r) ==
      if InRange(r, slots[g].key) then nodes[slots[g].bucket].values else []
  {
    EntriesAt(nodes, slots, g);
    var pre, post := slots[..g], slots[g + 1..];
    NoneBefore(nodes, slots, g, r);
    NoneAfter(nodes, slots, g, r);
    var mid := SlotEntries(slots[g].key, nodes[slots[g].bucket].values);
    RowsWhereAppend(Entries(nodes, pre), mid, r);
    RowsWhereAppend(Entries(nodes, pre) + mid, Entries(nodes, post), r);
    RowsWhereSlot(slots[g].key, nodes[slots[g].bucket].values, r);
  }

  /** Where a key that is no leaf's lower end sits in the chain: in the leaf reached for it, at `pos`. */
  lemma KeyOnlyAt(nodes: seq<Node>, root: nat, s: Shape, order: nat, j: nat, key: int, pos: nat, h: nat)
    requires Inv(nodes, root, s, order, Settled) && !LowerEnd(s, key)
    requires j < |s.chain| && Above(s.info[s.chain[j]].lo, key) && AtMost(key, s.info[s.chain[j]].hi)
    requires pos < |nodes[s.chain[j]].keys| && nodes[s.chain[j]].keys[pos] == key
    requires h < |ChainSlots(nodes, s.chain)| && ChainSlots(nodes, s.chain)[h].key == key
    ensures LeavesParallel(nodes, s.chain[..j]) && h == |ChainSlots(nodes, s.chain[..j])| + pos
  {
    var k, i := WhereKeyLives(nodes, root, s, order, Settled, j, key, h);
    assert LeafOk(nodes, s, order, Settled, s.chain[j]);
  }

  /** A key that is no leaf's lower end has one slot in the chain. */
  lemma KeyUnique(nodes: seq<Node>, root: nat, s: Shape, order: nat, j: nat, key: int, pos: nat)
    requires Inv(nodes, root, s, order, Settled) && !LowerEnd(s, key)
    requires j < |s.chain| && Above(s.info[s.chain[j]].lo, key) && AtMost(key, s.info[s.chain[j]].hi)
    requires pos < |nodes[s.chain[j]].keys| && nodes[s.chain[j]].keys[pos] == key
    requires LeavesParallel(nodes, s.chain[..j])
    ensures forall h :: 0 <= h < |ChainSlots(nodes, s.chain)| && h != |ChainSlots(nodes, s.chain[..j])| + pos ==>
      !InRange(Point(key), ChainSlots(nodes, s.chain)[h].key)
  {
    var slots := ChainSlots(nodes, s.chain);
    forall h | 0 <= h < |slots| && h != |ChainSlots(nodes, s.chain[..j])| + pos
      ensures !InRange(Point(key), slots[h].key)
    {
      if slots[h].key == key {
        KeyOnlyAt(nodes, root, s, order, j, key, pos, h);
      }
    }
  }

  /** The slot `search` finds, as an index into the chain's slots. */
  lemma FoundSlot(nodes: seq<Node>, chain: seq<nat>, j: nat, key: int, pos: nat)
    requires LeavesParallel(nodes, chain) && BucketsIn(nodes, ChainSlots(nodes, chain))
    requires j < |chain| && pos < |nodes[chain[j]].keys| && nodes[chain[j]].keys[pos] == key
    ensures LeavesParallel(nodes, chain[..j])
    ensures |nodes[chain[j]].children| == |nodes[chain[j]].keys|
    ensures |ChainSlots(nodes, chain[..j])| + pos < |ChainSlots(nodes, chain)|
    ensures ChainSlots(nodes, chain)[|ChainSlots(nodes, chain[..j])| + pos] == Slot(key, nodes[chain[j]].children[pos])
    ensures nodes[chain[j]].children[pos] < |nodes|
  {
    SlotInChain(nodes, chain, j, pos);
  }

  /** Every row of the bucket of slot `g` is an entry with the slot's key. */
  lemma SlotRowsAreEntries(nodes: seq<Node>, slots: seq<Slot>, g: nat)
    requires BucketsIn(nodes, slots) && g < |slots|
    ensures forall x :: x in nodes[slots[g].bucket].values ==> Entry(slots[g].key, x) in Entries(nodes, slots)
  {
    EntriesAt(nodes, slots, g);
    var b := slots[g].bucket;
    var mid := SlotEntries(slots[g].key, nodes[b].values);
    forall x | x in nodes[b].values
      ensures Entry(slots[g].key, x) in Entries(nodes, slots)
    {
      var i :| 0 <= i < |nodes[b].values| && nodes[b].values[i] == x;
      assert mid[i] == Entry(slots[g].key, x);
      assert Entries(nodes, slots)[|Entries(nodes, slots[..g])| + i] == Entry(slots[g].key, x);
    }
  }

  /** The rows of the slot holding `key`: entries with that key, and all of them when no other slot has it. */
  lemma HitRows(nodes: seq<Node>, slots: seq<Slot>, g: nat, key: int, b: nat)
    requires BucketsIn(nodes, slots) && g < |slots| && slots[g] == Slot(key, b)
    ensures forall x :: x in nodes[b].values ==> Entry(key, x) in Entries(nodes, slots)
    ensures (forall h :: 0 <= h < |slots| && h != g ==> !InRange(Point(key), slots[h].key)) ==>
      RowsWhere(Entries(nodes, slots), Point(key)) == nodes[b].values
  {
    SlotRowsAreEntries(nodes, slots, g);
    if forall h :: 0 <= h < |slots| && h != g ==> !InRange(Point(key), slots[h].key) {
      OnlySlot(nodes, slots, g, Point(key));
    }
  }

  /** `HitRows` for the slot at `pos` of the `j`-th leaf of the chain. */
  lemma HitInChain(nodes: seq<Node>, chain: seq<nat>, j: nat, key: int, pos: nat)
    requires LeavesParallel(nodes, chain) && BucketsIn(nodes, ChainSlots(nodes, chain))
    requires j < |chain| && pos < |nodes[chain[j]].keys| && nodes[chain[j]].keys[pos] == key
    ensures LeavesParallel(nodes, chain[..j])
    ensures |nodes[chain[j]].children| == |nodes[chain[j]].keys| && nodes[chain[j]].children[pos] < |nodes|
    ensures forall x :: x in nodes[nodes[chain[j]].children[pos]].values ==>
      Entry(key, x) in Entries(nodes, ChainSlots(nodes, chain))
    ensures (forall h :: 0 <= h < |ChainSlots(nodes, chain)| && h != |ChainSlots(nodes, chain[..j])| + pos ==>
        !InRange(Point(key), ChainSlots(nodes, chain)[h].key)) ==>
      RowsWhere(Entries(nodes, ChainSlots(nodes, chain)), Point(key)) == nodes[nodes[chain[j]].children[pos]].values
  {
    FoundSlot(nodes, chain, j, key, pos);
    HitRows(nodes, ChainSlots(nodes, chain), |ChainSlots(nodes, chain[..j])| + pos, key, nodes[chain[j]].children[pos]);
  }

  /**
   * `search` finding `key` at `pos` of the reached leaf: every row of its
   * bucket is an entry with that key, and when `key` is no leaf's lower
   * end they are all the rows with that key.
   */
  lemma SearchHit(nodes: seq<Node>, root: nat, s: Shape, order: nat, j: nat, key: int, pos: nat)
    requires Inv(nodes, root, s, order, Settled) && BucketsIn(nodes, ChainSlots(nodes, s.chain))
    requires j < |s.chain| && Above(s.info[s.chain[j]].lo, key) && AtMost(key, s.info[s.chain[j]].hi)
    requires pos < |nodes[s.chain[j]].keys| && nodes[s.chain[j]].keys[pos] == key
    ensures |nodes[s.chain[j]].children| == |nodes[s.chain[j]].keys| && nodes[s.chain[j]].children[pos] < |nodes|
    ensures forall x :: x in nodes[nodes[s.chain[j]].children[pos]].values ==>
      Entry(key, x) in Entries(nodes, ChainSlots(nodes, s.chain))
    ensures !LowerEnd(s, key) ==>
      RowsWhere(Entries(nodes, ChainSlots(nodes, s.chain)), Point(key)) == nodes[nodes[s.chain[j]].children[pos]].values
  {
    HitInChain(nodes, s.chain, j, key, pos);
    if !LowerEnd(s, key) {
      KeyUnique(nodes, root, s, order, j, key, pos);
    }
  }

  /** `search` missing `key` in the reached leaf: no entry has it, unless `key` is some leaf's lower end. */
  lemma SearchMiss(nodes: seq<Node>, root: nat, s: Shape, order: nat, j: nat, key: int, pos: nat)
    requires Inv(nodes, root, s, order, Settled) && BucketsIn(nodes, ChainSlots(nodes, s.chain))
    requires j < |s.chain| && Above(s.info[s.chain[j]].lo, key) && AtMost(key, s.info[s.chain[j]].hi)
    requires IsPosition(nodes[s.chain[j]].keys, key, pos)
    requires !(pos < |nodes[s.chain[j]].keys| && nodes[s.chain[j]].keys[pos] == key)
    requires !LowerEnd(s, key)
    ensures RowsWhere(Entries(nodes, ChainSlots(nodes, s.chain)), Point(key)) == []
  {
    var n := s.chain[j];
    assert LeafOk(nodes, s, order, Settled, n);
    PositionFinds(nodes[n].keys, key, pos);
    var slots := ChainSlots(nodes, s.chain);
    forall h | 0 <= h < |slots|
      ensures !InRange(Point(key), slots[h].key)
    {
      if slots[h].key == key {
        var k, i := WhereKeyLives(nodes, root, s, order, Settled, j, key, h);
      }
    }
    RowsWhereNone(nodes, slots, Point(key));
  }

  /** The leaves of `chain` are linked by `next` in chain order, and every bucket they name is in the arena. */
  ghost predicate ChainReadable(nodes: seq<Node>, chain: seq<nat>)
  {
    && |chain| >= 1
    && LeavesParallel(nodes, chain)
    && BucketsIn(nodes, ChainSlots(nodes, chain))
    && (forall k :: 0 <= k < |chain| - 1 ==> nodes[chain[k]].next == Some(chain[k + 1]))
    && nodes[Last(chain)].next == None
  }

  /** A scan that has passed every leaf has read the whole chain. */
  lemma ScanDone(chain: seq<nat>, j: nat)
    requires j == |chain|
    ensures chain[..j] == chain
  {
  }

  /** The leaf after the `j`-th along `next`: the next one of the chain, or none after the last. */
  lemma NextLeaf(nodes: seq<Node>, chain: seq<nat>, j: nat)
    requires ChainReadable(nodes, chain) && j < |chain|
    ensures nodes[chain[j]].next == if j + 1 < |chain| then Some(chain[j + 1]) else None
  {
    if j + 1 == |chain| {
      assert chain[j] == Last(chain);
    }
  }

  lemma InvReadable(nodes: seq<Node>, root: nat, s: Shape, order: nat, ph: Phase)
    requires Inv(nodes, root, s, order, ph) && BucketsIn(nodes, ChainSlots(nodes, s.chain))
    ensures ChainReadable(nodes, s.chain)
  {
  }

  /** The slots of the first `j + 1` leaves: those of the first `j`, then those of leaf `j`. */
  lemma ChainSlotsStep(nodes: seq<Node>, chain: seq<nat>, j: nat)
    requires LeavesParallel(nodes, chain) && j < |chain|
    ensures LeavesParallel(nodes, chain[..j]) && LeavesParallel(nodes, chain[..j + 1])
    ensures ChainSlots(nodes, chain[..j + 1]) == ChainSlots(nodes, chain[..j]) + LeafSlots(nodes[chain[j]])
  {
    var c := chain[..j + 1];
    assert forall i :: 0 <= i < |c| ==> c[i] == chain[i];
    assert c[..j] == chain[..j];
  }

  /** The keys of two runs of slots, one after the other. */
  lemma SlotKeysAppend(a: seq<Slot>, b: seq<Slot>)
    ensures SlotKeys(a + b) == SlotKeys(a) + SlotKeys(b)
  {
    var ks := SlotKeys(a + b);
    assert forall i :: 0 <= i < |a| ==> ks[i] == SlotKeys(a)[i];
    assert forall i :: 0 <= i < |b| ==> ks[|a| + i] == SlotKeys(b)[i];
  }

  /** The keys read from the first `j + 1` leaves: those of the first `j`, then those of leaf `j`. */
  lemma ChainKeysStep(nodes: seq<Node>, chain: seq<nat>, j: nat)
    requires LeavesParallel(nodes, chain) && j < |chain|
    ensures LeavesParallel(nodes, chain[..j]) && LeavesParallel(nodes, chain[..j + 1])
    ensures SlotKeys(ChainSlots(nodes, chain[..j + 1])) == SlotKeys(ChainSlots(nodes, chain[..j])) + nodes[chain[j]].keys
  {
    ChainSlotsStep(nodes, chain, j);
    var b := LeafSlots(nodes[chain[j]]);
    SlotKeysAppend(ChainSlots(nodes, chain[..j]), b);
    assert SlotKeys(b) == nodes[chain[j]].keys;
  }
}
