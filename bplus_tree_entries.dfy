/**
 * What the index holds: the (key, row id) entries read along the leaf
 * chain, key by key, each key's row ids in the order its bucket lists them.
 */
module BPlusTreeEntries {
  import opened BPlusTreeShape

  /** One inserted pair. */
  datatype Entry = Entry(key: int, row: int)

  /** The entries of one slot: its key paired with each row id of its bucket. */
  function SlotEntries(key: int, rows: seq<int>): (r: seq<Entry>)
    ensures |r| == |rows|
    ensures forall i :: 0 <= i < |r| ==> r[i] == Entry(key, rows[i])
  {
    seq(|rows|, i requires 0 <= i < |rows| => Entry(key, rows[i]))
  }

  /** Every slot's bucket is an arena node. */
  ghost predicate BucketsIn(nodes: seq<Node>, slots: seq<Slot>)
  {
    forall i :: 0 <= i < |slots| ==> slots[i].bucket < |nodes|
  }

  /** The entries of a sequence of slots, slot after slot. */
  ghost function Entries(nodes: seq<Node>, slots: seq<Slot>): seq<Entry>
    requires BucketsIn(nodes, slots)
  {
    if slots == [] then []
    else
      var last := slots[|slots| - 1];
      Entries(nodes, slots[..|slots| - 1]) + SlotEntries(last.key, nodes[last.bucket].values)
  }

  lemma {:induction false} EntriesAppend(nodes: seq<Node>, a: seq<Slot>, b: seq<Slot>)
    requires BucketsIn(nodes, a) && BucketsIn(nodes, b)
    ensures BucketsIn(nodes, a + b)
    ensures Entries(nodes, a + b) == Entries(nodes, a) + Entries(nodes, b)
    decreases |b|
  {
    assert BucketsIn(nodes, a + b) by {
      forall i | 0 <= i < |a + b|
        ensures (a + b)[i].bucket < |nodes|
      {
        if i >= |a| {
          assert (a + b)[i] == b[i - |a|];
        }
      }
    }
    if b == [] {
      assert a + b == a;
    } else {
      var b' := b[..|b| - 1];
      var last := b[|b| - 1];
      assert BucketsIn(nodes, b');
      EntriesAppend(nodes, a, b');
      assert (a + b)[..|a + b| - 1] == a + b';
      assert (a + b)[|a + b| - 1] == last;
      var e := SlotEntries(last.key, nodes[last.bucket].values);
      assert Entries(nodes, a + b) == Entries(nodes, a + b') + e;
      assert Entries(nodes, b) == Entries(nodes, b') + e;
    }
  }

  lemma {:induction false} EntriesSingle(nodes: seq<Node>, x: Slot)
    requires x.bucket < |nodes|
    ensures BucketsIn(nodes, [x])
    ensures Entries(nodes, [x]) == SlotEntries(x.key, nodes[x.bucket].values)
  {
    assert [x][..0] == [];
  }

  /** Entries read only the buckets of the slots. */
  lemma {:induction false} EntriesFrame(nodes: seq<Node>, nodes': seq<Node>, slots: seq<Slot>)
    requires BucketsIn(nodes, slots) && BucketsIn(nodes', slots)
    requires forall i :: 0 <= i < |slots| ==> nodes'[slots[i].bucket].values == nodes[slots[i].bucket].values
    ensures Entries(nodes', slots) == Entries(nodes, slots)
    decreases |slots|
  {
    if slots != [] {
      var p := slots[..|slots| - 1];
      assert BucketsIn(nodes, p) && BucketsIn(nodes', p);
      assert forall i :: 0 <= i < |p| ==> p[i] == slots[i];
      EntriesFrame(nodes, nodes', p);
    }
  }

  /** Splitting the slots at `g`. */
  lemma {:induction false} EntriesAt(nodes: seq<Node>, slots: seq<Slot>, g: nat)
    requires BucketsIn(nodes, slots) && g < |slots|
    ensures BucketsIn(nodes, slots[..g]) && BucketsIn(nodes, slots[g + 1..])
    ensures Entries(nodes, slots) ==
      Entries(nodes, slots[..g]) + SlotEntries(slots[g].key, nodes[slots[g].bucket].values)
        + Entries(nodes, slots[g + 1..])
  {
    var pre, post := slots[..g], slots[g + 1..];
    assert slots == pre + [slots[g]] + post;
    assert BucketsIn(nodes, pre) by {
      assert forall i :: 0 <= i < |pre| ==> pre[i] == slots[i];
    }
    assert BucketsIn(nodes, post) by {
      assert forall i :: 0 <= i < |post| ==> post[i] == slots[g + 1 + i];
    }
    EntriesSingle(nodes, slots[g]);
    EntriesAppend(nodes, pre, [slots[g]]);
    EntriesAppend(nodes, pre + [slots[g]], post);
  }

  /**
   * A fresh slot whose bucket holds just `row`, inserted among slots whose
   * buckets keep their rows, adds exactly the entry (key, row).
   */
  lemma EntriesInsertSlot(nodes: seq<Node>, nodes': seq<Node>, slots: seq<Slot>, g: nat, key: int, row: int)
    requires BucketsIn(nodes, slots) && g <= |slots|
    requires |nodes'| > |nodes| && nodes'[|nodes|].values == [row]
    requires forall i :: 0 <= i < |slots| ==> nodes'[slots[i].bucket].values == nodes[slots[i].bucket].values
    ensures BucketsIn(nodes', InsertAt(slots, g, Slot(key, |nodes|)))
    ensures multiset(Entries(nodes', InsertAt(slots, g, Slot(key, |nodes|)))) ==
      multiset(Entries(nodes, slots)) + multiset{Entry(key, row)}
  {
    EntriesInsertParts(nodes, nodes', slots, g, key, row);
    assert InsertAt(slots, g, Slot(key, |nodes|)) == slots[..g] + [Slot(key, |nodes|)] + slots[g..];
    EntriesCut(nodes, slots, g);
    MultisetGrowsBetween(Entries(nodes, slots[..g]), Entries(nodes, slots[g..]), Entry(key, row));
  }

  /** The entries after inserting the fresh slot at `g`: those of the slots before, the new entry, those after. */
  lemma EntriesInsertParts(nodes: seq<Node>, nodes': seq<Node>, slots: seq<Slot>, g: nat, key: int, row: int)
    requires BucketsIn(nodes, slots) && g <= |slots|
    requires |nodes'| > |nodes| && nodes'[|nodes|].values == [row]
    requires forall i :: 0 <= i < |slots| ==> nodes'[slots[i].bucket].values == nodes[slots[i].bucket].values
    ensures BucketsIn(nodes, slots[..g]) && BucketsIn(nodes, slots[g..])
    ensures BucketsIn(nodes', slots[..g] + [Slot(key, |nodes|)] + slots[g..])
    ensures Entries(nodes', slots[..g] + [Slot(key, |nodes|)] + slots[g..]) ==
      Entries(nodes, slots[..g]) + [Entry(key, row)] + Entries(nodes, slots[g..])
  {
    var x := Slot(key, |nodes|);
    EntriesCut(nodes, slots, g);
    EntriesFrameCut(nodes, nodes', slots, g);
    EntriesAround(nodes', slots[..g], x, slots[g..]);
    assert SlotEntries(key, [row]) == [Entry(key, row)];
  }

  /** Both parts of the slots cut at `g` read the same entries in both arenas when their buckets agree. */
  lemma EntriesFrameCut(nodes: seq<Node>, nodes': seq<Node>, slots: seq<Slot>, g: nat)
    requires BucketsIn(nodes, slots) && g <= |slots| && |nodes'| >= |nodes|
    requires forall i :: 0 <= i < |slots| ==> nodes'[slots[i].bucket].values == nodes[slots[i].bucket].values
    ensures BucketsIn(nodes, slots[..g]) && BucketsIn(nodes', slots[..g])
    ensures BucketsIn(nodes, slots[g..]) && BucketsIn(nodes', slots[g..])
    ensures Entries(nodes', slots[..g]) == Entries(nodes, slots[..g])
    ensures Entries(nodes', slots[g..]) == Entries(nodes, slots[g..])
  {
    var pre, post := slots[..g], slots[g..];
    assert forall i :: 0 <= i < |pre| ==> pre[i] == slots[i];
    assert forall i :: 0 <= i < |post| ==> post[i] == slots[g + i];
    EntriesFrame(nodes, nodes', pre);
    EntriesFrame(nodes, nodes', post);
  }

  /** The entries of one slot placed between two runs of slots. */
  lemma EntriesAround(nodes: seq<Node>, a: seq<Slot>, x: Slot, b: seq<Slot>)
    requires BucketsIn(nodes, a) && BucketsIn(nodes, b) && x.bucket < |nodes|
    ensures BucketsIn(nodes, a + [x] + b)
    ensures Entries(nodes, a + [x] + b) == Entries(nodes, a) + SlotEntries(x.key, nodes[x.bucket].values) + Entries(nodes, b)
  {
    EntriesSingle(nodes, x);
    EntriesAppend(nodes, a, [x]);
    EntriesAppend(nodes, a + [x], b);
  }

  /** One more element between two parts adds it to the multiset of the whole. */
  lemma MultisetGrowsBetween<T>(a: seq<T>, b: seq<T>, e: T)
    ensures multiset(a + [e] + b) == multiset(a + b) + multiset{e}
  {
  }

  /** The entries of the slots are those before `g` followed by those from `g` on. */
  lemma EntriesCut(nodes: seq<Node>, slots: seq<Slot>, g: nat)
    requires BucketsIn(nodes, slots) && g <= |slots|
    ensures BucketsIn(nodes, slots[..g]) && BucketsIn(nodes, slots[g..])
    ensures Entries(nodes, slots) == Entries(nodes, slots[..g]) + Entries(nodes, slots[g..])
  {
    var pre, post := slots[..g], slots[g..];
    assert slots == pre + post;
    assert BucketsIn(nodes, pre) by {
      assert forall i :: 0 <= i < |pre| ==> pre[i] == slots[i];
    }
    assert BucketsIn(nodes, post) by {
      assert forall i :: 0 <= i < |post| ==> post[i] == slots[g + i];
    }
    EntriesAppend(nodes, pre, post);
  }

  /**
   * Appending `row` to the bucket of slot `g`, whose bucket no other slot
   * shares, adds exactly the entry (key of slot g, row).
   */
  lemma {:induction false} EntriesAppendRow(nodes: seq<Node>, nodes': seq<Node>, slots: seq<Slot>, g: nat, row: int)
    requires BucketsIn(nodes, slots) && g < |slots|
    requires |nodes'| == |nodes|
    requires nodes'[slots[g].bucket].values == nodes[slots[g].bucket].values + [row]
    requires forall i :: 0 <= i < |slots| && i != g ==> slots[i].bucket != slots[g].bucket
    requires forall m :: 0 <= m < |nodes| && m != slots[g].bucket ==> nodes'[m] == nodes[m]
    ensures BucketsIn(nodes', slots)
    ensures multiset(Entries(nodes', slots)) == multiset(Entries(nodes, slots)) + multiset{Entry(slots[g].key, row)}
  {
    var b := slots[g].bucket;
    EntriesAt(nodes, slots, g);
    EntriesAt(nodes', slots, g);
    EntriesAroundKept(nodes, nodes', slots, g);
    var rows := nodes[b].values;
    var e := Entry(slots[g].key, row);
    assert SlotEntries(slots[g].key, rows + [row]) == SlotEntries(slots[g].key, rows) + [e];
    MultisetGrowsInside(Entries(nodes, slots[..g]), SlotEntries(slots[g].key, rows), Entries(nodes, slots[g + 1..]), e);
  }

  /** The entries of the slots other than `g` do not change when only the bucket of slot `g` does. */
  lemma EntriesAroundKept(nodes: seq<Node>, nodes': seq<Node>, slots: seq<Slot>, g: nat)
    requires BucketsIn(nodes, slots) && g < |slots| && |nodes'| == |nodes|
    requires forall i :: 0 <= i < |slots| && i != g ==> slots[i].bucket != slots[g].bucket
    requires forall m :: 0 <= m < |nodes| && m != slots[g].bucket ==> nodes'[m] == nodes[m]
    ensures BucketsIn(nodes, slots[..g]) && BucketsIn(nodes', slots[..g])
    ensures BucketsIn(nodes, slots[g + 1..]) && BucketsIn(nodes', slots[g + 1..])
    ensures Entries(nodes', slots[..g]) == Entries(nodes, slots[..g])
    ensures Entries(nodes', slots[g + 1..]) == Entries(nodes, slots[g + 1..])
  {
    var b := slots[g].bucket;
    var pre, post := slots[..g], slots[g + 1..];
    assert forall i :: 0 <= i < |pre| ==> pre[i] == slots[i] && pre[i].bucket != b;
    assert forall i :: 0 <= i < |post| ==> post[i] == slots[g + 1 + i] && post[i].bucket != b;
    EntriesFrame(nodes, nodes', pre);
    EntriesFrame(nodes, nodes', post);
  }

  /** One more element in the middle part adds it to the multiset of the whole. */
  lemma MultisetGrowsInside<T>(a: seq<T>, m: seq<T>, b: seq<T>, e: T)
    ensures multiset(a + (m + [e]) + b) == multiset(a + m + b) + multiset{e}
  {
  }

  /** Reading chain `c'` of `nodes'` gives the slots and the entries that reading `c` of `nodes` gave. */
  ghost predicate SameEntries(nodes: seq<Node>, nodes': seq<Node>, c: seq<nat>, c': seq<nat>)
  {
    && LeavesParallel(nodes, c) && LeavesParallel(nodes', c')
    && ChainSlots(nodes', c') == ChainSlots(nodes, c)
    && BucketsIn(nodes, ChainSlots(nodes, c)) && BucketsIn(nodes', ChainSlots(nodes', c'))
    && Entries(nodes', ChainSlots(nodes', c')) == Entries(nodes, ChainSlots(nodes, c))
  }

  lemma SameEntriesTrans(n0: seq<Node>, n1: seq<Node>, n2: seq<Node>, c0: seq<nat>, c1: seq<nat>, c2: seq<nat>)
    requires SameEntries(n0, n1, c0, c1) && SameEntries(n1, n2, c1, c2)
    ensures SameEntries(n0, n2, c0, c2)
  {
  }

  /** The same slots over buckets that kept their rows give the same entries. */
  lemma KeepsEntries(nodes: seq<Node>, nodes': seq<Node>, c: seq<nat>, c': seq<nat>)
    requires LeavesParallel(nodes, c) && LeavesParallel(nodes', c')
    requires ChainSlots(nodes', c') == ChainSlots(nodes, c)
    requires BucketsIn(nodes, ChainSlots(nodes, c)) && |nodes'| >= |nodes|
    requires forall g :: 0 <= g < |ChainSlots(nodes, c)| ==>
      nodes'[ChainSlots(nodes, c)[g].bucket].values == nodes[ChainSlots(nodes, c)[g].bucket].values
    ensures SameEntries(nodes, nodes', c, c')
  {
    EntriesFrame(nodes, nodes', ChainSlots(nodes, c));
  }
}
