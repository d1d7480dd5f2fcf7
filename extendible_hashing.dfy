/**
 * The extendible hash index: a directory of `2^globalDepth` slots, each
 * pointing at a bucket of at most `bucketSize` entries, with full buckets
 * extended by a chain of overflow buckets.
 *
 * Buckets live in an arena `buckets: seq<Bucket<K>>` and refer to their
 * overflow bucket by position; the directory is an array of positions.
 * The hashing scheme that maps a key to its slot is not part of this model:
 * it is the parameter `directoryIndex`, any function into the directory.
 */
module Hashing {
  import opened Common

  /** `1 << n`. */
  function Pow2(n: nat): (p: nat)
    ensures p >= 1
  {
    if n == 0 then 1 else 2 * Pow2(n - 1)
  }

  /** A key and the row id stored with it. */
  datatype Entry<K> = Entry(key: K, rowId: int)

  /**
   * A bucket: entry `i` is `keys[i]` with `values[i]` (the bucket's `size`
   * is `|keys|`), its local depth, and the position of its overflow bucket.
   */
  datatype Bucket<K> = Bucket(keys: seq<K>, values: seq<int>, localDepth: nat, next: Option<nat>)

  /** Every bucket holds at most `capacity` entries and links only forward. */
  predicate BucketsWellFormed<K>(buckets: seq<Bucket<K>>, capacity: nat)
  {
    forall b :: 0 <= b < |buckets| ==>
      && |buckets[b].keys| == |buckets[b].values| <= capacity
      && (buckets[b].next.Some? ==> b < buckets[b].next.value < |buckets|)
  }

  /** The entries of one bucket, in slot order. */
  function Pairs<K>(bucket: Bucket<K>): (p: seq<Entry<K>>)
    requires |bucket.keys| == |bucket.values|
    ensures |p| == |bucket.keys|
    ensures forall i :: 0 <= i < |p| ==> p[i] == Entry(bucket.keys[i], bucket.values[i])
  {
    seq(|bucket.keys|, i requires 0 <= i < |bucket.keys| => Entry(bucket.keys[i], bucket.values[i]))
  }

  /** The entries of the chain that starts at bucket `b`, in chain-then-slot order. */
  function ChainEntries<K>(buckets: seq<Bucket<K>>, capacity: nat, b: nat): seq<Entry<K>>
    requires BucketsWellFormed(buckets, capacity) && b < |buckets|
    decreases |buckets| - b
  {
    Pairs(buckets[b]) +
      if buckets[b].next.Some? then ChainEntries(buckets, capacity, buckets[b].next.value) else []
  }

  /**
   * The bucket where the walk of `insert` stops: it follows overflow links
   * while the bucket is full.
   */
  function Walk<K>(buckets: seq<Bucket<K>>, capacity: nat, b: nat): (w: nat)
    requires BucketsWellFormed(buckets, capacity) && b < |buckets|
    decreases |buckets| - b
    ensures b <= w < |buckets|
    ensures |buckets[w].keys| < capacity || buckets[w].next.None?
  {
    if |buckets[b].keys| == capacity && buckets[b].next.Some? then
      Walk(buckets, capacity, buckets[b].next.value)
    else b
  }

  /**
   * The arena after `insert` stored `(key, rowId)` at the bucket `w` where
   * its walk stopped: in `w` itself when it has room, otherwise in a new
   * overflow bucket with `w`'s local depth, linked from `w`.
   */
  function Placed<K>(buckets: seq<Bucket<K>>, capacity: nat, w: nat, key: K, rowId: int): seq<Bucket<K>>
    requires w < |buckets|
  {
    var bucket := buckets[w];
    if |bucket.keys| < capacity then
      buckets[w := bucket.(keys := bucket.keys + [key], values := bucket.values + [rowId])]
    else
      buckets[w := bucket.(next := Some(|buckets|))] + [Bucket([key], [rowId], bucket.localDepth, None)]
  }

  /**
   * Re-inserting pair `i` of an emptied bucket that holds the first `i`
   * pairs again: the walk stops at that bucket, which has room, and the
   * pair lands at its end.
   */
  lemma RefillStep<K>(buckets: seq<Bucket<K>>, capacity: nat, emptied: seq<Bucket<K>>, b: nat,
                      ks: seq<K>, vs: seq<int>, i: nat)
    requires b < |emptied| && i < |ks| == |vs| <= capacity
    requires buckets == emptied[b := emptied[b].(keys := ks[..i], values := vs[..i])]
    requires BucketsWellFormed(buckets, capacity)
    ensures Walk(buckets, capacity, b) == b
    ensures Placed(buckets, capacity, b, ks[i], vs[i]) == emptied[b := emptied[b].(keys := ks[..i + 1], values := vs[..i + 1])]
  {
    assert ks[..i + 1] == ks[..i] + [ks[i]];
    assert vs[..i + 1] == vs[..i] + [vs[i]];
  }

  /** The overflow branch of `insert`: a new bucket after the full last one of the chain, holding the pair. */
  lemma OverflowPlaced<K>(buckets: seq<Bucket<K>>, capacity: nat, w: nat, key: K, rowId: int, after: seq<Bucket<K>>)
    requires w < |buckets| && |buckets[w].keys| >= capacity && buckets[w].next.None?
    requires var linked := buckets[w := buckets[w].(next := Some(|buckets|))] + [Bucket([], [], buckets[w].localDepth, None)];
      var n := |buckets|;
      after == linked[n := linked[n].(keys := linked[n].keys + [key], values := linked[n].values + [rowId])]
    ensures after == Placed(buckets, capacity, w, key, rowId)
  {
    var n := |buckets|;
    assert after[n] == Bucket([key], [rowId], buckets[w].localDepth, None);
    assert after == buckets[w := buckets[w].(next := Some(n))] + [after[n]];
  }

  /** Storing a pair where `insert` stores it keeps the arena well formed and only grows it. */
  lemma PlacedWellFormed<K>(buckets: seq<Bucket<K>>, capacity: nat, w: nat, key: K, rowId: int)
    requires BucketsWellFormed(buckets, capacity) && capacity >= 1 && w < |buckets|
    requires |buckets[w].keys| < capacity || buckets[w].next.None?
    ensures BucketsWellFormed(Placed(buckets, capacity, w, key, rowId), capacity)
    ensures |Placed(buckets, capacity, w, key, rowId)| >= |buckets|
  {
  }

  /**
   * The chain invariant of the index: buckets `0 .. heads-1` start the
   * chains of the directory slots, `owner[b]` is the slot whose chain
   * holds bucket `b`, every bucket with an overflow bucket is full, and
   * every bucket has local depth `depth`.
   */
  ghost predicate ChainsValid<K>(buckets: seq<Bucket<K>>, capacity: nat, owner: seq<nat>, heads: nat, depth: nat)
  {
    && BucketsWellFormed(buckets, capacity)
    && |owner| == |buckets|
    && heads <= |buckets|
    && (forall s :: 0 <= s < heads ==> owner[s] == s)
    && (forall b :: 0 <= b < |buckets| ==> owner[b] < heads && buckets[b].localDepth == depth)
    && (forall b :: 0 <= b < |buckets| && buckets[b].next.Some? ==>
          |buckets[b].keys| == capacity && owner[buckets[b].next.value] == owner[b])
  }

  /** The owners after `Placed`: a new overflow bucket belongs to the slot of `w`. */
  ghost function PlacedOwner<K>(buckets: seq<Bucket<K>>, capacity: nat, owner: seq<nat>, w: nat): seq<nat>
    requires w < |buckets| && |owner| == |buckets|
  {
    if |buckets[w].keys| < capacity then owner else owner + [owner[w]]
  }

  /** The entries of `log` that hash to slot `s`, in insertion order. */
  function Select<K>(log: seq<Entry<K>>, index: K -> int, s: int): (r: seq<Entry<K>>)
    ensures |r| <= |log|
    ensures forall i :: 0 <= i < |r| ==> r[i] in log && index(r[i].key) == s
    ensures forall i :: 0 <= i < |log| && index(log[i].key) == s ==> log[i] in r
  {
    if log == [] then []
    else
      var last := log[|log| - 1];
      var rest := Select(log[..|log| - 1], index, s);
      assert log == log[..|log| - 1] + [last];
      if index(last.key) == s then rest + [last] else rest
  }

  /** The row ids of the entries with key `key`, in order. */
  function Rows<K(==)>(entries: seq<Entry<K>>, key: K): seq<int>
  {
    if entries == [] then []
    else
      var last := entries[|entries| - 1];
      var rest := Rows(entries[..|entries| - 1], key);
      if last.key == key then rest + [last.rowId] else rest
  }

  /** `Rows` collects exactly the row ids stored with `key`, and no more than there are entries. */
  lemma {:induction false} RowsMembers<K>(entries: seq<Entry<K>>, key: K)
    ensures |Rows(entries, key)| <= |entries|
    ensures forall x :: x in Rows(entries, key) <==> Entry(key, x) in entries
  {
    if entries != [] {
      var rest := entries[..|entries| - 1];
      RowsMembers(rest, key);
      assert entries == rest + [entries[|entries| - 1]];
    }
  }

  /** `x ^ (1 << d)`: `x` with bit `d` flipped, one binary digit at a time. */
  function FlipBit(x: nat, d: nat): nat
  {
    if d == 0 then (if x % 2 == 0 then x + 1 else x - 1)
    else 2 * FlipBit(x / 2, d - 1) + x % 2
  }

  lemma {:induction false} RowsAppend<K>(a: seq<Entry<K>>, b: seq<Entry<K>>, key: K)
    ensures Rows(a + b, key) == Rows(a, key) + Rows(b, key)
  {
    if b == [] {
      assert a + b == a;
    } else {
      var b' := b[..|b| - 1];
      assert (a + b)[..|a + b| - 1] == a + b';
      RowsAppend(a, b', key);
    }
  }

  /** The rows of a key are found among the entries of that key's slot. */
  lemma {:induction false} RowsSelect<K>(log: seq<Entry<K>>, index: K -> int, key: K)
    ensures Rows(Select(log, index, index(key)), key) == Rows(log, key)
  {
    if log != [] {
      var log' := log[..|log| - 1];
      var last := log[|log| - 1];
      RowsSelect(log', index, key);
      if index(last.key) == index(key) {
        RowsAppend(Select(log', index, index(key)), [last], key);
        assert Rows([last], key) == (if last.key == key then [last.rowId] else []) by {
          assert [last][..0] == [];
        }
      }
    }
  }

  /** Flipping a bit below `g` keeps a slot of a directory of depth `g` in range. */
  lemma {:induction false} FlipBitInRange(x: nat, d: nat, g: nat)
    requires x < Pow2(g) && d < g
    ensures FlipBit(x, d) < Pow2(g)
  {
    var half := Pow2(g - 1);
    assert Pow2(g) == 2 * half;
    if d == 0 {
      assert x % 2 == 0 ==> x + 1 < 2 * half;
    } else {
      assert x / 2 < half;
      FlipBitInRange(x / 2, d - 1, g - 1);
    }
  }

  /** Flipping the same bit twice gives the slot back. */
  lemma {:induction false} FlipBitTwice(x: nat, d: nat)
    ensures FlipBit(FlipBit(x, d), d) == x
  {
    if d > 0 {
      FlipBitTwice(x / 2, d - 1);
    }
  }

  /** Flipping a bit changes the slot. */
  lemma {:induction false} FlipBitMoves(x: nat, d: nat)
    ensures FlipBit(x, d) != x
  {
    if d > 0 {
      FlipBitMoves(x / 2, d - 1);
    }
  }

  /** The walk ends at the last bucket of a chain, which belongs to the chain's slot. */
  lemma {:induction false} WalkEndsChain<K>(buckets: seq<Bucket<K>>, capacity: nat, owner: seq<nat>,
                                            heads: nat, depth: nat, b: nat)
    requires ChainsValid(buckets, capacity, owner, heads, depth) && b < |buckets|
    decreases |buckets| - b
    ensures buckets[Walk(buckets, capacity, b)].next.None?
    ensures owner[Walk(buckets, capacity, b)] == owner[b]
  {
    if |buckets[b].keys| == capacity && buckets[b].next.Some? {
      WalkEndsChain(buckets, capacity, owner, heads, depth, buckets[b].next.value);
    }
  }

  /** A chain reads only the buckets of its own slot. */
  lemma {:induction false} ChainFrame<K>(b1: seq<Bucket<K>>, b2: seq<Bucket<K>>, capacity: nat,
                                         owner: seq<nat>, heads: nat, depth: nat, b: nat)
    requires ChainsValid(b1, capacity, owner, heads, depth)
    requires BucketsWellFormed(b2, capacity) && |b1| <= |b2| && b < |b1|
    requires forall c :: 0 <= c < |b1| && owner[c] == owner[b] ==> b2[c] == b1[c]
    decreases |b1| - b
    ensures ChainEntries(b2, capacity, b) == ChainEntries(b1, capacity, b)
  {
    if b1[b].next.Some? {
      ChainFrame(b1, b2, capacity, owner, heads, depth, b1[b].next.value);
    }
  }

  /** Placing an entry at the end of the chain from `b` appends it to that chain's entries. */
  lemma {:induction false} PlacedExtendsChain<K>(buckets: seq<Bucket<K>>, capacity: nat, owner: seq<nat>,
                                                 heads: nat, depth: nat, b: nat, key: K, rowId: int)
    requires ChainsValid(buckets, capacity, owner, heads, depth) && capacity >= 1 && b < |buckets|
    requires BucketsWellFormed(Placed(buckets, capacity, Walk(buckets, capacity, b), key, rowId), capacity)
    decreases |buckets| - b
    ensures ChainEntries(Placed(buckets, capacity, Walk(buckets, capacity, b), key, rowId), capacity, b)
         == ChainEntries(buckets, capacity, b) + [Entry(key, rowId)]
  {
    var w := Walk(buckets, capacity, b);
    var after := Placed(buckets, capacity, w, key, rowId);
    WalkEndsChain(buckets, capacity, owner, heads, depth, b);
    if b == w {
      if |buckets[w].keys| < capacity {
        assert Pairs(after[w]) == Pairs(buckets[w]) + [Entry(key, rowId)];
      } else {
        var n := |buckets|;
        assert ChainEntries(after, capacity, n) == [Entry(key, rowId)];
        assert Pairs(after[w]) == Pairs(buckets[w]);
      }
    } else {
      var n := buckets[b].next.value;
      PlacedExtendsChain(buckets, capacity, owner, heads, depth, n, key, rowId);
    }
  }

  /**
   * `Placed` at the end of a chain keeps the chain invariant, adds the entry
   * to the chain of the slot it was walked from and changes no other chain.
   */
  lemma PlacedKeepsChains<K>(buckets: seq<Bucket<K>>, capacity: nat, owner: seq<nat>,
                             heads: nat, depth: nat, b: nat, key: K, rowId: int)
    requires ChainsValid(buckets, capacity, owner, heads, depth) && capacity >= 1 && b < heads
    ensures var w := Walk(buckets, capacity, b);
      var after := Placed(buckets, capacity, w, key, rowId);
      && ChainsValid(after, capacity, PlacedOwner(buckets, capacity, owner, w), heads, depth)
      && forall s :: 0 <= s < heads ==>
           ChainEntries(after, capacity, s) ==
             ChainEntries(buckets, capacity, s) + (if s == b then [Entry(key, rowId)] else [])
  {
    var w := Walk(buckets, capacity, b);
    var after := Placed(buckets, capacity, w, key, rowId);
    var owner' := PlacedOwner(buckets, capacity, owner, w);
    WalkEndsChain(buckets, capacity, owner, heads, depth, b);
    assert ChainsValid(after, capacity, owner', heads, depth);
    forall s | 0 <= s < heads
      ensures ChainEntries(after, capacity, s) ==
                ChainEntries(buckets, capacity, s) + (if s == b then [Entry(key, rowId)] else [])
    {
      if s == b {
        PlacedExtendsChain(buckets, capacity, owner, heads, depth, s, key, rowId);
      } else {
        ChainFrame(buckets, after, capacity, owner, heads, depth, s);
      }
    }
  }

  /**
   * Placing an inserted pair at the end of its slot's chain keeps every
   * chain equal to the pairs logged for its slot.
   */
  lemma PlacedKeepsLog<K>(buckets: seq<Bucket<K>>, capacity: nat, owner: seq<nat>, heads: nat,
                          depth: nat, b: nat, key: K, rowId: int, log: seq<Entry<K>>, index: K -> int)
    requires ChainsValid(buckets, capacity, owner, heads, depth) && capacity >= 1 && b < heads
    requires index(key) == b
    requires forall s :: 0 <= s < heads ==> ChainEntries(buckets, capacity, s) == Select(log, index, s)
    ensures var w := Walk(buckets, capacity, b);
      var after := Placed(buckets, capacity, w, key, rowId);
      && ChainsValid(after, capacity, PlacedOwner(buckets, capacity, owner, w), heads, depth)
      && (forall s :: 0 <= s < heads ==>
            ChainEntries(after, capacity, s) == Select(log + [Entry(key, rowId)], index, s))
      && (forall s :: 0 <= s < heads ==>
            ChainEntries(after, capacity, s) ==
              ChainEntries(buckets, capacity, s) + (if s == b then [Entry(key, rowId)] else []))
  {
    PlacedKeepsChains(buckets, capacity, owner, heads, depth, b, key, rowId);
    var log' := log + [Entry(key, rowId)];
    assert log'[..|log'| - 1] == log;
  }

  /** The row ids of `key` still to be collected from the chain at `bucket`, if any. */
  function RestRows<K(==)>(buckets: seq<Bucket<K>>, capacity: nat, bucket: Option<nat>, key: K): seq<int>
    requires BucketsWellFormed(buckets, capacity)
    requires bucket.Some? ==> bucket.value < |buckets|
  {
    if bucket.Some? then Rows(ChainEntries(buckets, capacity, bucket.value), key) else []
  }

  /** One more slot of a bucket scanned: its row id is collected when its key matches. */
  lemma RowsSnoc<K>(pairs: seq<Entry<K>>, i: nat, key: K)
    requires i < |pairs|
    ensures Rows(pairs[..i + 1], key) ==
      Rows(pairs[..i], key) + (if pairs[i].key == key then [pairs[i].rowId] else [])
  {
    assert pairs[..i + 1][..i] == pairs[..i];
  }

  /** The rows of a chain are those of its first bucket followed by those of the rest. */
  lemma ChainRows<K>(buckets: seq<Bucket<K>>, capacity: nat, b: nat, key: K)
    requires BucketsWellFormed(buckets, capacity) && b < |buckets|
    ensures RestRows(buckets, capacity, Some(b), key) ==
      Rows(Pairs(buckets[b])[..|buckets[b].keys|], key) + RestRows(buckets, capacity, buckets[b].next, key)
  {
    var pairs := Pairs(buckets[b]);
    assert pairs[..|buckets[b].keys|] == pairs;
    RowsAppend(pairs, if buckets[b].next.Some? then ChainEntries(buckets, capacity, buckets[b].next.value) else [], key);
  }

  class ExtendibleHashing<K(==,!new)> {
    const globalDepth: nat
    /** `BUCKET_SIZE`: the entries one bucket holds. */
    const bucketSize: nat
    /** `HashingScheme.getDirectoryIndex(key, globalDepth)`. */
    const directoryIndex: K -> int
    /** The bucket address table: slot `s` points at bucket `directory[s]`. */
    const directory: array<nat>
    var buckets: seq<Bucket<K>>
    /** The slot whose chain holds each bucket. */
    ghost var owner: seq<nat>
    /** Every pair inserted so far, in insertion order. */
    ghost var log: seq<Entry<K>>

    /** The shape every state has, including the states inside `splitBucket`. */
    ghost predicate WellFormed()
      reads this, directory
    {
      && bucketSize >= 1
      && directory.Length == Pow2(globalDepth)
      && (forall key :: 0 <= directoryIndex(key) < directory.Length)
      && (forall s :: 0 <= s < directory.Length ==> directory[s] < |buckets|)
      && BucketsWellFormed(buckets, bucketSize)
    }

    /**
     * The invariant of every state reachable by the constructor and
     * `insert`: slot `s` still points at bucket `s`, every bucket has local
     * depth `globalDepth`, each chain is full except its last bucket, and
     * the chain of slot `s` holds exactly the inserted pairs that hash to
     * `s`, in insertion order.
     */
    ghost predicate Valid()
      reads this, directory
    {
      && WellFormed()
      && ChainsValid(buckets, bucketSize, owner, directory.Length, globalDepth)
      && (forall s :: 0 <= s < directory.Length ==> directory[s] == s)
      && (forall s :: 0 <= s < directory.Length ==>
            ChainEntries(buckets, bucketSize, s) == Select(log, directoryIndex, s))
    }

    /** The entries reachable from slot `s`, in chain-then-slot order. */
    ghost function Entries(s: nat): seq<Entry<K>>
      reads this, directory
      requires WellFormed() && s < directory.Length
    {
      ChainEntries(buckets, bucketSize, directory[s])
    }

    /**
     * The split branch of `insert` is not taken for `key`: the bucket its
     * walk stops at has room, or its local depth is not below the global one.
     */
    ghost predicate CanPlace(key: K)
      reads this, directory
      requires WellFormed()
    {
      var w := Walk(buckets, bucketSize, directory[directoryIndex(key)]);
      |buckets[w].keys| < bucketSize || buckets[w].localDepth >= globalDepth
    }

    /**
     * The directory has `1 << globalDepth` slots, each pointing at its own
     * empty bucket of local depth `globalDepth`.
     */
    constructor (globalDepth: nat, bucketSize: nat, directoryIndex: K -> int)
      requires globalDepth < 31 && bucketSize >= 1
      requires forall key :: 0 <= directoryIndex(key) < Pow2(globalDepth)
      ensures Valid() && fresh(directory)
      ensures this.globalDepth == globalDepth && this.bucketSize == bucketSize
      ensures this.directoryIndex == directoryIndex
      ensures directory.Length == Pow2(globalDepth) && |buckets| == directory.Length
      ensures forall s :: 0 <= s < directory.Length ==>
        directory[s] == s && buckets[s] == Bucket([], [], globalDepth, None)
      ensures log == []
    {
      this.globalDepth := globalDepth;
      this.bucketSize := bucketSize;
      this.directoryIndex := directoryIndex;
      var directorySize := Pow2(globalDepth);
      var table := new nat[directorySize];
      var created: seq<Bucket<K>> := [];
      for i := 0 to directorySize
        invariant |created| == i
        invariant forall s :: 0 <= s < i ==> table[s] == s && created[s] == Bucket([], [], globalDepth, None)
      {
        table[i] := i;
        created := created + [Bucket([], [], globalDepth, None)];
      }
      this.directory := table;
      buckets := created;
      owner := seq(directorySize, s => s);
      log := [];
      new;
      forall s | 0 <= s < directory.Length
        ensures ChainEntries(buckets, bucketSize, s) == Select(log, directoryIndex, s)
      {
        assert Pairs(buckets[s]) == [];
      }
    }

    /**
     * `insert`: walks the chain of the key's slot past full buckets, stores
     * the pair in the first bucket with room, or else in a new overflow
     * bucket of the same local depth linked from the last one.
     */
    method Insert(key: K, rowId: int)
      requires WellFormed() && CanPlace(key)
      modifies this
      ensures WellFormed()
      ensures buckets == Placed(old(buckets), bucketSize,
                                old(Walk(buckets, bucketSize, directory[directoryIndex(key)])), key, rowId)
      ensures log == old(log) + [Entry(key, rowId)]
      ensures old(Valid()) ==> Valid()
      ensures old(Valid()) ==> forall s :: 0 <= s < directory.Length ==>
        Entries(s) == old(Entries(s)) + (if s == directoryIndex(key) then [Entry(key, rowId)] else [])
    {
      var bucketIndex := directoryIndex(key);
      var b := directory[bucketIndex];
      while |buckets[b].keys| == bucketSize && buckets[b].next.Some?
        invariant b < |buckets|
        invariant Walk(buckets, bucketSize, b) == Walk(buckets, bucketSize, directory[bucketIndex])
        decreases |buckets| - b
      {
        b := buckets[b].next.value;
      }
      ghost var wasValid := Valid();
      ghost var before := buckets;
      ghost var owners := if |owner| == |buckets| then PlacedOwner(buckets, bucketSize, owner, b) else owner;
      log := log + [Entry(key, rowId)];
      if |buckets[b].keys| < bucketSize {
        buckets := buckets[b := buckets[b].(keys := buckets[b].keys + [key], values := buckets[b].values + [rowId])];
      } else {
        if buckets[b].localDepth < globalDepth {
          assert false;
        }
        if buckets[b].next.None? {
          buckets := buckets[b := buckets[b].(next := Some(|buckets|))] + [Bucket([], [], buckets[b].localDepth, None)];
        }
        var n := buckets[b].next.value;
        buckets := buckets[n := buckets[n].(keys := buckets[n].keys + [key], values := buckets[n].values + [rowId])];
        OverflowPlaced(before, bucketSize, b, key, rowId, buckets);
      }
      owner := owners;
      assert buckets == Placed(before, bucketSize, b, key, rowId);
      PlacedWellFormed(before, bucketSize, b, key, rowId);
      if wasValid {
        PlacedKeepsLog(before, bucketSize, old(owner), directory.Length, globalDepth, bucketIndex,
                       key, rowId, old(log), directoryIndex);
      }
    }

    /**
     * The split branch of `insert` is never taken: in every valid state
     * every bucket has local depth `globalDepth`.
     */
    lemma ValidCanPlace(key: K)
      requires Valid()
      ensures CanPlace(key)
    {
    }

    /**
     * `splitBucket`: raises the local depth of the bucket of slot
     * `bucketIndex`, creates an empty bucket one level deeper, empties the
     * old bucket and re-inserts its entries through `insert`, then points
     * slot `bucketIndex ^ (1 << localDepth)` at the new bucket. The entries
     * all return to the old bucket, in their old order, so the repointed
     * slot reaches none of them.
     */
    method SplitBucket(bucketIndex: nat)
      requires WellFormed() && bucketIndex < directory.Length
      requires buckets[directory[bucketIndex]].localDepth < globalDepth
      requires forall i :: 0 <= i < |buckets[directory[bucketIndex]].keys| ==>
        directory[directoryIndex(buckets[directory[bucketIndex]].keys[i])] == directory[bucketIndex]
      modifies this, directory
      ensures WellFormed()
      ensures var h := old(directory[bucketIndex]);
        var depth := old(buckets[h].localDepth);
        && FlipBit(bucketIndex, depth) < directory.Length
        && buckets == old(buckets)[h := old(buckets[h]).(localDepth := depth + 1)] + [Bucket([], [], depth + 1, None)]
        && directory[..] == old(directory[..])[FlipBit(bucketIndex, depth) := old(|buckets|)]
        && Entries(FlipBit(bucketIndex, depth)) == []
    {
      var oldBucket := directory[bucketIndex];
      var localDepth := buckets[oldBucket].localDepth;
      var newBucket := |buckets|;
      buckets := buckets + [Bucket([], [], localDepth + 1, None)];
      buckets := buckets[oldBucket := buckets[oldBucket].(localDepth := localDepth + 1)];
      var tempKeys := buckets[oldBucket].keys;
      var tempValues := buckets[oldBucket].values;
      buckets := buckets[oldBucket := buckets[oldBucket].(keys := [], values := [])];
      ghost var emptied := buckets;
      for i := 0 to |tempKeys|
        invariant WellFormed() && directory[..] == old(directory[..])
        invariant buckets == emptied[oldBucket := emptied[oldBucket].(keys := tempKeys[..i], values := tempValues[..i])]
      {
        RefillStep(buckets, bucketSize, emptied, oldBucket, tempKeys, tempValues, i);
        Insert(tempKeys[i], tempValues[i]);
      }
      assert tempKeys[..|tempKeys|] == tempKeys && tempValues[..|tempValues|] == tempValues;
      FlipBitInRange(bucketIndex, localDepth, globalDepth);
      var newIndex := FlipBit(bucketIndex, localDepth);
      directory[newIndex] := newBucket;
      assert Pairs(buckets[newBucket]) == [];
    }

    /** `delete` is not supported: it reports failure and changes nothing. */
    method Delete(key: K) returns (ok: bool)
      ensures !ok
    {
      ok := false;
    }

    /** The inner loop of `search`: the rows of one bucket's pairs whose key is `key`, slot by slot. */
    static method BucketRows(current: Bucket<K>, key: K) returns (rows: seq<int>)
      requires |current.keys| == |current.values|
      ensures rows == Rows(Pairs(current)[..|current.keys|], key)
    {
      ghost var pairs := Pairs(current);
      rows := [];
      var i := 0;
      while i < |current.keys|
        invariant 0 <= i <= |current.keys|
        invariant rows == Rows(pairs[..i], key)
      {
        RowsSnoc(pairs, i, key);
        if current.keys[i] == key {
          rows := rows + [current.values[i]];
        }
        i := i + 1;
      }
    }

    /**
     * `search`: the row ids of the entries equal to `key` along the chain of
     * the key's slot; in a valid state, exactly the row ids inserted with
     * `key`, in insertion order.
     */
    method Search(key: K) returns (result: seq<int>)
      requires WellFormed()
      ensures result == Rows(Entries(directoryIndex(key)), key)
      ensures Valid() ==> result == Rows(log, key)
    {
      var bucketIndex := directoryIndex(key);
      var bucket: Option<nat> := Some(directory[bucketIndex]);
      ghost var arena := buckets;
      ghost var total := Rows(ChainEntries(arena, bucketSize, directory[bucketIndex]), key);
      result := [];
      while bucket.Some?
        invariant bucket.Some? ==> bucket.value < |arena|
        invariant total == result + RestRows(arena, bucketSize, bucket, key)
        decreases if bucket.Some? then |arena| - bucket.value + 1 else 0
      {
        var current := buckets[bucket.value];
        var found := BucketRows(current, key);
        result := result + found;
        ChainRows(arena, bucketSize, bucket.value, key);
        bucket := current.next;
      }
      if Valid() {
        LogRows(key);
      }
    }

    /** In a valid state the chain of a key's slot holds every row id inserted with the key. */
    lemma LogRows(key: K)
      requires Valid()
      ensures Rows(Entries(directoryIndex(key)), key) == Rows(log, key)
    {
      RowsSelect(log, directoryIndex, key);
    }

    /** `evaluate`: only equality is served; any other operator is unsupported. */
    method Evaluate(op: Operator, key: K) returns (r: Result<seq<int>>)
      requires Valid()
      ensures op != EQUALS ==> r == Failure(UnsupportedPredicate)
      ensures op == EQUALS ==> r == Success(Rows(log, key))
    {
      if op != EQUALS {
        return Failure(UnsupportedPredicate);
      }
      var rows := Search(key);
      r := Success(rows);
    }

    /** `getGlobalDepth`. */
    function GetGlobalDepth(): (d: nat)
      reads this
      ensures d == globalDepth
    {
      globalDepth
    }

    /** `getLocalDepth`: the local depth of the bucket slot `bucketId` points at. */
    function GetLocalDepth(bucketId: int): (d: nat)
      reads this, directory
      requires WellFormed() && 0 <= bucketId < directory.Length
      ensures Valid() ==> d == globalDepth
    {
      buckets[directory[bucketId]].localDepth
    }

    /** `getBucketCount`: the number of directory slots. */
    function GetBucketCount(): (n: nat)
      reads this, directory
      ensures WellFormed() ==> n == Pow2(globalDepth)
    {
      directory.Length
    }
  }
}
