/**
 * The equality bitmap index: every key owns a fixed-length array of 32-bit
 * words, and bit `j` of word `i` records that row `32 * i + j` holds the key.
 */
module Bitmap {
  import opened Common
  import opened BitWords

  /** Java's `int` division, which truncates toward zero. */
  function JavaDiv(a: int, b: int): int
    requires b > 0
  {
    if a >= 0 then a / b else -((-a) / b)
  }

  /** The number of words of every bitmap: `(maxRowId + 31) / 32` in Java arithmetic. */
  function ArraySize(maxRowId: int): int
  {
    JavaDiv(maxRowId + 31, 32)
  }

  /** A bit position `0 <= j < 32` as the shift amount of `1 << j`. */
  function Pos(j: int): bv5
    requires 0 <= j < 32
  {
    if j == 0 then 0 else Pos(j - 1) + 1
  }

  lemma {:induction false} PosValue(j: int)
    requires 0 <= j < 32
    ensures Pos(j) as int == j
  {
    if j > 0 {
      PosValue(j - 1);
    }
  }

  /** Distinct bit positions give distinct shift amounts. */
  lemma PosInjective(a: int, b: int)
    requires 0 <= a < 32 && 0 <= b < 32
    ensures Pos(a) == Pos(b) <==> a == b
  {
    PosValue(a);
    PosValue(b);
  }

  /** True when row `x` is recorded in the bitmap `words`. */
  predicate Member(words: seq<bv32>, x: int)
  {
    0 <= x < 32 * |words| && BitSet(words[x / 32], Pos(x % 32))
  }

  lemma DivMod32(x: int, q: int)
    requires 32 * q <= x < 32 * q + 32
    ensures x / 32 == q && x % 32 == x - 32 * q
  {
  }

  /** `bitmap[rowId / 32] |= 1 << (rowId % 32)`. */
  function SetBit(words: seq<bv32>, rowId: int): (r: seq<bv32>)
    requires 0 <= rowId < 32 * |words|
    ensures |r| == |words|
    ensures forall x :: Member(r, x) <==> Member(words, x) || x == rowId
  {
    var i := rowId / 32;
    var r := words[i := WithBit(words[i], Pos(rowId % 32))];
    assert forall x :: 0 <= x < 32 * |words| ==>
      (Member(r, x) <==> Member(words, x) || x == rowId) by {
      forall x | 0 <= x < 32 * |words|
        ensures Member(r, x) <==> Member(words, x) || x == rowId
      {
        MaskOr(words[x / 32], Pos(rowId % 32), Pos(x % 32));
        PosInjective(rowId % 32, x % 32);
        if x / 32 == i && x % 32 == rowId % 32 {
          assert x == rowId;
        }
      }
    }
    r
  }

  /** A bitmap of `n` zero words, as `new int[n]` allocates it. */
  function Zeros(n: nat): (r: seq<bv32>)
    ensures |r| == n
    ensures forall x :: !Member(r, x)
  {
    seq(n, _ => 0)
  }

  /**
   * The row ids `base + b` for the bits `b < j` of `w` that are set, in
   * ascending order: the inner loop of `search`.
   */
  function WordIds(w: bv32, base: int, j: nat): seq<int>
    requires j <= 32
  {
    if j == 0 then []
    else WordIds(w, base, j - 1) + (if BitSet(w, Pos(j - 1)) then [base + j - 1] else [])
  }

  /** The row ids recorded in the first `i` words: the outer loop of `search`. */
  function IdsUpTo(words: seq<bv32>, i: nat): seq<int>
    requires i <= |words|
  {
    if i == 0 then [] else IdsUpTo(words, i - 1) + WordIds(words[i - 1], 32 * (i - 1), 32)
  }

  /** Every row id recorded in `words`, ascending. */
  function Ids(words: seq<bv32>): seq<int>
  {
    IdsUpTo(words, |words|)
  }

  lemma {:induction false} WordIdsSpec(w: bv32, base: int, j: nat)
    requires j <= 32
    ensures StrictlyAscending(WordIds(w, base, j))
    ensures forall x :: x in WordIds(w, base, j) <==> base <= x < base + j && BitSet(w, Pos(x - base))
  {
    if j > 0 {
      WordIdsSpec(w, base, j - 1);
      var lower := WordIds(w, base, j - 1);
      forall i | 0 <= i < |lower|
        ensures lower[i] < base + j - 1
      {
        assert lower[i] in lower;
      }
    }
  }

  lemma {:induction false} IdsUpToSpec(words: seq<bv32>, i: nat)
    requires i <= |words|
    ensures StrictlyAscending(IdsUpTo(words, i))
    ensures forall x :: x in IdsUpTo(words, i) <==> 0 <= x < 32 * i && Member(words, x)
  {
    if i > 0 {
      IdsUpToSpec(words, i - 1);
      var base := 32 * (i - 1);
      WordIdsSpec(words[i - 1], base, 32);
      forall x | base <= x < base + 32
        ensures x / 32 == i - 1 && x % 32 == x - base
      {
        DivMod32(x, i - 1);
      }
      var lower := IdsUpTo(words, i - 1);
      var upper := WordIds(words[i - 1], base, 32);
      forall a | 0 <= a < |lower|
        ensures lower[a] < base
      {
        assert lower[a] in lower;
      }
      forall b | 0 <= b < |upper|
        ensures upper[b] >= base
      {
        assert upper[b] in upper;
      }
    }
  }

  /**
   * `search` on a stored bitmap yields, strictly ascending and so without
   * duplicates, exactly the row ids whose bit is set.
   */
  lemma IdsSpec(words: seq<bv32>)
    ensures StrictlyAscending(Ids(words))
    ensures forall x :: x in Ids(words) <==> Member(words, x)
  {
    IdsUpToSpec(words, |words|);
  }

  /** The row ids `search(key)` returns for a map of bitmaps. */
  function Lookup<K>(bits: map<K, seq<bv32>>, key: K): seq<int>
  {
    if key in bits then Ids(bits[key]) else []
  }

  /**
   * The map of bitmaps after `insert(key, rowId)`: the key's bitmap (a fresh
   * one of `size` zero words when the key is new) with the row's bit set.
   */
  function Inserted<K>(bits: map<K, seq<bv32>>, size: nat, key: K, rowId: int): (r: map<K, seq<bv32>>)
    requires key in bits ==> |bits[key]| == size
    requires 0 <= rowId < 32 * size
    ensures r.Keys == bits.Keys + {key}
    ensures forall k :: k in bits && k != key ==> r[k] == bits[k]
    ensures |r[key]| == size
    ensures forall x :: Member(r[key], x) <==> x == rowId || (key in bits && Member(bits[key], x))
  {
    bits[key := SetBit(if key in bits then bits[key] else Zeros(size), rowId)]
  }

  /** Inserting the same pair twice leaves the index as one insert did. */
  lemma InsertIdempotent<K>(bits: map<K, seq<bv32>>, size: nat, key: K, rowId: int)
    requires key in bits ==> |bits[key]| == size
    requires 0 <= rowId < 32 * size
    ensures Inserted(Inserted(bits, size, key, rowId), size, key, rowId) == Inserted(bits, size, key, rowId)
  {
    var once := Inserted(bits, size, key, rowId);
    var w := once[key];
    var i := rowId / 32;
    assert Member(w, rowId);
    OrPresentBit(w[i], Pos(rowId % 32));
    assert SetBit(w, rowId) == w;
  }

  /**
   * After `insert(key, rowId)`, `search(key)` contains `rowId` besides the
   * rows it held before, and no other key's answer changes.
   */
  lemma SearchAfterInsert<K>(bits: map<K, seq<bv32>>, size: nat, key: K, rowId: int)
    requires key in bits ==> |bits[key]| == size
    requires 0 <= rowId < 32 * size
    ensures forall x :: x in Lookup(Inserted(bits, size, key, rowId), key) <==>
      x == rowId || x in Lookup(bits, key)
    ensures forall k :: k != key ==> Lookup(Inserted(bits, size, key, rowId), k) == Lookup(bits, k)
  {
    var after := Inserted(bits, size, key, rowId);
    IdsSpec(after[key]);
    if key in bits {
      IdsSpec(bits[key]);
    }
  }

  class BitmapIndex<K(==)> {
    const maxRowId: int
    var bitmaps: map<K, array<bv32>>
    ghost var Repr: set<object>

    ghost predicate Valid()
      reads this, Repr
    {
      && this in Repr
      && (forall k :: k in bitmaps ==> bitmaps[k] in Repr && bitmaps[k].Length == ArraySize(maxRowId))
      && (forall k, k' :: k in bitmaps && k' in bitmaps && k != k' ==> bitmaps[k] != bitmaps[k'])
    }

    /** The words of every key's bitmap. */
    ghost function Bits(): map<K, seq<bv32>>
      reads this, Repr
      requires Valid()
    {
      map k | k in bitmaps :: bitmaps[k][..]
    }

    constructor (maxRowId: int)
      ensures Valid() && fresh(Repr)
      ensures this.maxRowId == maxRowId && Bits() == map[]
    {
      this.maxRowId := maxRowId;
      bitmaps := map[];
      Repr := {this};
    }

    /** `createBitmapForKey`: allocates a zero bitmap for a key that has none. */
    method CreateBitmapForKey(key: K)
      requires Valid()
      requires ArraySize(maxRowId) >= 0
      modifies this
      ensures Valid() && fresh(Repr - old(Repr))
      ensures key in old(bitmaps) ==> bitmaps == old(bitmaps) && Bits() == old(Bits())
      ensures key !in old(bitmaps) ==> Bits() == old(Bits())[key := Zeros(ArraySize(maxRowId))]
      ensures forall k :: k in old(bitmaps) ==> k in bitmaps && bitmaps[k] == old(bitmaps[k])
    {
      if key !in bitmaps {
        var a := new bv32[ArraySize(maxRowId)](_ => 0);
        bitmaps := bitmaps[key := a];
        Repr := Repr + {a};
        assert a[..] == Zeros(ArraySize(maxRowId));
        assert Bits() == old(Bits())[key := Zeros(ArraySize(maxRowId))];
      }
    }

    /**
     * `insert`: sets bit `rowId % 32` of word `rowId / 32` of the key's
     * bitmap, allocating the bitmap on the key's first insert.
     */
    method Insert(key: K, rowId: int)
      requires Valid()
      requires 0 <= rowId < 32 * ArraySize(maxRowId)
      modifies Repr
      ensures Valid() && fresh(Repr - old(Repr))
      ensures Bits() == Inserted(old(Bits()), ArraySize(maxRowId), key, rowId)
      ensures forall k :: k in old(bitmaps) ==> k in bitmaps && bitmaps[k] == old(bitmaps[k])
    {
      CreateBitmapForKey(key);
      ghost var before := Bits();
      var a := bitmaps[key];
      var index := rowId / 32;
      var bitPosition := rowId % 32;
      a[index] := WithBit(a[index], Pos(bitPosition));
      assert a[..] == SetBit(before[key], rowId);
      assert forall k :: k in bitmaps && k != key ==> bitmaps[k][..] == before[k];
      assert Bits() == before[key := SetBit(before[key], rowId)];
    }

    /** `delete` is not supported: it reports failure and changes nothing. */
    method Delete(key: K) returns (ok: bool)
      ensures !ok
    {
      ok := false;
    }

    /**
     * `search`: the row ids whose bit is set in the key's bitmap, scanning
     * word by word and bit by bit; a key without a bitmap yields nothing.
     */
    method Search(key: K) returns (result: seq<int>)
      requires Valid()
      ensures result == Lookup(Bits(), key)
    {
      result := [];
      if key !in bitmaps {
        return;
      }
      var bitmapArray := bitmaps[key];
      ghost var words := bitmapArray[..];
      var i := 0;
      while i < bitmapArray.Length
        invariant 0 <= i <= bitmapArray.Length
        invariant result == IdsUpTo(words, i)
      {
        var bitmap := bitmapArray[i];
        var j := 0;
        while j < 32
          invariant 0 <= j <= 32
          invariant result == IdsUpTo(words, i) + WordIds(bitmap, 32 * i, j)
        {
          if BitSet(bitmap, Pos(j)) {
            result := result + [i * 32 + j];
          }
          j := j + 1;
        }
        i := i + 1;
      }
    }

    /** `evaluate`: only equality is served; any other operator is unsupported. */
    method Evaluate(op: Operator, key: K) returns (r: Result<seq<int>>)
      requires Valid()
      ensures op != EQUALS ==> r == Failure(UnsupportedPredicate)
      ensures op == EQUALS ==> r == Success(Lookup(Bits(), key))
    {
      if op != EQUALS {
        return Failure(UnsupportedPredicate);
      }
      var rows := Search(key);
      r := Success(rows);
    }
  }
}
