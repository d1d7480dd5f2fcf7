/** Single bits of a 32-bit word, as `int` bitmaps use them. */
module BitWords {

  /** `1 << j`: the bit of a word that stands for its row `j`. */
  function Mask(j: bv5): bv32
  {
    (1 as bv32) << j
  }

  /** `(w & (1 << j)) != 0`: bit `j` of `w` is set. */
  predicate BitSet(w: bv32, j: bv5)
  {
    w & Mask(j) != 0
  }

  /** `w | (1 << j)`: `w` with bit `j` set. */
  function WithBit(w: bv32, j: bv5): bv32
  {
    w | Mask(j)
  }

  lemma AndDistributes(w: bv32, m: bv32, n: bv32)
    ensures (w | m) & n != 0 <==> w & n != 0 || m & n != 0
  {
  }

  lemma ShiftsOverlap(j: bv5, k: bv5)
    ensures Mask(j) & Mask(k) != 0 <==> j == k
  {
  }

  lemma SingleBit(w: bv32, j: bv5)
    requires w & ((1 as bv32) << j) != 0
    ensures w & ((1 as bv32) << j) == (1 as bv32) << j
  {
  }

  lemma OrSubsumed(w: bv32, m: bv32)
    requires w & m == m
    ensures w | m == w
  {
  }

  /** Setting bit `j` leaves every other bit as it was. */
  lemma MaskOr(w: bv32, j: bv5, k: bv5)
    ensures BitSet(WithBit(w, j), k) <==> BitSet(w, k) || j == k
  {
    var m, n := Mask(j), Mask(k);
    var a, b, c := (w | m) & n != 0, w & n != 0, m & n != 0;
    AndDistributes(w, m, n);
    ShiftsOverlap(j, k);
    assert a <==> b || c;
    assert c <==> j == k;
  }

  /** Setting a bit that is already set leaves the word unchanged. */
  lemma OrPresentBit(w: bv32, j: bv5)
    requires BitSet(w, j)
    ensures WithBit(w, j) == w
  {
    SingleBit(w, j);
    OrSubsumed(w, Mask(j));
  }
}
