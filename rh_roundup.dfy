// The round-up-to-a-power-of-two bithack of `rhmap_resize` and
// `rhmap_rehash`, on 32-bit words.
module RhRoundUp {

  /** `v--; v |= v >> 1; v |= v >> 2; v |= v >> 4; v |= v >> 8; v |= v >> 16; v++`. */
  function RoundUp32(x: bv32): bv32
  {
    var v0 := x - 1;
    var v1 := v0 | (v0 >> 1);
    var v2 := v1 | (v1 >> 2);
    var v3 := v2 | (v2 >> 4);
    var v4 := v3 | (v3 >> 8);
    var v5 := v4 | (v4 >> 16);
    v5 + 1
  }

  /** A word with exactly one bit set. */
  predicate OneBit(x: bv32)
  {
    x != 0 && x & (x - 1) == 0
  }

  /**
   * For 1 <= x <= 2^31 the bithack gives the least power of two at least x:
   * one bit set, at least x, and half of it below x.  Zero and anything
   * above 2^31 wrap to zero.
   */
  lemma RoundUp32Ok(x: bv32)
    ensures var r := RoundUp32(x);
      (1 <= x <= 0x8000_0000 ==> OneBit(r) && x <= r && (r >> 1) < x) &&
      (x == 0 || x > 0x8000_0000 ==> r == 0)
  {
  }
}
