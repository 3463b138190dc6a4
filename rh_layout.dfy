// Bit layout of an rhmap entry word and the invariants of the slot table,
// stated over plain sequences so that the engine class and its lemmas can
// share them.
//
// The engine's uint32_t words are modelled as integers in [0, 2^32).  With
// M = mask + 1 a power of two (4 <= M <= 2^28), the C bit operations map to
// integer arithmetic as follows:
//   x & mask          == x % M
//   x & 0x0fffffff    == x % K          (K = 2^28)
//   x >> 28           == x / K
//   body | d << 28    == d * K + body   (body < K)
//   ((a ^ b) & ~mask) == 0  <==>  a / M == b / M
//   (a - b) & mask    == (a - b) % M    (Dafny's % is never negative)
module RhLayout {

  /** 2^28: the scan-distance field starts at bit 28. */
  const K: int := 0x1000_0000
  /** 2^32. */
  const WORD: int := 0x1_0000_0000
  /** The largest value the 4-bit scan-distance field holds; it means "15 or more". */
  const CLAMP: int := 15

  type u32 = x: int | 0 <= x < 0x1_0000_0000

  // ---------------------------------------------------------------------
  // Arithmetic helpers

  lemma ZeroFromBound(x: int, m: int)
    requires m > 0 && -m < x * m < m
    ensures x == 0
  {
  }

  /** Quotient and remainder are unique. */
  lemma DivUnique(a: int, m: int, q: int, r: int)
    requires m > 0 && 0 <= r < m && a == q * m + r
    ensures a / m == q && a % m == r
  {
    var q0, r0 := a / m, a % m;
    assert (q0 - q) * m == q0 * m - q * m;
    ZeroFromBound(q0 - q, m);
  }

  lemma ModAdd(a: int, b: int, m: int)
    requires m > 0
    ensures (a % m + b) % m == (a + b) % m
  {
    var q, r := a / m, a % m;
    var q2, r2 := (r + b) / m, (r + b) % m;
    assert (q + q2) * m == q * m + q2 * m;
    DivUnique(a + b, m, q + q2, r2);
  }

  lemma ModSub(a: int, b: int, m: int)
    requires m > 0
    ensures (a - b % m) % m == (a - b) % m
  {
    var q, r := b / m, b % m;
    var q2, r2 := (a - r) / m, (a - r) % m;
    assert (q2 - q) * m == q2 * m - q * m;
    DivUnique(a - b, m, q2 - q, r2);
  }

  lemma DivMod(a: int, m: int)
    requires m > 0
    ensures a == (a / m) * m + a % m
    ensures 0 <= a ==> 0 <= a / m
  {
    if 0 <= a && a / m < 0 {
      MulCancelLess(a / m, 0, m);
    }
  }

  lemma MulMono(a: int, b: int, m: int)
    requires m > 0 && a <= b
    ensures a * m <= b * m
  {
    assert b * m - a * m == (b - a) * m;
  }

  /** Multiplying both sides of k == q * m by d. */
  lemma MulSubst(d: int, k: int, q: int, m: int)
    requires k == q * m
    ensures d * k == (d * q) * m
  {
  }

  lemma MulCancelLess(x: int, y: int, m: int)
    requires m > 0 && x * m < y * m
    ensures x < y
  {
    assert (y - x) * m == y * m - x * m;
  }

  lemma ModOfSmall(a: int, m: int)
    requires 0 <= a < m
    ensures a % m == a
  {
    DivUnique(a, m, 0, a);
  }

  /** Stepping one slot forward lowers the cyclic distance to a target by one. */
  lemma StepCloser(z: int, a: int, m: int)
    requires m > 0 && (z - a) % m != 0
    ensures (z - (a + 1)) % m == (z - a) % m - 1
  {
    var d := (z - a) % m;
    var q := (z - a) / m;
    assert z - (a + 1) == q * m + (d - 1);
    DivUnique(z - (a + 1), m, q, d - 1);
  }

  // ---------------------------------------------------------------------
  // Powers of two

  ghost predicate IsPow2(n: int)
    decreases if n > 0 then n else 0
  {
    n == 1 || (n >= 2 && n % 2 == 0 && IsPow2(n / 2))
  }

  lemma Pow2Double(n: int)
    requires IsPow2(n)
    ensures IsPow2(2 * n)
  {
    assert (2 * n) / 2 == n;
  }

  /** A smaller power of two divides a larger one. */
  lemma {:induction false} Pow2Divides(a: int, b: int)
    requires IsPow2(a) && IsPow2(b) && a <= b
    ensures b % a == 0
    decreases a
  {
    if a == 1 {
      DivUnique(b, 1, b, 0);
    } else {
      assert b >= 2;
      Pow2Divides(a / 2, b / 2);
      var c := (b / 2) / (a / 2);
      assert b / 2 == c * (a / 2);
      assert b == c * a;
      DivUnique(b, a, c, 0);
    }
  }

  lemma KIsPow2()
    ensures IsPow2(K)
  {
    assert IsPow2(0x10);
    assert IsPow2(0x100);
    assert IsPow2(0x1000);
    assert IsPow2(0x1_0000);
    assert IsPow2(0x10_0000);
    assert IsPow2(0x100_0000);
  }

  /** The slot counts an allocated table can have: N = log2(M) between 2 and 28. */
  ghost predicate SlotCount(m: int)
  {
    IsPow2(m) && 4 <= m <= K
  }

  lemma SlotCountDividesK(m: int)
    requires SlotCount(m)
    ensures K % m == 0 && K == (K / m) * m && K / m >= 1
  {
    KIsPow2();
    Pow2Divides(m, K);
    DivMod(K, m);
    MulCancelLess(0, K / m, m);
  }

  // ---------------------------------------------------------------------
  // Entry words: [0,N) dense index, [N,28) hash bits, [28,32) scan distance

  function Clamp(d: int): int
  {
    if d < CLAMP then d else CLAMP
  }

  /** The scan-distance field: 0 for a free slot, 1..14 exact, 15 clamped. */
  function Dist(w: int): int
  {
    w / K
  }

  /** Hash bits and dense index together: `entry & 0x0fffffff`. */
  function Body(w: int): int
  {
    w % K
  }

  /** The dense index field: `entry & mask`. */
  function Idx(w: int, m: int): int
    requires m > 0
  {
    w % m
  }

  /** Hash bits [N,28) of an entry, shifted down by N. */
  function Hi(w: int, m: int): int
    requires m > 0
  {
    w % K / m
  }

  /** The word `body | d << 28`. */
  function Word(d: int, body: int): int
  {
    d * K + body
  }

  /** Decoding a packed word gives back its three fields. */
  lemma Decode(d: int, hi: int, idx: int, m: int)
    requires SlotCount(m)
    requires 0 <= d && 0 <= hi < K / m && 0 <= idx < m
    ensures Dist(Word(d, hi * m + idx)) == d
    ensures Body(Word(d, hi * m + idx)) == hi * m + idx
    ensures Idx(Word(d, hi * m + idx), m) == idx
    ensures Hi(Word(d, hi * m + idx), m) == hi
    ensures Word(d, hi * m + idx) / m == d * (K / m) + hi
  {
    SlotCountDividesK(m);
    var q := K / m;
    var body := hi * m + idx;
    MulMono(0, hi, m);
    MulMono(hi + 1, q, m);
    assert 0 <= body < K;
    var w := d * K + body;
    DivUnique(w, K, d, body);
    DivUnique(body, m, hi, idx);
    MulSubst(d, K, q, m);
    DivUnique(w, m, d * q + hi, idx);
  }


  /** The hash bits above the mask of a 28-bit hash fit in 28 - N bits. */
  lemma HiBound(h: int, m: int)
    requires SlotCount(m) && 0 <= h < K
    ensures 0 <= h / m < K / m
  {
    SlotCountDividesK(m);
    DivMod(h, m);
    MulCancelLess(h / m, K / m, m);
  }

  /** The word `(hash & ~mask) | idx | d << 28` decoded. */
  lemma Pack(d: int, h: int, idx: int, m: int)
    requires SlotCount(m) && 0 <= d && 0 <= h < K && 0 <= idx < m
    ensures var b := (h / m) * m + idx;
      0 <= b < K && Dist(Word(d, b)) == d && Body(Word(d, b)) == b &&
      Idx(Word(d, b), m) == idx && Hi(Word(d, b), m) == h / m
  {
    HiBound(h, m);
    Decode(d, h / m, idx, m);
  }

  /** Every word below 2^32 splits into its three fields. */
  lemma Split(w: int, m: int)
    requires SlotCount(m) && 0 <= w
    ensures 0 <= Hi(w, m) < K / m && 0 <= Idx(w, m) < m
    ensures w == Word(Dist(w), Hi(w, m) * m + Idx(w, m))
  {
    SlotCountDividesK(m);
    var b := w % K;
    HiBound(b, m);
    DivMod(b, m);
    DivMod(w, K);
    MulSubst(w / K, K, K / m, m);
    DivUnique(w, m, (w / K) * (K / m) + b / m, b % m);
  }


  /** An entry viewed through the mask: the scan field, then the hash bits. */
  lemma AboveMask(w: int, m: int)
    requires SlotCount(m) && 0 <= w
    ensures w / m == Dist(w) * (K / m) + Hi(w, m)
    ensures 0 <= Hi(w, m) < K / m
  {
    Split(w, m);
    Decode(Dist(w), Hi(w, m), Idx(w, m), m);
  }

  /** The fields of `hash | d << 28` for a 28-bit hash. */
  lemma HashWord(d: int, h: int, m: int)
    requires SlotCount(m) && 0 <= d && 0 <= h < K
    ensures Dist(Word(d, h)) == d && Hi(Word(d, h), m) == h / m && Idx(Word(d, h), m) == h % m
  {
    DivMod(h, m);
    HiBound(h, m);
    Decode(d, h / m, h % m, m);
    assert Word(d, h) == Word(d, (h / m) * m + h % m);
  }


  /**
   * The match test `((entry ^ ref) & ~mask) == 0` with `ref = hash | probe << 28`
   * holds exactly when the scan field equals the probe and the hash bits above
   * the mask agree.
   */
  lemma MatchIff(w: int, h: int, p: int, m: int)
    requires SlotCount(m) && 0 <= w && 0 <= h < K && 0 <= p
    ensures (w / m == Word(p, h) / m) <==> (Dist(w) == p && Hi(w, m) == h / m)
  {
    SlotCountDividesK(m);
    var q := K / m;
    AboveMask(w, m);
    AboveMask(Word(p, h), m);
    HashWord(p, h, m);
    if w / m == Word(p, h) / m {
      DivUnique(w / m, q, Dist(w), Hi(w, m));
      DivUnique(w / m, q, p, h / m);
    }
  }
}
