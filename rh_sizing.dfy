// The sizing arithmetic of `rhmap_grow`, `rhmap_resize` and `rhmap_rehash`:
// how many slots a table gets, how many elements it may hold, and how many
// bytes its two arrays take.
//
// The load factor is the default `0.8f`, whose exact value is
// 13421773 / 2^24.  The C code computes in `double`; a product of a 32-bit
// count with that float is exact in `double`, and the quotient
// `count / 0.8f - 0.5` is taken here as the exact rational before truncation.
module RhSizing {
  import opened RhLayout

  /** `0.8f` is LOAD_NUM / LOAD_DEN exactly. */
  const LOAD_NUM: int := 13421773
  const LOAD_DEN: int := 0x100_0000
  /** `RHMAP_DEFAULT_ENTRY_COUNT`. */
  const DEFAULT_ENTRY_COUNT: int := 16

  /** `(uint32_t)((double)n * (double)0.8f)`: the element capacity of n slots. */
  function Capacity(n: nat): nat
  {
    (n * LOAD_NUM) / LOAD_DEN
  }

  /** `(uint32_t)((double)count / (double)0.8f - 0.5)`: the slot count a capacity came from, before rounding. */
  function EntriesFor(count: nat): nat
  {
    if count == 0 then 0 else (2 * count * LOAD_DEN - LOAD_NUM) / (2 * LOAD_NUM)
  }

  /** The powers of two from p upward, the first one reaching v. */
  function Pow2AtLeast(p: nat, v: nat): nat
    requires p >= 1
    decreases v - p
  {
    if p >= v then p else Pow2AtLeast(2 * p, v)
  }

  /**
   * The 32-bit round-up bithack `v--; v |= v >> 1; ... v++`: 0 stays 0, a value
   * above 2^31 wraps to 0, anything else becomes the least power of two >= v.
   */
  function RoundUpPow2(v: nat): nat
  {
    if v == 0 || v > 0x8000_0000 then 0 else Pow2AtLeast(1, v)
  }

  /** The number of slots `rhmap_rehash` allocates for capacity `count`. */
  function NumEntries(count: nat): nat
  {
    RoundUpPow2(EntriesFor(count))
  }

  /**
   * A capacity `rhmap_rehash` turns into a consistent table: 0 (the sentinel
   * table) or one whose slot count is a valid power of two above it.
   */
  ghost predicate Rehashable(count: nat)
  {
    count == 0 || (3 <= count && SlotCount(NumEntries(count)) && count < NumEntries(count))
  }

  /** The first slot count `rhmap_grow` tries: initial (or 16) for an unallocated map, double otherwise, at least 4. */
  function GrowStart(mask: u32, initial: u32): nat
  {
    var n := (mask + 1) % WORD;
    var n1 := if n == 1 then (if initial != 0 then initial else DEFAULT_ENTRY_COUNT) else (2 * n) % WORD;
    if n1 < 4 then 4 else n1
  }

  /** The first slot count `rhmap_resize` tries: the request's slot count rounded up, at least 4. */
  function ResizeStart(request: nat): nat
  {
    var n := RoundUpPow2(EntriesFor(request));
    if n < 4 then 4 else n
  }

  /** The doubling loop shared by grow and resize: double n until its capacity holds `size` elements. */
  function GrowTarget(n: nat, size: nat): nat
    requires n >= 4
    decreases size - Capacity(n)
  {
    if Capacity(n) >= size then n
    else
      CapacityGrows(n);
      GrowTarget(2 * n, size)
  }

  /** The target of `rhmap_resize` as written: the loop only looks at the current size. */
  function ResizeTargetAsWritten(request: nat, size: nat): nat
  {
    GrowTarget(ResizeStart(request), size)
  }

  /** The target of a resize that honours the request: the loop also covers the requested size. */
  function ResizeTarget(request: nat, size: nat): nat
  {
    GrowTarget(ResizeStart(request), if request < size then size else request)
  }

  /** `((count + n) * sizeof(uint32_t) + 7) & ~7u`. */
  function AllocSize(count: nat, n: nat): nat
  {
    (((count + n) * 4 + 7) % WORD) / 8 * 8
  }

  // ---------------------------------------------------------------------
  // Capacity

  lemma CapacityBounds(n: nat)
    ensures n * LOAD_NUM - LOAD_DEN < Capacity(n) * LOAD_DEN <= n * LOAD_NUM
  {
  }

  /** Doubling at least 4 slots adds capacity. */
  lemma CapacityGrows(n: nat)
    requires n >= 4
    ensures Capacity(n) < Capacity(2 * n)
  {
    CapacityBounds(n);
    CapacityBounds(2 * n);
  }

  /** Capacity never shrinks as the slot count grows. */
  lemma CapacityMono(a: nat, b: nat)
    requires a <= b
    ensures Capacity(a) <= Capacity(b)
  {
    CapacityBounds(a);
    CapacityBounds(b);
    if Capacity(b) < Capacity(a) {
      MulMono(Capacity(b) + 1, Capacity(a), LOAD_DEN);
      assert false;
    }
  }

  // ---------------------------------------------------------------------
  // Powers of two

  lemma Pow2Positive(n: int)
    requires IsPow2(n)
    ensures n >= 1
  {
  }

  /** Of two powers of two the smaller is at most half the larger. */
  lemma Pow2Gap(p: int, n: int)
    requires IsPow2(p) && IsPow2(n) && p < n
    ensures 2 * p <= n
  {
    Pow2Positive(p);
    Pow2Divides(p, n);
    DivMod(n, p);
    var k := n / p;
    if k < 2 {
      MulMono(k, 1, p);
      assert false;
    }
    MulMono(2, k, p);
  }

  /** The first power of two from p upward reaching v is a power of two at least v. */
  lemma {:induction false} Pow2AtLeastOk(p: nat, v: nat)
    requires IsPow2(p)
    ensures IsPow2(Pow2AtLeast(p, v)) && v <= Pow2AtLeast(p, v) && p <= Pow2AtLeast(p, v)
    decreases v - p
  {
    Pow2Positive(p);
    if p < v {
      Pow2Double(p);
      Pow2AtLeastOk(2 * p, v);
    }
  }

  /** It is the power of two n when v lies in (n/2, n] and p <= n. */
  lemma {:induction false} Pow2AtLeastIs(p: nat, v: nat, n: nat)
    requires IsPow2(p) && IsPow2(n) && p <= n && n < 2 * v && v <= n
    ensures Pow2AtLeast(p, v) == n
    decreases n - p
  {
    Pow2Positive(p);
    if p >= v {
      if p < n {
        Pow2Gap(p, n);
        assert false;
      }
    } else {
      Pow2Gap(p, n);
      Pow2Double(p);
      Pow2AtLeastIs(2 * p, v, n);
    }
  }

  /** The bithack's result: 0, or the least power of two >= v. */
  lemma RoundUpOk(v: nat)
    ensures var r := RoundUpPow2(v);
      (r == 0 <==> v == 0 || v > 0x8000_0000) &&
      (r != 0 ==> IsPow2(r) && v <= r < 2 * v)
  {
    if 0 < v <= 0x8000_0000 {
      Pow2AtLeastOk(1, v);
      var r := Pow2AtLeast(1, v);
      if r >= 2 * v {
        Pow2Least(1, v, r / 2);
        assert false;
      }
    }
  }

  /** No power of two between p and the first one reaching v is itself at least v. */
  lemma {:induction false} Pow2Least(p: nat, v: nat, q: nat)
    requires IsPow2(p) && IsPow2(q) && p <= q && v <= q
    ensures Pow2AtLeast(p, v) <= q
    decreases v - p
  {
    Pow2Positive(p);
    if p < v {
      Pow2Gap(p, q);
      Pow2Double(p);
      Pow2Least(2 * p, v, q);
    }
  }

  // ---------------------------------------------------------------------
  // Rehash of a grown capacity

  lemma EntriesForBounds(c: nat)
    requires c >= 1
    ensures EntriesFor(c) * (2 * LOAD_NUM) <= 2 * c * LOAD_DEN - LOAD_NUM < (EntriesFor(c) + 1) * (2 * LOAD_NUM)
  {
  }

  /**
   * The capacity of a power-of-two slot count n >= 4 leads `rhmap_rehash`
   * back to exactly n slots, and leaves room for a free slot.
   */
  lemma RehashSized(n: nat)
    requires SlotCount(n)
    ensures 3 <= Capacity(n) < n && NumEntries(Capacity(n)) == n && Rehashable(Capacity(n))
  {
    var c := Capacity(n);
    CapacityBounds(n);
    assert 3 <= c by {
      if c < 3 {
        MulMono(c, 2, LOAD_DEN);
        assert false;
      }
    }
    assert c < n by {
      if n <= c {
        MulMono(n, c, LOAD_DEN);
        assert false;
      }
    }
    var v := EntriesFor(c);
    EntriesForBounds(c);
    assert v < n by {
      if n <= v {
        MulMono(n, v, 2 * LOAD_NUM);
        MulMono(2 * c, 2 * n, LOAD_DEN);
        assert false;
      }
    }
    assert n < 2 * v by {
      if n == 4 {
        assert c == 3;
      } else {
        assert n >= 8 by {
          if n < 8 {
            Pow2Gap(4, n);
            assert false;
          }
        }
        if v < n - 2 {
          MulMono(v + 1, n - 2, 2 * LOAD_NUM);
          MulMono(n * LOAD_NUM - LOAD_DEN, c * LOAD_DEN, 1);
          assert false;
        }
      }
    }
    Pow2AtLeastIs(1, v, n);
  }

  // ---------------------------------------------------------------------
  // Grow and resize targets

  /**
   * The doubling loop ends at a power of two (when it starts at one) whose
   * capacity holds `size`, and no earlier doubling did.
   */
  lemma {:induction false} GrowTargetOk(n: nat, size: nat)
    requires n >= 4
    ensures var t := GrowTarget(n, size);
      n <= t && size <= Capacity(t) && (IsPow2(n) ==> IsPow2(t)) &&
      (t == n || (n <= t / 2 && Capacity(t / 2) < size))
    decreases size - Capacity(n)
  {
    if Capacity(n) < size {
      CapacityGrows(n);
      GrowTargetOk(2 * n, size);
      if IsPow2(n) {
        Pow2Double(n);
      }
    }
  }

  /** The doubling target is the least power of two from n whose capacity holds `size`. */
  lemma {:induction false} GrowTargetLeast(n: nat, size: nat, q: nat)
    requires n >= 4 && IsPow2(n) && IsPow2(q) && n <= q && size <= Capacity(q)
    ensures GrowTarget(n, size) <= q
    decreases size - Capacity(n)
  {
    if Capacity(n) < size {
      CapacityGrows(n);
      if q == n {
        assert false;
      }
      Pow2Gap(n, q);
      Pow2Double(n);
      GrowTargetLeast(2 * n, size, q);
    }
  }

  /** The first slot count of a grow is a power of two of at least 4 when the map was valid. */
  lemma GrowStartOk(mask: u32, initial: u32)
    requires mask + 1 == 1 || mask + 1 == WORD || SlotCount(mask + 1)
    requires initial == 0 || IsPow2(initial)
    ensures IsPow2(GrowStart(mask, initial)) && 4 <= GrowStart(mask, initial)
  {
    var n := (mask + 1) % WORD;
    if n == 1 {
      if initial != 0 {
        if initial < 4 {
          assert IsPow2(4) by {
            assert IsPow2(1);
            Pow2Double(1);
            Pow2Double(2);
          }
        }
      } else {
        assert IsPow2(16) by {
          assert IsPow2(1);
          Pow2Double(1);
          Pow2Double(2);
          Pow2Double(4);
          Pow2Double(8);
        }
      }
    } else if n == 0 {
      assert IsPow2(4) by {
        assert IsPow2(1);
        Pow2Double(1);
        Pow2Double(2);
      }
    } else {
      ModOfSmall(mask + 1, WORD);
      ModOfSmall(2 * n, WORD);
      Pow2Double(n);
    }
  }

  /**
   * Growing a table filled to its capacity doubles it once, and the doubled
   * table has room for another element.
   */
  lemma GrowRoom(mask: u32, size: nat)
    requires SlotCount(mask + 1) && size == Capacity(mask + 1)
    ensures GrowTarget(GrowStart(mask, 0), size) == 2 * (mask + 1)
    ensures size < Capacity(2 * (mask + 1))
  {
    var n := mask + 1;
    ModOfSmall(n, WORD);
    ModOfSmall(2 * n, WORD);
    assert GrowStart(mask, 0) == 2 * n;
    CapacityGrows(n);
  }

  /** The first slot count of a resize is a power of two of at least 4. */
  lemma ResizeStartOk(request: nat)
    ensures IsPow2(ResizeStart(request)) && 4 <= ResizeStart(request)
  {
    RoundUpOk(EntriesFor(request));
    if RoundUpPow2(EntriesFor(request)) < 4 {
      assert IsPow2(4) by {
        assert IsPow2(1);
        Pow2Double(1);
        Pow2Double(2);
      }
    }
  }

  /** The corrected resize target holds both the request and the current size. */
  lemma ResizeTargetOk(request: nat, size: nat)
    ensures var t := ResizeTarget(request, size);
      IsPow2(t) && 4 <= t && request <= Capacity(t) && size <= Capacity(t)
  {
    ResizeStartOk(request);
    GrowTargetOk(ResizeStart(request), if request < size then size else request);
  }

  /** Where the resize as written already holds the request, the corrected resize agrees with it. */
  lemma ResizeTargetAgrees(request: nat, size: nat)
    requires request <= Capacity(ResizeTargetAsWritten(request, size))
    ensures ResizeTarget(request, size) == ResizeTargetAsWritten(request, size)
  {
    var n := ResizeStart(request);
    ResizeStartOk(request);
    var t := GrowTarget(n, size);
    GrowTargetOk(n, size);
    var big := if request < size then size else request;
    GrowTargetOk(n, big);
    GrowTargetLeast(n, big, t);
    var u := GrowTarget(n, big);
    if u < t {
      Pow2Gap(u, t);
      assert false;
    }
  }

  /** `rhmap_resize` as written can fall short of the request: resizing an empty map for 7 gives capacity 6. */
  lemma ResizeAsWrittenShort()
    ensures EntriesFor(7) == 8 && ResizeStart(7) == 8
    ensures ResizeTargetAsWritten(7, 0) == 8 && Capacity(8) == 6
    ensures ResizeTarget(7, 0) == 16 && Capacity(16) == 12
  {
    assert Pow2AtLeast(1, 8) == 8;
  }

  // ---------------------------------------------------------------------
  // Allocation size

  /** The allocation holds `count` hashes and n entries and is 8-byte aligned. */
  lemma AllocSizeOk(count: nat, n: nat)
    requires (count + n) * 4 + 7 < WORD
    ensures AllocSize(count, n) % 8 == 0
    ensures 4 * (count + n) <= AllocSize(count, n) < 4 * (count + n) + 8
  {
    ModOfSmall((count + n) * 4 + 7, WORD);
  }
}
