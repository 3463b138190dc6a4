// `rhmap_insert` as a function on the slot table, and the proof that it keeps
// the index structure and (when resumed consistently) the Robin Hood invariant.
//
// The insert probes like `rhmap_find` until it meets a potential match, an
// empty slot, or an element closer to its home than the probe; in the last
// case it takes that slot and carries the displaced element on, swapping again
// whenever it meets an element closer to home, until an empty slot is found.
module RhInsert {
  import opened RhLayout
  import opened RhTable

  /** The outcome of an insert: a potential match, or the new table and slot index. */
  datatype Insertion = Matched(index: int, scan: int) | Placed(e: seq<int>, slots: seq<int>) | Stuck

  /** Ghost bookkeeping: record that dense index i now lives in slot v. */
  ghost function SetSlot(slots: seq<int>, i: int, v: int): seq<int>
  {
    if 0 <= i < |slots| then slots[i := v] else slots
  }

  /** Every slot holds a nonnegative word; occupied ones refer to a dense index below n. */
  ghost predicate IdxBelow(e: seq<int>, m: int, n: int)
    requires m > 0
  {
    forall s :: 0 <= s < |e| ==> 0 <= e[s] && (e[s] != 0 ==> Idx(e[s], m) < n)
  }

  /** An encoded table refers only to live dense indices. */
  lemma EncodedBelow(e: seq<int>, hs: seq<int>, m: int, n: int)
    requires Encoded(e, hs, m) && |hs| <= n
    ensures IdxBelow(e, m, n)
  {
    forall s | 0 <= s < |e|
      ensures 0 <= e[s] && (e[s] != 0 ==> Idx(e[s], m) < n)
    {
      assert WordOk(e[s], hs, m);
    }
  }

  /** The word `rhmap_insert` stores for the new element: `(hash & ~mask) | size`. */
  function InsertBody(h: int, size: int, m: int): int
    requires m > 0
  {
    (h / m) * m + size
  }

  lemma InsertBodyIdx(h: int, size: int, m: int)
    requires m > 0 && 0 <= h && 0 <= size < m
    ensures Idx(InsertBody(h, size, m), m) == size && 0 <= InsertBody(h, size, m)
  {
    ModShift(size, h / m, m);
    ModOfSmall(size, m);
  }

  /**
   * The scan distance of an occupied slot, resolved through the hash array when
   * the 4-bit field is clamped (the corrected form of the resolution in
   * `rhmap_insert`: `((ix - hashes[entry & mask]) & mask) + 1`).
   */
  function SlotScan(entry: int, ix: int, hl: seq<int>, m: int): int
    requires m > 0 && Idx(entry, m) < |hl|
  {
    if Dist(entry) == CLAMP then (ix - hl[Idx(entry, m)]) % m + 1 else Dist(entry)
  }

  /**
   * The resolution as `rhmap_insert` writes it, `(ix - hashes[ix]) & mask`:
   * the hash array is read at the slot number rather than at the entry's
   * dense index, and the distance comes out 0-based.
   */
  function SlotScanAsWritten(entry: int, ix: int, hl: seq<int>, m: int): int
    requires m > 0 && 0 <= ix < |hl|
  {
    if Dist(entry) == CLAMP then (ix - hl[ix]) % m else Dist(entry)
  }

  /** Below the clamp the two resolutions agree: the defect needs a distance of 15 or more. */
  lemma SlotScanAsWrittenAgrees(entry: int, ix: int, hl: seq<int>, m: int)
    requires m > 0 && 0 <= ix < |hl| && Idx(entry, m) < |hl| && Dist(entry) < CLAMP
    ensures SlotScanAsWritten(entry, ix, hl, m) == SlotScan(entry, ix, hl, m) == Dist(entry)
  {
  }

  /**
   * A table of 32 slots, ordered and exact: fifteen elements with home 0 fill
   * slots 0..14 (the one in slot 14, dense index 15, is 15 slots from home, so
   * its field is clamped), and dense index 14 has home 13 and sits in slot 15.
   * As written, the resolution at slot 14 reads the hash of dense index 14 and
   * yields 1, so an insert of hash 13 reaching slot 14 at probe distance 2
   * displaces an element that is 15 slots from home; the corrected resolution
   * yields 15 and the insert passes it.
   */
  lemma SlotScanAsWrittenExample()
    ensures var e := ClampedTable(); var hs := ClampedHashes();
      RobinHood(e, hs, 32) && e[14] != 0 && TD(e, hs, 32, 14) == 15 &&
      SlotScan(e[14], 14, hs, 32) == 15 && SlotScanAsWritten(e[14], 14, hs, 32) == 1 &&
      (13 + 1) % 32 == 14 && e[14] / 32 != Word(Clamp(2), 13) / 32
  {
    ClampedRobinHood();
    ClampedWord(14);
  }

  lemma ClampedRobinHood()
    ensures RobinHood(ClampedTable(), ClampedHashes(), 32)
  {
    ClampedEncoded();
    ClampedExact();
    ClampedOrdered();
  }

  lemma ClampedExact()
    requires Encoded(ClampedTable(), ClampedHashes(), 32)
    ensures Exact(ClampedTable(), ClampedHashes(), 32)
  {
    var e, hs := ClampedTable(), ClampedHashes();
    forall s | 0 <= s < 32 && e[s] != 0
      ensures Dist(e[s]) == Clamp(TD(e, hs, 32, s))
    {
      ClampedWord(s);
    }
  }

  lemma ClampedOrdered()
    requires Encoded(ClampedTable(), ClampedHashes(), 32)
    ensures Ordered(ClampedTable(), ClampedHashes(), 32)
  {
    var e, hs := ClampedTable(), ClampedHashes();
    forall s | 0 <= s < 32 && e[s] != 0 && TD(e, hs, 32, s) > 1
      ensures e[Prev(s, 32)] != 0 && TD(e, hs, 32, Prev(s, 32)) >= TD(e, hs, 32, s) - 1
    {
      ClampedWord(s);
      ClampedWord(s - 1);
    }
  }

  lemma ClampedEncoded()
    ensures Encoded(ClampedTable(), ClampedHashes(), 32)
  {
    var e, hs := ClampedTable(), ClampedHashes();
    SlotCount32();
    forall s | 0 <= s < 32
      ensures WordOk(e[s], hs, 32)
    {
      ClampedWord(s);
    }
  }

  /** The words of the example table. */
  function ClampedTable(): seq<int>
  {
    seq(32, s => if s < 14 then Word(s + 1, s) else if s == 14 then Word(15, 15) else if s == 15 then Word(3, 14) else 0)
  }

  function ClampedHashes(): seq<int>
  {
    seq(16, i => if i == 14 then 13 else 0)
  }

  lemma ClampedWord(s: int)
    requires 0 <= s < 32
    ensures var w := ClampedTable()[s];
      (s < 14 ==> Dist(w) == s + 1 && Idx(w, 32) == s && Hi(w, 32) == 0) &&
      (s == 14 ==> Dist(w) == 15 && Idx(w, 32) == 15 && Hi(w, 32) == 0) &&
      (s == 15 ==> Dist(w) == 3 && Idx(w, 32) == 14 && Hi(w, 32) == 0) &&
      (s > 15 ==> w == 0)
  {
    SlotCount32();
    if s < 14 {
      Pack(s + 1, 0, s, 32);
    } else if s == 14 {
      Pack(15, 0, 15, 32);
    } else if s == 15 {
      Pack(3, 0, 14, 32);
    }
  }

  lemma SlotCount32()
    ensures SlotCount(32)
  {
    KIsPow2();
    assert IsPow2(32) by { assert IsPow2(2); assert IsPow2(4); assert IsPow2(8); assert IsPow2(16); }
  }

  /** A word keeps its dense index when a scan field is put on top of it. */
  lemma WordIdx(d: int, b: int, m: int)
    requires SlotCount(m) && 0 <= d
    ensures Idx(Word(d, b), m) == Idx(b, m)
  {
    SlotCountDividesK(m);
    assert Word(d, b) == b + (d * (K / m)) * m by {
      assert d * K == d * ((K / m) * m);
    }
    ModShift(b, d * (K / m), m);
  }

  /** Dropping the scan field keeps the dense index. */
  lemma BodyIdx(w: int, m: int)
    requires SlotCount(m) && 0 <= w
    ensures Idx(Body(w), m) == Idx(w, m) && 0 <= Body(w) < K
  {
    Split(w, m);
    WordIdx(Dist(w), Body(w), m);
    assert w == Word(Dist(w), Body(w));
  }

  /** Writing a word whose index is below n keeps every index below n. */
  lemma IdxBelowPut(e: seq<int>, m: int, n: int, t: int, d: int, b: int)
    requires SlotCount(m) && IdxBelow(e, m, n) && 0 <= t < |e| && 1 <= d && 0 <= b && Idx(b, m) < n
    ensures IdxBelow(e[t := Word(d, b)], m, n)
  {
    WordIdx(d, b, m);
  }

  /**
   * Phase two of `rhmap_insert`: `carry` (hash bits and dense index, no scan
   * field) has been displaced from slot ix, where it was `scan` slots from
   * home; look at no more than n further slots for a place.
   */
  ghost function Displace(e: seq<int>, slots: seq<int>, hl: seq<int>, m: int,
                          ix: int, scan: int, carry: int, n: nat): Insertion
    requires SlotCount(m) && |e| == m && IdxBelow(e, m, |hl|) && Idx(carry, m) < |hl| && 0 <= carry
    requires 0 <= scan
    decreases n
  {
    if n == 0 then Stuck
    else
      var t := Next(ix, m);
      var probe := Clamp(scan + 1);
      var entry := e[t];
      var put := e[t := Word(probe, carry)];
      if entry == 0 then Placed(put, SetSlot(slots, Idx(carry, m), t))
      else
        var ss := SlotScan(entry, t, hl, m);
        if ss < scan + 1 then
          IdxBelowPut(e, m, |hl|, t, probe, carry);
          BodyIdx(entry, m);
          Displace(put, SetSlot(slots, Idx(carry, m), t), hl, m, t, ss, Body(entry), n - 1)
        else
          Displace(e, slots, hl, m, t, scan + 1, carry, n - 1)
  }

  /**
   * Phase one of `rhmap_insert` for 28-bit hash h after `scan` slots, the new
   * element getting dense index `size`; look at no more than n slots.
   */
  ghost function InsertFrom(e: seq<int>, slots: seq<int>, hl: seq<int>, m: int,
                            h: int, size: int, scan: int, n: nat): Insertion
    requires SlotCount(m) && |e| == m && IdxBelow(e, m, |hl|) && 0 <= size < |hl| && size < m
    requires 0 <= h < K && 0 <= scan
    decreases n
  {
    if n == 0 then Stuck
    else
      var insert := InsertBody(h, size, m);
      var t := (h + scan) % m;
      var probe := Clamp(scan + 1);
      var entry := e[t];
      var put := e[t := Word(probe, insert)];
      if entry / m == Word(probe, h) / m then Matched(Idx(entry, m), scan + 1)
      else if entry == 0 then Placed(put, SetSlot(slots, size, t))
      else
        var ss := SlotScan(entry, t, hl, m);
        if ss < scan + 1 then
          InsertBodyIdx(h, size, m);
          IdxBelowPut(e, m, |hl|, t, probe, insert);
          BodyIdx(entry, m);
          Displace(put, SetSlot(slots, size, t), hl, m, t, ss, Body(entry), m)
        else
          InsertFrom(e, slots, hl, m, h, size, scan + 1, n - 1)
  }

  // ---------------------------------------------------------------------
  // One step of the insert on the table invariants

  /** The hash bits and dense index of element c, as the insert carries them. */
  ghost function BodyOf(hs: seq<int>, m: int, c: int): int
    requires m > 0 && 0 <= c < |hs|
  {
    (hs[c] / m) * m + c
  }

  /** The table with element c carried (not in any slot) and everyone else indexed. */
  ghost predicate Carrying(e: seq<int>, hs: seq<int>, slots: seq<int>, m: int, c: int)
  {
    Encoded(e, hs, m) && |slots| == |hs| && 0 <= c < |hs| && IndexedBut(e, slots, m, c)
  }

  /** The Robin Hood facts while element c is carried with `scan` slots behind it. */
  ghost predicate Ordering(e: seq<int>, hs: seq<int>, m: int, c: int, scan: int)
    requires Encoded(e, hs, m) && 0 <= c < |hs|
  {
    Exact(e, hs, m) && Ordered(e, hs, m) && 0 <= scan && ResumeOk(e, hs, m, hs[c], scan)
  }

  /** The word for element c with scan field d, decoded. */
  lemma CarryWord(hs: seq<int>, m: int, c: int, d: int)
    requires SlotCount(m) && 0 <= c < |hs| < m && 0 <= hs[c] < K && 1 <= d <= CLAMP
    ensures var w := Word(d, BodyOf(hs, m, c));
      K <= w < 16 * K && Dist(w) == d && Idx(w, m) == c && Hi(w, m) == hs[c] / m &&
      Body(w) == BodyOf(hs, m, c) && 0 <= BodyOf(hs, m, c) < K
  {
    Pack(d, hs[c], c, m);
  }

  lemma CarryIdx(hs: seq<int>, m: int, c: int)
    requires m > 0 && 0 <= c < |hs| && c < m && 0 <= hs[c]
    ensures Idx(BodyOf(hs, m, c), m) == c && 0 <= BodyOf(hs, m, c)
  {
    ModShift(c, hs[c] / m, m);
    ModOfSmall(c, m);
  }

  /** The body of an occupied slot is its element's carried form. */
  lemma BodyIsCarry(e: seq<int>, hs: seq<int>, m: int, t: int)
    requires Encoded(e, hs, m) && 0 <= t < m && e[t] != 0
    ensures Idx(e[t], m) < |hs| && Body(e[t]) == BodyOf(hs, m, Idx(e[t], m))
  {
    assert WordOk(e[t], hs, m);
    Split(e[t], m);
    Decode(Dist(e[t]), Hi(e[t], m), Idx(e[t], m), m);
  }

  /**
   * Writing the carried element into slot t keeps the encoding; if t was free
   * every element is indexed again, otherwise t's old element is now carried.
   */
  lemma PutStruct(e: seq<int>, hs: seq<int>, slots: seq<int>, m: int, c: int, t: int, d: int)
    requires Carrying(e, hs, slots, m, c) && 0 <= t < m && 1 <= d <= CLAMP
    ensures var e2 := e[t := Word(d, BodyOf(hs, m, c))];
      Encoded(e2, hs, m) &&
      (e[t] == 0 ==> Indexed(e2, slots[c := t], m)) &&
      (e[t] != 0 ==> Carrying(e2, hs, slots[c := t], m, Idx(e[t], m)))
  {
    CarryWord(hs, m, c, d);
    var e2 := e[t := Word(d, BodyOf(hs, m, c))];
    assert WordOk(e2[t], hs, m);
  }

  /**
   * Overwriting slot t with an element q slots from home keeps the ordering at
   * slot s, provided the ordering holds around t: behind t (an element at least
   * q - 1 from home) and in front of it (an element at most q + 1 from home).
   */
  lemma PutOrderedAt(e: seq<int>, hs: seq<int>, m: int, t: int, w: int, q: int, s: int)
    requires Encoded(e, hs, m) && Ordered(e, hs, m) && 0 <= t < m && Encoded(e[t := w], hs, m)
    requires w != 0 && TD(e[t := w], hs, m, t) == q
    requires q > 1 ==> e[Prev(t, m)] != 0 && Prev(t, m) != t && TD(e, hs, m, Prev(t, m)) >= q - 1
    requires var u := Next(t, m); u != t && e[u] != 0 && TD(e, hs, m, u) > 1 ==> q >= TD(e, hs, m, u) - 1
    requires 0 <= s < m && e[t := w][s] != 0 && TD(e[t := w], hs, m, s) > 1
    ensures var e2 := e[t := w];
      e2[Prev(s, m)] != 0 && TD(e2, hs, m, Prev(s, m)) >= TD(e2, hs, m, s) - 1
  {
    var e2 := e[t := w];
    PrevNext(s, t, m);
    if s != t {
      assert TD(e2, hs, m, s) == TD(e, hs, m, s);
      if Prev(s, m) != t {
        assert TD(e2, hs, m, Prev(s, m)) == TD(e, hs, m, Prev(s, m));
      }
    }
  }

  /**
   * Placing the carried element at its next probe slot t, either free or held
   * by an element nearer its home than the probe, keeps the table exact and
   * ordered; the placed element is scan + 1 slots from home.
   */
  lemma PutRH(e: seq<int>, hs: seq<int>, slots: seq<int>, m: int, c: int, scan: int)
    requires Carrying(e, hs, slots, m, c) && Ordering(e, hs, m, c, scan) && scan < m
    requires var t := (hs[c] + scan) % m; e[t] == 0 || TD(e, hs, m, t) < scan + 1
    ensures var t := (hs[c] + scan) % m;
      var e2 := e[t := Word(Clamp(scan + 1), BodyOf(hs, m, c))];
      Encoded(e2, hs, m) && e2[t] != 0 && TD(e2, hs, m, t) == scan + 1 &&
      Exact(e2, hs, m) && Ordered(e2, hs, m)
  {
    var hc := hs[c];
    var t := (hc + scan) % m;
    var w := Word(Clamp(scan + 1), BodyOf(hs, m, c));
    var e2 := e[t := w];
    CarryWord(hs, m, c, Clamp(scan + 1));
    PutStruct(e, hs, slots, m, c, t, Clamp(scan + 1));
    ProbeDistance(hc, scan + 1, m);
    assert TD(e2, hs, m, t) == scan + 1;
    ProbeNext(hc, scan, m);
    var u := Next(t, m);
    PrevNext(t, u, m);
    if u != t && e[u] != 0 && TD(e, hs, m, u) > 1 {
      assert e[Prev(u, m)] != 0;
    }
    forall s | 0 <= s < m && e2[s] != 0 && TD(e2, hs, m, s) > 1
      ensures e2[Prev(s, m)] != 0 && TD(e2, hs, m, Prev(s, m)) >= TD(e2, hs, m, s) - 1
    {
      PutOrderedAt(e, hs, m, t, w, scan + 1, s);
    }
    forall s | 0 <= s < m && e2[s] != 0
      ensures Dist(e2[s]) == Clamp(TD(e2, hs, m, s))
    {
      if s != t {
        assert TD(e2, hs, m, s) == TD(e, hs, m, s);
      }
    }
  }

  /**
   * After a swap at slot t, the displaced element y resumes consistently: it
   * sat q = TD(t) slots from home at t, and t now holds an element further from home.
   */
  lemma SwapResume(e: seq<int>, hs: seq<int>, m: int, t: int, w: int, q: int)
    requires Encoded(e, hs, m) && 0 <= t < m && e[t] != 0 && q == TD(e, hs, m, t)
    requires Encoded(e[t := w], hs, m) && w != 0 && TD(e[t := w], hs, m, t) > q
    ensures var y := Idx(e[t], m);
      0 <= y < |hs| && ResumeOk(e[t := w], hs, m, hs[y], q) && (hs[y] + q - 1) % m == t
  {
    var y := Idx(e[t], m);
    assert WordOk(e[t], hs, m);
    BackHome(t, hs[y], q, m);
  }

  /** Passing an element at least as far from home as the probe. */
  lemma PassRH(e: seq<int>, hs: seq<int>, m: int, c: int, scan: int)
    requires Encoded(e, hs, m) && 0 <= c < |hs| && Ordering(e, hs, m, c, scan)
    requires var t := (hs[c] + scan) % m; e[t] != 0 && TD(e, hs, m, t) >= scan + 1
    ensures Ordering(e, hs, m, c, scan + 1)
  {
  }

  /** With a free slot left, the carried element is less than a full turn from home. */
  lemma ScanBelow(e: seq<int>, hs: seq<int>, slots: seq<int>, m: int, c: int, scan: int)
    requires Carrying(e, hs, slots, m, c) && Ordering(e, hs, m, c, scan)
    ensures scan < m
  {
    if scan > 0 {
      BelowTurn(e, hs, slots, m, c, (hs[c] + scan - 1) % m);
    }
  }

  /** The resolved scan distance is the true one on an exact table. */
  lemma Resolve(e: seq<int>, hs: seq<int>, hl: seq<int>, m: int, t: int)
    requires Encoded(e, hs, m) && Exact(e, hs, m) && 0 <= t < m && e[t] != 0
    requires Idx(e[t], m) < |hl| && hl[Idx(e[t], m)] == hs[Idx(e[t], m)]
    ensures SlotScan(e[t], t, hl, m) == TD(e, hs, m, t)
  {
  }

  /**
   * Walking from p0 towards z one slot at a time: a slot a steps past p0 that
   * is not z is fewer steps past p0 than z, and the next slot is a + 1 steps past.
   */
  lemma CycStep(t: int, p0: int, z: int, m: int)
    requires m > 0 && 0 <= t < m && 0 <= p0 < m && 0 <= z < m
    requires (t - p0) % m <= (z - p0) % m && t != z
    ensures (t - p0) % m < (z - p0) % m
    ensures (Next(t, m) - p0) % m == (t - p0) % m + 1
  {
    var a, b := (t - p0) % m, (z - p0) % m;
    ModAdd(t - p0, p0, m);
    ModAdd(z - p0, p0, m);
    ModOfSmall(t, m);
    ModOfSmall(z, m);
    assert a != b;
    ModAdd(t + 1, -p0, m);
    ModAdd(t - p0, 1, m);
    ModOfSmall(a + 1, m);
  }

  // ---------------------------------------------------------------------
  // The two phases

  /**
   * What phase two needs while element c is carried from slot ix: the new
   * element (the last dense index) sits in slot p0, and the walk from p0 has
   * not yet passed the free slot z, so it never meets the new element and the
   * n slots left to look at suffice.
   */
  ghost predicate DisplacePre(e: seq<int>, hs: seq<int>, slots: seq<int>, hl: seq<int>, m: int,
                              ix: int, scan: int, c: int, n: nat, z: int, carry: int)
  {
    Carrying(e, hs, slots, m, c) && |hs| <= |hl| && IdxBelow(e, m, |hl|) &&
    (forall i :: 0 <= i < |hs| - 1 ==> hl[i] == hs[i]) &&
    c != |hs| - 1 && 0 <= scan &&
    carry == BodyOf(hs, m, c) && Idx(carry, m) == c && 0 <= carry &&
    Walk(e, m, slots[|hs| - 1], ix, n, z)
  }

  /** The walk from p0 is at ix, has not passed the free slot z, and has n > the slots left to z. */
  ghost predicate Walk(e: seq<int>, m: int, p0: int, ix: int, n: nat, z: int)
  {
    m > 0 && |e| == m && 0 <= p0 < m && 0 <= ix < m && 0 <= z < m && e[z] == 0 &&
    1 <= (Next(ix, m) - p0) % m <= (z - p0) % m && n > (z - p0) % m - (Next(ix, m) - p0) % m
  }

  /** The walk steps past an occupied slot and stays short of z; its next slot is not p0. */
  lemma WalkStep(e: seq<int>, m: int, p0: int, ix: int, n: nat, z: int, e2: seq<int>)
    requires Walk(e, m, p0, ix, n, z) && e[Next(ix, m)] != 0
    requires |e2| == m && e2[z] == 0
    ensures Next(ix, m) != p0 && n > 1 && Walk(e2, m, p0, Next(ix, m), n - 1, z)
  {
    var t := Next(ix, m);
    CycStep(t, p0, z, m);
    ModOfSmall(p0, m);
    CyclicZero(t, p0, m);
  }

  /** The carried element c is consistent with the ordering: it was displaced from ix, scan slots from home. */
  ghost predicate DisplaceRh(e: seq<int>, hs: seq<int>, m: int, ix: int, scan: int, c: int)
    requires Encoded(e, hs, m) && 0 <= c < |hs|
  {
    Ordering(e, hs, m, c, scan) && ix == (hs[c] + scan - 1) % m
  }

  /** The three cases of one step of phase two. */
  lemma DisplaceUnfold(e: seq<int>, slots: seq<int>, hl: seq<int>, m: int, ix: int, scan: int, carry: int, n: nat)
    requires SlotCount(m) && |e| == m && IdxBelow(e, m, |hl|) && Idx(carry, m) < |hl| && 0 <= carry
    requires 0 <= scan && n > 0
    ensures var t := Next(ix, m);
      var put := e[t := Word(Clamp(scan + 1), carry)];
      var sl := SetSlot(slots, Idx(carry, m), t);
      (e[t] == 0 ==> Displace(e, slots, hl, m, ix, scan, carry, n) == Placed(put, sl)) &&
      (e[t] != 0 && SlotScan(e[t], t, hl, m) < scan + 1 ==>
         IdxBelow(put, m, |hl|) && Idx(Body(e[t]), m) < |hl| && 0 <= Body(e[t]) &&
         Displace(e, slots, hl, m, ix, scan, carry, n) ==
         Displace(put, sl, hl, m, t, SlotScan(e[t], t, hl, m), Body(e[t]), n - 1)) &&
      (e[t] != 0 && SlotScan(e[t], t, hl, m) >= scan + 1 ==>
         Displace(e, slots, hl, m, ix, scan, carry, n) == Displace(e, slots, hl, m, t, scan + 1, carry, n - 1))
  {
    var t := Next(ix, m);
    if e[t] != 0 {
      IdxBelowPut(e, m, |hl|, t, Clamp(scan + 1), carry);
      BodyIdx(e[t], m);
    }
  }

  /** Phase two places at a free slot. */
  lemma DisplacePlace(e: seq<int>, hs: seq<int>, slots: seq<int>, hl: seq<int>, m: int,
                      ix: int, scan: int, c: int, n: nat, z: int, carry: int)
    requires DisplacePre(e, hs, slots, hl, m, ix, scan, c, n, z, carry) && e[Next(ix, m)] == 0
    ensures var t := Next(ix, m);
      var put := e[t := Word(Clamp(scan + 1), carry)];
      Encoded(put, hs, m) && Indexed(put, slots[c := t], m) && |slots[c := t]| == |hs| &&
      IdxBelow(put, m, |hl|) &&
      (DisplaceRh(e, hs, m, ix, scan, c) ==> RobinHood(put, hs, m))
  {
    var t := Next(ix, m);
    PutStruct(e, hs, slots, m, c, t, Clamp(scan + 1));
    IdxBelowPut(e, m, |hl|, t, Clamp(scan + 1), carry);
    if DisplaceRh(e, hs, m, ix, scan, c) {
      ProbeNext(hs[c], scan - 1, m);
      ScanBelow(e, hs, slots, m, c, scan);
      PutRH(e, hs, slots, m, c, scan);
    }
  }

  /** Phase two swaps with an element nearer its home; that element is carried on. */
  lemma DisplaceSwap(e: seq<int>, hs: seq<int>, slots: seq<int>, hl: seq<int>, m: int,
                     ix: int, scan: int, c: int, n: nat, z: int, carry: int)
    requires DisplacePre(e, hs, slots, hl, m, ix, scan, c, n, z, carry)
    requires var t := Next(ix, m); e[t] != 0 && Idx(e[t], m) < |hl| && SlotScan(e[t], t, hl, m) < scan + 1
    ensures var t := Next(ix, m);
      var put := e[t := Word(Clamp(scan + 1), carry)];
      var y := Idx(e[t], m);
      var ss := SlotScan(e[t], t, hl, m);
      n > 1 && 0 <= y < |hs| &&
      DisplacePre(put, hs, slots[c := t], hl, m, t, ss, y, n - 1, z, Body(e[t])) &&
      (DisplaceRh(e, hs, m, ix, scan, c) ==> DisplaceRh(put, hs, m, t, ss, y))
  {
    var size := |hs| - 1;
    var p0 := slots[size];
    var t := Next(ix, m);
    var probe := Clamp(scan + 1);
    var put := e[t := Word(probe, carry)];
    var y := Idx(e[t], m);
    WalkStep(e, m, p0, ix, n, z, put);
    PutStruct(e, hs, slots, m, c, t, probe);
    IdxBelowPut(e, m, |hl|, t, probe, carry);
    assert y != size;
    BodyIsCarry(e, hs, m, t);
    BodyIdx(e[t], m);
    if DisplaceRh(e, hs, m, ix, scan, c) {
      SwapKeepsRh(e, hs, slots, hl, m, ix, scan, c, carry);
    }
  }

  lemma SwapKeepsRh(e: seq<int>, hs: seq<int>, slots: seq<int>, hl: seq<int>, m: int,
                    ix: int, scan: int, c: int, carry: int)
    requires Carrying(e, hs, slots, m, c) && |hs| <= |hl| && (forall i :: 0 <= i < |hs| - 1 ==> hl[i] == hs[i])
    requires 0 <= ix < m && carry == BodyOf(hs, m, c) && DisplaceRh(e, hs, m, ix, scan, c)
    requires var t := Next(ix, m);
      e[t] != 0 && Idx(e[t], m) < |hs| - 1 && SlotScan(e[t], t, hl, m) < scan + 1
    ensures var t := Next(ix, m);
      var put := e[t := Word(Clamp(scan + 1), carry)];
      Encoded(put, hs, m) && DisplaceRh(put, hs, m, t, SlotScan(e[t], t, hl, m), Idx(e[t], m))
  {
    var t := Next(ix, m);
    ProbeNext(hs[c], scan - 1, m);
    ScanBelow(e, hs, slots, m, c, scan);
    Resolve(e, hs, hl, m, t);
    PutRH(e, hs, slots, m, c, scan);
    SwapResume(e, hs, m, t, Word(Clamp(scan + 1), carry), TD(e, hs, m, t));
  }

  /** Phase two passes an element at least as far from home as the probe. */
  lemma DisplacePass(e: seq<int>, hs: seq<int>, slots: seq<int>, hl: seq<int>, m: int,
                     ix: int, scan: int, c: int, n: nat, z: int, carry: int)
    requires DisplacePre(e, hs, slots, hl, m, ix, scan, c, n, z, carry)
    requires var t := Next(ix, m); e[t] != 0 && Idx(e[t], m) < |hl| && SlotScan(e[t], t, hl, m) >= scan + 1
    ensures var t := Next(ix, m);
      n > 1 && DisplacePre(e, hs, slots, hl, m, t, scan + 1, c, n - 1, z, carry) &&
      (DisplaceRh(e, hs, m, ix, scan, c) ==> DisplaceRh(e, hs, m, t, scan + 1, c))
  {
    var size := |hs| - 1;
    var p0 := slots[size];
    var t := Next(ix, m);
    WalkStep(e, m, p0, ix, n, z, e);
    assert Idx(e[t], m) != size;
    if DisplaceRh(e, hs, m, ix, scan, c) {
      ProbeNext(hs[c], scan - 1, m);
      Resolve(e, hs, hl, m, t);
      PassRH(e, hs, m, c, scan);
    }
  }

  /**
   * Phase two ends with the carried element placed: the table is encoded and
   * indexed again, and Robin Hood ordered if the carry was consistent.
   */
  lemma {:induction false} DisplaceOk(e: seq<int>, hs: seq<int>, slots: seq<int>, hl: seq<int>, m: int,
                                      ix: int, scan: int, c: int, n: nat, z: int, carry: int)
    requires DisplacePre(e, hs, slots, hl, m, ix, scan, c, n, z, carry)
    ensures var r := Displace(e, slots, hl, m, ix, scan, carry, n);
      r.Placed? && Encoded(r.e, hs, m) && Indexed(r.e, r.slots, m) && |r.slots| == |hs| &&
      IdxBelow(r.e, m, |hl|)
    ensures DisplaceRh(e, hs, m, ix, scan, c) ==>
      RobinHood(Displace(e, slots, hl, m, ix, scan, carry, n).e, hs, m)
    decreases n
  {
    var t := Next(ix, m);
    DisplaceUnfold(e, slots, hl, m, ix, scan, carry, n);
    if e[t] == 0 {
      DisplacePlace(e, hs, slots, hl, m, ix, scan, c, n, z, carry);
    } else if SlotScan(e[t], t, hl, m) < scan + 1 {
      DisplaceSwap(e, hs, slots, hl, m, ix, scan, c, n, z, carry);
      DisplaceOk(e[t := Word(Clamp(scan + 1), carry)], hs, slots[c := t], hl, m,
                 t, SlotScan(e[t], t, hl, m), Idx(e[t], m), n - 1, z, Body(e[t]));
    } else {
      DisplacePass(e, hs, slots, hl, m, ix, scan, c, n, z, carry);
      DisplaceOk(e, hs, slots, hl, m, t, scan + 1, c, n - 1, z, carry);
    }
  }

  /**
   * What phase one needs: the new element (hash h = the last entry of hs) is
   * carried at offset `scan`, and the n slots left reach the free slot z.
   */
  ghost predicate InsertPre(e: seq<int>, hs: seq<int>, slots: seq<int>, hl: seq<int>, m: int,
                            scan: int, n: nat, z: int)
  {
    Carrying(e, hs, slots, m, |hs| - 1) && |hs| <= |hl| && IdxBelow(e, m, |hl|) &&
    (forall i :: 0 <= i < |hs| - 1 ==> hl[i] == hs[i]) &&
    0 <= scan && 0 <= z < m && e[z] == 0 && n > (z - (hs[|hs| - 1] + scan)) % m
  }

  /** Phase one looks past offset k of the probe for h: no potential match, and an entry no closer to home. */
  ghost predicate PassAt(e: seq<int>, hl: seq<int>, m: int, h: int, k: int)
    requires SlotCount(m) && |e| == m && IdxBelow(e, m, |hl|) && 0 <= k
  {
    var t := (h + k) % m;
    e[t] / m != Word(Clamp(k + 1), h) / m && e[t] != 0 && SlotScan(e[t], t, hl, m) >= k + 1
  }

  /** Phase one passes every offset from a up to b. */
  lemma {:induction false} InsertSkip(e: seq<int>, slots: seq<int>, hl: seq<int>, m: int, h: int, size: int,
                                      a: int, b: int, n: nat)
    requires SlotCount(m) && |e| == m && IdxBelow(e, m, |hl|) && 0 <= size < |hl| && size < m
    requires 0 <= h < K && 0 <= a <= b && b - a <= n && size < |slots|
    requires forall k :: a <= k < b ==> PassAt(e, hl, m, h, k)
    ensures InsertFrom(e, slots, hl, m, h, size, a, n) == InsertFrom(e, slots, hl, m, h, size, b, n - (b - a))
    decreases b - a
  {
    if a < b {
      assert PassAt(e, hl, m, h, a);
      InsertUnfold(e, slots, hl, m, h, size, a, n);
      InsertSkip(e, slots, hl, m, h, size, a + 1, b, n - 1);
    }
  }

  /** The four cases of one step of phase one. */
  lemma InsertUnfold(e: seq<int>, slots: seq<int>, hl: seq<int>, m: int, h: int, size: int, scan: int, n: nat)
    requires SlotCount(m) && |e| == m && IdxBelow(e, m, |hl|) && 0 <= size < |hl| && size < m
    requires 0 <= h < K && 0 <= scan && n > 0 && size < |slots|
    ensures var t := (h + scan) % m;
      var put := e[t := Word(Clamp(scan + 1), InsertBody(h, size, m))];
      var sl := slots[size := t];
      var hit := e[t] / m == Word(Clamp(scan + 1), h) / m;
      var r := InsertFrom(e, slots, hl, m, h, size, scan, n);
      (hit ==> r == Matched(Idx(e[t], m), scan + 1)) &&
      (!hit && e[t] == 0 ==> r == Placed(put, sl)) &&
      (!hit && e[t] != 0 && SlotScan(e[t], t, hl, m) < scan + 1 ==>
         IdxBelow(put, m, |hl|) && Idx(Body(e[t]), m) < |hl| && 0 <= Body(e[t]) &&
         r == Displace(put, sl, hl, m, t, SlotScan(e[t], t, hl, m), Body(e[t]), m)) &&
      (!hit && e[t] != 0 && SlotScan(e[t], t, hl, m) >= scan + 1 ==>
         r == InsertFrom(e, slots, hl, m, h, size, scan + 1, n - 1))
  {
    var t := (h + scan) % m;
    if e[t] != 0 {
      InsertBodyIdx(h, size, m);
      IdxBelowPut(e, m, |hl|, t, Clamp(scan + 1), InsertBody(h, size, m));
      BodyIdx(e[t], m);
    }
  }

  /** A potential match in phase one names an element already in the table. */
  lemma InsertMatch(e: seq<int>, hs: seq<int>, slots: seq<int>, hl: seq<int>, m: int, scan: int, n: nat, z: int)
    requires InsertPre(e, hs, slots, hl, m, scan, n, z)
    requires var h := hs[|hs| - 1]; e[(h + scan) % m] / m == Word(Clamp(scan + 1), h) / m
    ensures var h := hs[|hs| - 1]; var w := e[(h + scan) % m];
      0 <= Idx(w, m) < |hs| - 1 && Dist(w) == Clamp(scan + 1) && Hi(w, m) == h / m
  {
    var h := hs[|hs| - 1];
    var w := e[(h + scan) % m];
    MatchIff(w, h, Clamp(scan + 1), m);
    assert w != 0 && WordOk(w, hs, m);
  }

  /** Phase one places the new element at a free slot. */
  lemma InsertPlace(e: seq<int>, hs: seq<int>, slots: seq<int>, hl: seq<int>, m: int, scan: int, n: nat, z: int)
    requires InsertPre(e, hs, slots, hl, m, scan, n, z) && e[(hs[|hs| - 1] + scan) % m] == 0
    ensures var size := |hs| - 1; var h := hs[size];
      var t := (h + scan) % m;
      var put := e[t := Word(Clamp(scan + 1), InsertBody(h, size, m))];
      Encoded(put, hs, m) && Indexed(put, slots[size := t], m) && |slots[size := t]| == |hs| &&
      IdxBelow(put, m, |hl|) &&
      put == e[(hs[size] + scan) % m := Word(Clamp(scan + 1), BodyOf(hs, m, size))]
  {
    var size := |hs| - 1;
    var h := hs[size];
    var t := (h + scan) % m;
    assert InsertBody(h, size, m) == BodyOf(hs, m, size);
    PutStruct(e, hs, slots, m, size, t, Clamp(scan + 1));
    InsertBodyIdx(h, size, m);
    IdxBelowPut(e, m, |hl|, t, Clamp(scan + 1), InsertBody(h, size, m));
  }

  /** Placing the carried element at a free next probe slot keeps the Robin Hood invariant. */
  lemma PlaceRh(e: seq<int>, hs: seq<int>, slots: seq<int>, m: int, c: int, scan: int)
    requires Carrying(e, hs, slots, m, c) && Ordering(e, hs, m, c, scan) && e[(hs[c] + scan) % m] == 0
    ensures RobinHood(e[(hs[c] + scan) % m := Word(Clamp(scan + 1), BodyOf(hs, m, c))], hs, m)
  {
    ScanBelow(e, hs, slots, m, c, scan);
    PutRH(e, hs, slots, m, c, scan);
  }

  lemma InsertSwapRh(e: seq<int>, hs: seq<int>, slots: seq<int>, hl: seq<int>, m: int, scan: int, n: nat, z: int)
    requires InsertPre(e, hs, slots, hl, m, scan, n, z) && Ordering(e, hs, m, |hs| - 1, scan)
    requires var t := (hs[|hs| - 1] + scan) % m;
      e[t] != 0 && Idx(e[t], m) < |hs| - 1 && SlotScan(e[t], t, hl, m) < scan + 1
    ensures var size := |hs| - 1; var h := hs[size];
      var t := (h + scan) % m;
      var put := e[t := Word(Clamp(scan + 1), InsertBody(h, size, m))];
      Encoded(put, hs, m) && DisplaceRh(put, hs, m, t, SlotScan(e[t], t, hl, m), Idx(e[t], m))
  {
    var size := |hs| - 1;
    var h := hs[size];
    var t := (h + scan) % m;
    assert InsertBody(h, size, m) == BodyOf(hs, m, size);
    ScanBelow(e, hs, slots, m, size, scan);
    Resolve(e, hs, hl, m, t);
    PutRH(e, hs, slots, m, size, scan);
    SwapResume(e, hs, m, t, Word(Clamp(scan + 1), BodyOf(hs, m, size)), TD(e, hs, m, t));
  }

  /** The walk of phase two starts at the slot that phase one filled. */
  lemma WalkStart(m: int, t: int, z: int, e: seq<int>)
    requires m > 1 && 0 <= t < m && 0 <= z < m && t != z && |e| == m && e[z] == 0
    ensures Walk(e, m, t, t, m, z)
  {
    ModOfSmall(t, m);
    CyclicZero(z, t, m);
    ModAdd(t + 1, -t, m);
    ModOfSmall(1, m);
    assert (Next(t, m) - t) % m == 1;
    assert (z - t) % m != 0;
  }

  /** Phase one displaces an element nearer its home and hands over to phase two. */
  lemma InsertSwap(e: seq<int>, hs: seq<int>, slots: seq<int>, hl: seq<int>, m: int, scan: int, n: nat, z: int)
    requires InsertPre(e, hs, slots, hl, m, scan, n, z)
    requires var t := (hs[|hs| - 1] + scan) % m;
      e[t] != 0 && Idx(e[t], m) < |hl| && SlotScan(e[t], t, hl, m) < scan + 1
    ensures var size := |hs| - 1; var h := hs[size];
      var t := (h + scan) % m;
      var put := e[t := Word(Clamp(scan + 1), InsertBody(h, size, m))];
      var y := Idx(e[t], m);
      var ss := SlotScan(e[t], t, hl, m);
      DisplacePre(put, hs, slots[size := t], hl, m, t, ss, y, m, z, Body(e[t])) &&
      (Ordering(e, hs, m, size, scan) ==> DisplaceRh(put, hs, m, t, ss, y))
  {
    var size := |hs| - 1;
    var h := hs[size];
    var t := (h + scan) % m;
    var probe := Clamp(scan + 1);
    var put := e[t := Word(probe, InsertBody(h, size, m))];
    var y := Idx(e[t], m);
    WalkStart(m, t, z, put);
    assert InsertBody(h, size, m) == BodyOf(hs, m, size);
    PutStruct(e, hs, slots, m, size, t, probe);
    InsertBodyIdx(h, size, m);
    IdxBelowPut(e, m, |hl|, t, probe, InsertBody(h, size, m));
    assert y != size;
    BodyIsCarry(e, hs, m, t);
    BodyIdx(e[t], m);
    if Ordering(e, hs, m, size, scan) {
      InsertSwapRh(e, hs, slots, hl, m, scan, n, z);
    }
  }

  /** Phase one passes an element at least as far from home as the probe. */
  lemma InsertPass(e: seq<int>, hs: seq<int>, slots: seq<int>, hl: seq<int>, m: int, scan: int, n: nat, z: int)
    requires InsertPre(e, hs, slots, hl, m, scan, n, z)
    requires var t := (hs[|hs| - 1] + scan) % m;
      e[t] != 0 && Idx(e[t], m) < |hl| && SlotScan(e[t], t, hl, m) >= scan + 1
    ensures n > 1 && InsertPre(e, hs, slots, hl, m, scan + 1, n - 1, z)
    ensures Ordering(e, hs, m, |hs| - 1, scan) ==> Ordering(e, hs, m, |hs| - 1, scan + 1)
  {
    var size := |hs| - 1;
    var h := hs[size];
    var t := (h + scan) % m;
    ProbeCloser(e, m, z, h + scan);
    if Ordering(e, hs, m, size, scan) {
      assert Idx(e[t], m) != size;
      Resolve(e, hs, hl, m, t);
      PassRH(e, hs, m, size, scan);
    }
  }

  /**
   * What phase one may end in, for the new element (dense index |hs| - 1) after
   * `scan` slots: a potential match with an element already in the table, or
   * the table encoded and indexed again with the new element placed, ordered
   * when `ordered` (the table was ordered and the insert resumed consistently).
   */
  ghost predicate InsertOutcome(e: seq<int>, hs: seq<int>, hl: seq<int>, m: int, scan: int, ordered: bool, r: Insertion)
    requires |e| == m && m > 0 && 1 <= |hs|
  {
    !r.Stuck? &&
    (r.Matched? ==>
       var h := hs[|hs| - 1];
       0 <= r.index < |hs| - 1 && scan < r.scan &&
       var w := e[(h + r.scan - 1) % m];
       Dist(w) == Clamp(r.scan) && Hi(w, m) == h / m && r.index == Idx(w, m)) &&
    (r.Placed? ==>
       Encoded(r.e, hs, m) && Indexed(r.e, r.slots, m) && |r.slots| == |hs| && IdxBelow(r.e, m, |hl|)) &&
    (ordered && r.Placed? ==> RobinHood(r.e, hs, m))
  }

  /** A placed outcome. */
  lemma OutcomePlaced(e: seq<int>, hs: seq<int>, hl: seq<int>, m: int, scan: int, ordered: bool, r: Insertion)
    requires |e| == m && m > 0 && 1 <= |hs| && r.Placed?
    requires Encoded(r.e, hs, m) && Indexed(r.e, r.slots, m) && |r.slots| == |hs| && IdxBelow(r.e, m, |hl|)
    requires ordered ==> RobinHood(r.e, hs, m)
    ensures InsertOutcome(e, hs, hl, m, scan, ordered, r)
  {
  }

  /** Phase one stops at a potential match. */
  lemma InsertOkMatch(e: seq<int>, hs: seq<int>, slots: seq<int>, hl: seq<int>, m: int, scan: int, n: nat, z: int)
    requires InsertPre(e, hs, slots, hl, m, scan, n, z)
    requires var h := hs[|hs| - 1]; e[(h + scan) % m] / m == Word(Clamp(scan + 1), h) / m
    ensures var size := |hs| - 1;
      InsertOutcome(e, hs, hl, m, scan, Ordering(e, hs, m, size, scan),
                    InsertFrom(e, slots, hl, m, hs[size], size, scan, n))
  {
    var size := |hs| - 1;
    var h := hs[size];
    var t := (h + scan) % m;
    InsertUnfold(e, slots, hl, m, h, size, scan, n);
    InsertMatch(e, hs, slots, hl, m, scan, n, z);
    var r := InsertFrom(e, slots, hl, m, h, size, scan, n);
    assert r == Matched(Idx(e[t], m), scan + 1);
    assert (h + r.scan - 1) % m == t;
  }

  /** Phase one places the new element at a free slot. */
  lemma InsertOkFree(e: seq<int>, hs: seq<int>, slots: seq<int>, hl: seq<int>, m: int, scan: int, n: nat, z: int)
    requires InsertPre(e, hs, slots, hl, m, scan, n, z)
    requires var h := hs[|hs| - 1]; var t := (h + scan) % m;
      e[t] / m != Word(Clamp(scan + 1), h) / m && e[t] == 0
    ensures var size := |hs| - 1;
      InsertOutcome(e, hs, hl, m, scan, Ordering(e, hs, m, size, scan),
                    InsertFrom(e, slots, hl, m, hs[size], size, scan, n))
  {
    var size := |hs| - 1;
    var h := hs[size];
    var t := (h + scan) % m;
    var put := e[t := Word(Clamp(scan + 1), InsertBody(h, size, m))];
    InsertUnfold(e, slots, hl, m, h, size, scan, n);
    InsertPlace(e, hs, slots, hl, m, scan, n, z);
    var r := InsertFrom(e, slots, hl, m, h, size, scan, n);
    assert r == Placed(put, slots[size := t]);
    if Ordering(e, hs, m, size, scan) {
      PlaceRh(e, hs, slots, m, size, scan);
    }
    OutcomePlaced(e, hs, hl, m, scan, Ordering(e, hs, m, size, scan), r);
  }

  /** Phase one displaces an element and phase two places the rest. */
  lemma InsertOkSwap(e: seq<int>, hs: seq<int>, slots: seq<int>, hl: seq<int>, m: int, scan: int, n: nat, z: int)
    requires InsertPre(e, hs, slots, hl, m, scan, n, z)
    requires var h := hs[|hs| - 1]; var t := (h + scan) % m;
      e[t] / m != Word(Clamp(scan + 1), h) / m && e[t] != 0 && SlotScan(e[t], t, hl, m) < scan + 1
    ensures var size := |hs| - 1;
      InsertOutcome(e, hs, hl, m, scan, Ordering(e, hs, m, size, scan),
                    InsertFrom(e, slots, hl, m, hs[size], size, scan, n))
  {
    var size := |hs| - 1;
    var h := hs[size];
    var t := (h + scan) % m;
    var put := e[t := Word(Clamp(scan + 1), InsertBody(h, size, m))];
    var ss := SlotScan(e[t], t, hl, m);
    var r := InsertFrom(e, slots, hl, m, h, size, scan, n);
    assert IdxBelow(put, m, |hl|) && Idx(Body(e[t]), m) < |hl| && 0 <= Body(e[t]) &&
      r == Displace(put, slots[size := t], hl, m, t, ss, Body(e[t]), m) by {
      InsertUnfold(e, slots, hl, m, h, size, scan, n);
    }
    var d := Displace(put, slots[size := t], hl, m, t, ss, Body(e[t]), m);
    assert d.Placed? && Encoded(d.e, hs, m) && Indexed(d.e, d.slots, m) && |d.slots| == |hs| &&
      IdxBelow(d.e, m, |hl|) && (Ordering(e, hs, m, size, scan) ==> RobinHood(d.e, hs, m)) by {
      InsertSwap(e, hs, slots, hl, m, scan, n, z);
      DisplaceOk(put, hs, slots[size := t], hl, m, t, ss, Idx(e[t], m), m, z, Body(e[t]));
    }
    OutcomePlaced(e, hs, hl, m, scan, Ordering(e, hs, m, size, scan), r);
  }

  /** A potential match one slot further on is a potential match after `scan` slots too. */
  lemma OutcomeBack(e: seq<int>, hs: seq<int>, hl: seq<int>, m: int, scan: int, o0: bool, o1: bool, r: Insertion)
    requires |e| == m && m > 0 && 1 <= |hs| && 0 <= scan
    requires InsertOutcome(e, hs, hl, m, scan + 1, o1, r) && (o0 ==> o1)
    ensures InsertOutcome(e, hs, hl, m, scan, o0, r)
  {
  }

  /**
   * Phase one ends in a potential match with an element already in the table,
   * or with the new element placed: the table is encoded and indexed again,
   * and ordered if the insert resumed consistently.
   */
  lemma {:induction false} InsertOk(e: seq<int>, hs: seq<int>, slots: seq<int>, hl: seq<int>, m: int,
                                    scan: int, n: nat, z: int)
    requires InsertPre(e, hs, slots, hl, m, scan, n, z)
    ensures var size := |hs| - 1;
      InsertOutcome(e, hs, hl, m, scan, Ordering(e, hs, m, size, scan),
                    InsertFrom(e, slots, hl, m, hs[size], size, scan, n))
    decreases n
  {
    var size := |hs| - 1;
    var h := hs[size];
    var t := (h + scan) % m;
    if e[t] / m == Word(Clamp(scan + 1), h) / m {
      InsertOkMatch(e, hs, slots, hl, m, scan, n, z);
    } else if e[t] == 0 {
      InsertOkFree(e, hs, slots, hl, m, scan, n, z);
    } else if SlotScan(e[t], t, hl, m) < scan + 1 {
      InsertOkSwap(e, hs, slots, hl, m, scan, n, z);
    } else {
      InsertPass(e, hs, slots, hl, m, scan, n, z);
      InsertOk(e, hs, slots, hl, m, scan + 1, n - 1, z);
      InsertUnfold(e, slots, hl, m, h, size, scan, n);
      var r := InsertFrom(e, slots, hl, m, h, size, scan + 1, n - 1);
      assert InsertFrom(e, slots, hl, m, h, size, scan, n) == r;
      OutcomeBack(e, hs, hl, m, scan, Ordering(e, hs, m, size, scan), Ordering(e, hs, m, size, scan + 1), r);
    }
  }

  // ---------------------------------------------------------------------
  // Entering the insert

  /** The word for the new element fits below the scan field. */
  lemma InsertBodyBound(h: int, size: int, m: int)
    requires SlotCount(m) && 0 <= h < K && 0 <= size < m
    ensures 0 <= InsertBody(h, size, m) < K && Idx(InsertBody(h, size, m), m) == size
  {
    Pack(0, h, size, m);
    assert Word(0, InsertBody(h, size, m)) == InsertBody(h, size, m);
  }

  /**
   * Appending the new element's hash to an indexed table: the new element is
   * the carried one, and the distances of all others are unchanged.
   */
  lemma ExtendTable(e: seq<int>, hs: seq<int>, slots: seq<int>, m: int, h: int, scan: int, n: int)
    requires Encoded(e, hs, m) && Indexed(e, slots, m) && |slots| == |hs| && |hs| + 1 < m
    requires 0 <= h < K && 0 <= scan && |hs| < n
    requires forall s :: 0 <= s < m ==> 0 <= e[s]
    ensures Carrying(e, hs + [h], slots + [0], m, |hs|) && IdxBelow(e, m, n)
    ensures forall s :: 0 <= s < m && e[s] != 0 ==> TD(e, hs + [h], m, s) == TD(e, hs, m, s)
    ensures RobinHood(e, hs, m) && ResumeOk(e, hs, m, h, scan) ==> Ordering(e, hs + [h], m, |hs|, scan)
  {
    var hs2 := hs + [h];
    forall s | 0 <= s < m
      ensures WordOk(e[s], hs2, m)
    {
      assert WordOk(e[s], hs, m);
    }
    assert Encoded(e, hs2, m);
  }

  /** The insert as the engine starts it: the new hash appended with dense index |hs|. */
  ghost function Inserted(e: seq<int>, hs: seq<int>, slots: seq<int>, hl: seq<int>, m: int, h: int, scan: int): Insertion
    requires Encoded(e, hs, m) && Indexed(e, slots, m) && |slots| == |hs| && |hs| < |hl| && |hs| + 1 < m
    requires 0 <= h < K && 0 <= scan && forall s :: 0 <= s < m ==> 0 <= e[s]
  {
    ExtendTable(e, hs, slots, m, h, scan, |hl|);
    InsertFrom(e, slots + [0], hl, m, h, |hs|, scan, m)
  }

  /**
   * The insert on an indexed table ends in a potential match with a live
   * element or in an indexed table holding the new hash, ordered again if it
   * was ordered and the insert resumed consistently.
   */
  lemma InsertedOk(e: seq<int>, hs: seq<int>, slots: seq<int>, hl: seq<int>, m: int, h: int, scan: int)
    requires Encoded(e, hs, m) && Indexed(e, slots, m) && |slots| == |hs| && |hs| < |hl| && |hs| + 1 < m
    requires 0 <= h < K && 0 <= scan && forall s :: 0 <= s < m ==> 0 <= e[s]
    requires forall i :: 0 <= i < |hs| ==> hl[i] == hs[i]
    ensures IdxBelow(e, m, |hl|)
    ensures var r := Inserted(e, hs, slots, hl, m, h, scan);
      (r.Matched? && 0 <= r.index < |hs| && scan < r.scan) ||
      (r.Placed? && Encoded(r.e, hs + [h], m) && Indexed(r.e, r.slots, m) && |r.slots| == |hs| + 1)
    ensures var r := Inserted(e, hs, slots, hl, m, h, scan);
      RobinHood(e, hs, m) && ResumeOk(e, hs, m, h, scan) && r.Placed? ==> RobinHood(r.e, hs + [h], m)
    ensures var r := Inserted(e, hs, slots, hl, m, h, scan);
      r.Matched? ==> FullRun(e, m, h, scan, r.scan)
  {
    var z := FreeSlot(e, slots, m, -1);
    ExtendTable(e, hs, slots, m, h, scan, |hl|);
    InsertOk(e, hs + [h], slots + [0], hl, m, scan, m, z);
    InsertRun(e, slots + [0], hl, m, h, |hs|, scan, m);
  }

  /** A potential match lies past a run of occupied slots: the probe passed no free slot. */
  lemma {:induction false} InsertRun(e: seq<int>, slots: seq<int>, hl: seq<int>, m: int,
                                     h: int, size: int, scan: int, n: nat)
    requires SlotCount(m) && |e| == m && IdxBelow(e, m, |hl|) && 0 <= size < |hl| && size < m
    requires 0 <= h < K && 0 <= scan && size < |slots|
    ensures var r := InsertFrom(e, slots, hl, m, h, size, scan, n);
      r.Matched? ==> scan < r.scan && FullRun(e, m, h, scan, r.scan)
    decreases n
  {
    if n > 0 {
      var t := (h + scan) % m;
      var probe := Clamp(scan + 1);
      InsertUnfold(e, slots, hl, m, h, size, scan, n);
      if e[t] / m == Word(probe, h) / m {
        MatchIff(e[t], h, probe, m);
        assert Filled(e, m, h, scan);
      } else if e[t] != 0 && SlotScan(e[t], t, hl, m) < scan + 1 {
        var put := e[t := Word(probe, InsertBody(h, size, m))];
        DisplaceUnmatched(put, slots[size := t], hl, m, t, SlotScan(e[t], t, hl, m), Body(e[t]), m);
      } else if e[t] != 0 {
        InsertRun(e, slots, hl, m, h, size, scan + 1, n - 1);
        assert Filled(e, m, h, scan);
      }
    }
  }

  /** A consistent resume point lies at the end of a run of occupied probe offsets from offset 0. */
  lemma ResumeRun(e: seq<int>, hs: seq<int>, m: int, h: int, scan: int)
    requires RobinHood(e, hs, m) && ResumeOk(e, hs, m, h, scan)
    ensures FullRun(e, m, h, 0, scan)
  {
    if scan > 0 {
      var t := (h + scan - 1) % m;
      forall k | 0 <= k < scan
        ensures Filled(e, m, h, k)
      {
        Chain(e, hs, m, t, scan - 1 - k);
        ModAdd(h + scan - 1, -(scan - 1 - k), m);
      }
    }
  }

  /**
   * Resuming after a potential match is consistent (the next insert or find
   * from the reported offset keeps the Robin Hood invariant) when the match
   * lies below the clamp, when no scan field is clamped, or when hashes that
   * agree in the bits above the mask agree in all 28 bits.  A clamped match
   * with a different hash is the one case left open.
   */
  lemma InsertedResume(e: seq<int>, hs: seq<int>, slots: seq<int>, hl: seq<int>, m: int, h: int, scan: int)
    requires Encoded(e, hs, m) && Indexed(e, slots, m) && |slots| == |hs| && |hs| < |hl| && |hs| + 1 < m
    requires 0 <= h < K && 0 <= scan && forall s :: 0 <= s < m ==> 0 <= e[s]
    requires forall i :: 0 <= i < |hs| ==> hl[i] == hs[i]
    requires RobinHood(e, hs, m) && ResumeOk(e, hs, m, h, scan)
    ensures var r := Inserted(e, hs, slots, hl, m, h, scan);
      r.Matched? && (r.scan < CLAMP || Unclamped(e, m) || HiSeparated(hs + [h], m)) ==>
        ResumeOk(e, hs, m, h, r.scan)
  {
    var r := Inserted(e, hs, slots, hl, m, h, scan);
    if r.Matched? {
      var z := FreeSlot(e, slots, m, -1);
      assert scan < r.scan && 0 <= r.index < |hs| && FullRun(e, m, h, scan, r.scan) by {
        InsertedOk(e, hs, slots, hl, m, h, scan);
      }
      var t := (h + r.scan - 1) % m;
      InsertedMatch(e, hs, slots, hl, m, h, scan);
      MatchedResume(e, hs, m, h, scan, r.scan, z);
    }
  }

  /**
   * One call of `rhmap_rehash`'s re-insert loop: a potential match moves the
   * resume point further along the run of occupied slots (so the loop ends),
   * and with separated hash bits or no clamped field both the resume point and, once the hash
   * is placed, the Robin Hood invariant stay consistent; a potential match
   * below the clamp keeps an ordered resume point ordered on any table.
   */
  lemma ReinsertStep(e: seq<int>, hs: seq<int>, slots: seq<int>, hl: seq<int>, m: int, h: int, scan: int, sep: bool)
    requires Encoded(e, hs, m) && Indexed(e, slots, m) && |slots| == |hs| && |hs| < |hl| && |hs| + 1 < m
    requires 0 <= h < K && 0 <= scan && forall s :: 0 <= s < m ==> 0 <= e[s]
    requires forall i :: 0 <= i < |hs| ==> hl[i] == hs[i]
    requires FullRun(e, m, h, 0, scan)
    requires sep ==> RobinHood(e, hs, m) && ResumeOk(e, hs, m, h, scan) && (Safe(hs + [h], m) || Unclamped(e, m))
    ensures var r := Inserted(e, hs, slots, hl, m, h, scan);
      (r.Matched? ==> scan < r.scan < m && FullRun(e, m, h, 0, r.scan) && (sep ==> ResumeOk(e, hs, m, h, r.scan))) &&
      (r.Placed? && sep ==> RobinHood(r.e, hs + [h], m))
    ensures var r := Inserted(e, hs, slots, hl, m, h, scan);
      r.Matched? && r.scan < CLAMP && RobinHood(e, hs, m) && ResumeOk(e, hs, m, h, scan) ==> ResumeOk(e, hs, m, h, r.scan)
  {
    InsertedOk(e, hs, slots, hl, m, h, scan);
    var r := Inserted(e, hs, slots, hl, m, h, scan);
    if RobinHood(e, hs, m) && ResumeOk(e, hs, m, h, scan) {
      InsertedResume(e, hs, slots, hl, m, h, scan);
    }
    if r.Matched? {
      assert FullRun(e, m, h, 0, r.scan) by {
        forall k | 0 <= k < r.scan
          ensures Filled(e, m, h, k)
        {
          if k >= scan {
            assert FullRun(e, m, h, scan, r.scan);
          }
        }
      }
      var z := FreeSlot(e, slots, m, -1);
      RunBound(e, m, h, r.scan, z);
      if sep && |hs| < CLAMP {
        RunCount(e, slots, m, h, r.scan);
      }
    }
  }

  /**
   * One call of a key-insert loop over `rhmap_insert`: the facts of
   * ReinsertStep, and under the Robin Hood invariant the element j with hash
   * h lying beyond the resume point is matched before anything is placed; a
   * match with another element leaves j beyond the new resume point.
   */
  lemma InsertNext(e: seq<int>, hs: seq<int>, slots: seq<int>, hl: seq<int>, m: int, h: int, scan: int, sep: bool, j: int)
    requires Encoded(e, hs, m) && Indexed(e, slots, m) && |slots| == |hs| && |hs| < |hl| && |hs| + 1 < m
    requires 0 <= h < K && 0 <= scan && forall s :: 0 <= s < m ==> 0 <= e[s]
    requires forall i :: 0 <= i < |hs| ==> hl[i] == hs[i]
    requires FullRun(e, m, h, 0, scan)
    requires sep ==> RobinHood(e, hs, m) && ResumeOk(e, hs, m, h, scan) && (Safe(hs + [h], m) || Unclamped(e, m))
    requires j >= 0 ==> RobinHood(e, hs, m) && j < |hs| && hs[j] == h && scan < TD(e, hs, m, slots[j])
    ensures var r := Inserted(e, hs, slots, hl, m, h, scan);
      (r.Matched? ==> scan < r.scan < m && FullRun(e, m, h, 0, r.scan) && (sep ==> ResumeOk(e, hs, m, h, r.scan))) &&
      (r.Placed? && sep ==> RobinHood(r.e, hs + [h], m))
    ensures var r := Inserted(e, hs, slots, hl, m, h, scan);
      r.Matched? && r.scan < CLAMP && RobinHood(e, hs, m) && ResumeOk(e, hs, m, h, scan) ==> ResumeOk(e, hs, m, h, r.scan)
    ensures var r := Inserted(e, hs, slots, hl, m, h, scan);
      j >= 0 ==> r.Matched? && (r.index != j ==> r.scan < TD(e, hs, m, slots[j]))
  {
    ReinsertStep(e, hs, slots, hl, m, h, scan, sep);
    if j >= 0 {
      InsertedComplete(e, hs, slots, hl, m, h, scan, j);
    }
  }

  /** A potential match carries the clamped probe distance and the probe's hash bits, and names the slot's dense index. */
  lemma InsertedMatch(e: seq<int>, hs: seq<int>, slots: seq<int>, hl: seq<int>, m: int, h: int, scan: int)
    requires Encoded(e, hs, m) && Indexed(e, slots, m) && |slots| == |hs| && |hs| < |hl| && |hs| + 1 < m
    requires 0 <= h < K && 0 <= scan && forall s :: 0 <= s < m ==> 0 <= e[s]
    requires forall i :: 0 <= i < |hs| ==> hl[i] == hs[i]
    ensures var r := Inserted(e, hs, slots, hl, m, h, scan);
      r.Matched? ==>
        var w := e[(h + r.scan - 1) % m];
        Dist(w) == Clamp(r.scan) && Hi(w, m) == h / m && r.index == Idx(w, m)
  {
    var z := FreeSlot(e, slots, m, -1);
    ExtendTable(e, hs, slots, m, h, scan, |hl|);
    var hs2 := hs + [h];
    assert hs2[|hs2| - 1] == h && |hs2| - 1 == |hs|;
    var r := InsertFrom(e, slots + [0], hl, m, h, |hs|, scan, m);
    assert Inserted(e, hs, slots, hl, m, h, scan) == r;
    if r.Matched? {
      InsertOk(e, hs2, slots + [0], hl, m, scan, m, z);
      OutcomeMatch(e, hs2, hl, m, scan, Ordering(e, hs2, m, |hs|, scan), r, h);
    }
  }

  /** The facts a potential match carries. */
  lemma OutcomeMatch(e: seq<int>, hs: seq<int>, hl: seq<int>, m: int, scan: int, ordered: bool, r: Insertion, h: int)
    requires |e| == m && m > 0 && 1 <= |hs| && hs[|hs| - 1] == h
    requires InsertOutcome(e, hs, hl, m, scan, ordered, r) && r.Matched?
    ensures 0 <= r.index < |hs| - 1 && scan < r.scan
    ensures var w := e[(h + r.scan - 1) % m]; Dist(w) == Clamp(r.scan) && Hi(w, m) == h / m && r.index == Idx(w, m)
  {
  }

  /** The resume point after a potential match that follows a run of occupied slots. */
  lemma MatchedResume(e: seq<int>, hs: seq<int>, m: int, h: int, scan: int, p: int, z: int)
    requires RobinHood(e, hs, m) && ResumeOk(e, hs, m, h, scan) && 0 <= h < K
    requires 0 <= scan < p && FullRun(e, m, h, scan, p) && 0 <= z < m && e[z] == 0
    requires var w := e[(h + p - 1) % m]; Dist(w) == Clamp(p) && Hi(w, m) == h / m
    ensures (p < CLAMP || Unclamped(e, m) || HiSeparated(hs + [h], m)) ==> ResumeOk(e, hs, m, h, p)
  {
    var t := (h + p - 1) % m;
    assert WordOk(e[t], hs, m);
    assert Dist(e[t]) == Clamp(TD(e, hs, m, t));
    if p >= CLAMP && !Unclamped(e, m) && HiSeparated(hs + [h], m) {
      var i := Idx(e[t], m);
      assert HiBits((hs + [h])[i], m) == HiBits((hs + [h])[|hs|], m);
      assert hs[i] == h;
      ResumeRun(e, hs, m, h, scan);
      assert FullRun(e, m, h, 0, p);
      RunBound(e, m, h, p, z);
      ProbeDistance(h, p, m);
    }
  }

  /**
   * Robin Hood completeness of phase one: an element with hash h beyond
   * offset s is reached before the insert finds a free slot or a richer
   * entry, so the probe reports a potential match no later than it.
   */
  lemma {:induction false} InsertComplete(e: seq<int>, hs: seq<int>, slots: seq<int>, sl: seq<int>, hl: seq<int>,
                                          m: int, h: int, size: int, s: int, n: nat, i: int)
    requires RobinHood(e, hs, m) && Indexed(e, slots, m) && |slots| == |hs| && |hs| <= |hl|
    requires forall j :: 0 <= j < |hs| ==> hl[j] == hs[j]
    requires IdxBelow(e, m, |hl|) && 0 <= size < |hl| && size < m && size < |sl|
    requires 0 <= h < K && 0 <= s && 0 <= i < |hs| && hs[i] == h
    requires s < TD(e, hs, m, slots[i]) <= s + n
    ensures var r := InsertFrom(e, sl, hl, m, h, size, s, n);
      r.Matched? && r.scan <= TD(e, hs, m, slots[i])
    decreases n
  {
    var t := slots[i];
    var q := TD(e, hs, m, t);
    var u := (h + s) % m;
    assert e[u] != 0 && TD(e, hs, m, u) >= s + 1 by {
      Chain(e, hs, m, t, q - (s + 1));
      BackToProbe(t, h, q, s, m);
    }
    InsertUnfold(e, sl, hl, m, h, size, s, n);
    if e[u] / m != Word(Clamp(s + 1), h) / m {
      assert WordOk(e[u], hs, m);
      Resolve(e, hs, hl, m, u);
      if q == s + 1 {
        BackHome(t, h, q, m);
        assert WordOk(e[t], hs, m);
        MatchIff(e[t], h, Clamp(s + 1), m);
        assert false;
      }
      InsertComplete(e, hs, slots, sl, hl, m, h, size, s + 1, n - 1, i);
    }
  }

  /**
   * The insert as the engine starts it reaches an element with the same hash
   * beyond the resume offset: it reports a potential match no later than that
   * element, and exactly at its distance it names that element.
   */
  lemma InsertedComplete(e: seq<int>, hs: seq<int>, slots: seq<int>, hl: seq<int>, m: int, h: int, scan: int, i: int)
    requires Encoded(e, hs, m) && Indexed(e, slots, m) && |slots| == |hs| && |hs| < |hl| && |hs| + 1 < m
    requires 0 <= h < K && 0 <= scan && forall s :: 0 <= s < m ==> 0 <= e[s]
    requires forall j :: 0 <= j < |hs| ==> hl[j] == hs[j]
    requires RobinHood(e, hs, m) && 0 <= i < |hs| && hs[i] == h && scan < TD(e, hs, m, slots[i])
    ensures var r := Inserted(e, hs, slots, hl, m, h, scan);
      r.Matched? && r.scan <= TD(e, hs, m, slots[i]) &&
      (r.scan == TD(e, hs, m, slots[i]) ==> r.index == i)
  {
    var t := slots[i];
    var q := TD(e, hs, m, t);
    var r := Inserted(e, hs, slots, hl, m, h, scan);
    assert r.Matched? && r.scan <= q by {
      BelowTurn(e, hs, slots, m, -1, t);
      EncodedBelow(e, hs, m, |hl|);
      assert r == InsertFrom(e, slots + [0], hl, m, h, |hs|, scan, m);
      InsertComplete(e, hs, slots, slots + [0], hl, m, h, |hs|, scan, m, i);
    }
    if r.scan == q {
      assert r.index == Idx(e[(h + r.scan - 1) % m], m) by {
        InsertedMatch(e, hs, slots, hl, m, h, scan);
      }
      BackHome(t, h, q, m);
    }
  }


  /** Phase two never reports a match. */
  lemma {:induction false} DisplaceUnmatched(e: seq<int>, slots: seq<int>, hl: seq<int>, m: int,
                                             ix: int, scan: int, carry: int, n: nat)
    requires SlotCount(m) && |e| == m && IdxBelow(e, m, |hl|) && Idx(carry, m) < |hl| && 0 <= carry
    requires 0 <= scan
    ensures !Displace(e, slots, hl, m, ix, scan, carry, n).Matched?
    decreases n
  {
    if n > 0 {
      var t := Next(ix, m);
      var entry := e[t];
      if entry != 0 {
        var ss := SlotScan(entry, t, hl, m);
        if ss < scan + 1 {
          IdxBelowPut(e, m, |hl|, t, Clamp(scan + 1), carry);
          BodyIdx(entry, m);
          DisplaceUnmatched(e[t := Word(Clamp(scan + 1), carry)], SetSlot(slots, Idx(carry, m), t), hl, m, t, ss, Body(entry), n - 1);
        } else {
          DisplaceUnmatched(e, slots, hl, m, t, scan + 1, carry, n - 1);
        }
      }
    }
  }
}
