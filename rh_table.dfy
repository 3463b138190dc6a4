// The invariants of the slot table (`entries`) against the dense hash array
// (`hashes`), and the lemmas the engine's loops rely on.  Everything here is
// about sequences: `e` is the content of `entries`, `hs` the live prefix of
// `hashes` (one 28-bit hash per dense index), `m` the slot count mask + 1.
module RhTable {
  import opened RhLayout

  function Next(s: int, m: int): int
    requires m > 0
  {
    (s + 1) % m
  }

  function Prev(s: int, m: int): int
    requires m > 0
  {
    (s - 1) % m
  }

  /** A free slot holds 0; an occupied one a distance 1..15, a live dense index and that element's hash bits. */
  ghost predicate WordOk(w: int, hs: seq<int>, m: int)
    requires m > 0
  {
    w == 0 || (K <= w < 16 * K && Idx(w, m) < |hs| && Hi(w, m) == hs[Idx(w, m)] / m)
  }

  ghost predicate Encoded(e: seq<int>, hs: seq<int>, m: int)
  {
    SlotCount(m) && |e| == m && |hs| < m &&
    (forall i :: 0 <= i < |hs| ==> 0 <= hs[i] < K) &&
    (forall s :: 0 <= s < m ==> WordOk(e[s], hs, m))
  }

  /**
   * `slots[i]` is the one slot whose entry refers to dense index i, for every
   * index except `c` (the element being carried by an insert or dropped by a
   * remove; -1 when there is none).
   */
  ghost predicate IndexedBut(e: seq<int>, slots: seq<int>, m: int, c: int)
    requires |e| == m && m > 0
  {
    (forall i :: 0 <= i < |slots| && i != c ==>
       0 <= slots[i] < m && e[slots[i]] != 0 && Idx(e[slots[i]], m) == i) &&
    (forall s :: 0 <= s < m && e[s] != 0 ==>
       0 <= Idx(e[s], m) < |slots| && Idx(e[s], m) != c && slots[Idx(e[s], m)] == s)
  }

  ghost predicate Indexed(e: seq<int>, slots: seq<int>, m: int)
    requires |e| == m && m > 0
  {
    IndexedBut(e, slots, m, -1)
  }

  /** The true 1-based distance of the occupied slot s from its home bucket `hash & mask`. */
  ghost function TD(e: seq<int>, hs: seq<int>, m: int, s: int): int
    requires Encoded(e, hs, m) && 0 <= s < m && e[s] != 0
  {
    (s - hs[Idx(e[s], m)]) % m + 1
  }

  /** Every scan field is the clamped true distance. */
  ghost predicate Exact(e: seq<int>, hs: seq<int>, m: int)
    requires Encoded(e, hs, m)
  {
    forall s :: 0 <= s < m && e[s] != 0 ==> Dist(e[s]) == Clamp(TD(e, hs, m, s))
  }

  /**
   * Robin Hood ordering: an element away from its home bucket follows an
   * occupied slot whose element is at most one step closer to its own home.
   */
  ghost predicate Ordered(e: seq<int>, hs: seq<int>, m: int)
    requires Encoded(e, hs, m)
  {
    forall s {:trigger Prev(s, m)} :: 0 <= s < m && e[s] != 0 && TD(e, hs, m, s) > 1 ==>
      e[Prev(s, m)] != 0 && TD(e, hs, m, Prev(s, m)) >= TD(e, hs, m, s) - 1
  }

  ghost predicate RobinHood(e: seq<int>, hs: seq<int>, m: int)
  {
    Encoded(e, hs, m) && Exact(e, hs, m) && Ordered(e, hs, m)
  }

  /** A table of free slots holds no elements and keeps every invariant. */
  lemma EmptyTable(e: seq<int>, m: int)
    requires SlotCount(m) && |e| == m && forall s :: 0 <= s < m ==> e[s] == 0
    ensures Encoded(e, [], m) && Indexed(e, [], m) && RobinHood(e, [], m)
  {
  }

  /** Every occupied slot's entry has a clamped-free scan field. */
  ghost predicate Unclamped(e: seq<int>, m: int)
    requires |e| == m
  {
    forall s :: 0 <= s < m ==> Dist(e[s]) < CLAMP
  }

  /**
   * A resumed probe for hash h at `scan` is consistent with the ordering: the
   * slot it last passed holds an element at least `scan` steps from home.
   */
  ghost predicate ResumeOk(e: seq<int>, hs: seq<int>, m: int, h: int, scan: int)
    requires Encoded(e, hs, m)
  {
    scan == 0 ||
    (scan > 0 && e[(h + scan - 1) % m] != 0 && TD(e, hs, m, (h + scan - 1) % m) >= scan)
  }

  /** The bits of hash h above the mask of an m-slot table. */
  ghost function HiBits(h: int, m: int): int
    requires m > 0
  {
    h / m
  }

  /** Hashes that agree in bits [N,28) agree in all 28 bits. */
  ghost predicate HiSeparated(hs: seq<int>, m: int)
    requires m > 0
  {
    forall i, j {:trigger HiBits(hs[i], m), HiBits(hs[j], m)} ::
      0 <= i < |hs| && 0 <= j < |hs| && HiBits(hs[i], m) == HiBits(hs[j], m) ==> hs[i] == hs[j]
  }

  /**
   * Hashes that cannot meet a clamped potential match with another hash: at
   * most 15 of them (no probe run reaches the clamp), or separated above the mask.
   */
  ghost predicate Safe(hs: seq<int>, m: int)
    requires m > 0
  {
    |hs| <= CLAMP || HiSeparated(hs, m)
  }

  /** Fewer hashes are no less safe. */
  lemma SafePrefix(hs: seq<int>, m: int, n: int)
    requires m > 0 && Safe(hs, m) && 0 <= n <= |hs|
    ensures Safe(hs[..n], m)
  {
    if |hs| > CLAMP && n > CLAMP {
      forall i, j | 0 <= i < n && 0 <= j < n && HiBits(hs[..n][i], m) == HiBits(hs[..n][j], m)
        ensures hs[..n][i] == hs[..n][j]
      {
        assert HiBits(hs[i], m) == HiBits(hs[j], m);
      }
    }
  }

  // ---------------------------------------------------------------------
  // Cyclic slot arithmetic

  lemma ModShift(a: int, j: int, m: int)
    requires m > 0
    ensures (a + j * m) % m == a % m
  {
    var q, r := a / m, a % m;
    assert a + j * m == (q + j) * m + r;
    DivUnique(a + j * m, m, q + j, r);
  }

  /** Reducing a hash to its 28 bits first does not change its slot: M divides 2^28. */
  lemma ModDrop(a: int, b: int, m: int)
    requires SlotCount(m) && 0 <= a
    ensures (a % K + b) % m == (a + b) % m
  {
    SlotCountDividesK(m);
    DivMod(a, K);
    var j := (a / K) * (K / m);
    assert j * m == (a / K) * K by {
      assert j * m == (a / K) * ((K / m) * m);
    }
    ModShift(a % K + b, j, m);
  }

  lemma PrevNext(s: int, t: int, m: int)
    requires m > 1 && 0 <= s < m && 0 <= t < m
    ensures Prev(Next(s, m), m) == s && Next(Prev(s, m), m) == s
    ensures Prev(t, m) == s <==> t == Next(s, m)
    ensures Prev(s, m) != s
  {
    ModAdd(s + 1, -1, m);
    ModOfSmall(s, m);
    ModAdd(s - 1, 1, m);
    ModAdd(t - 1, 1, m);
    ModOfSmall(t, m);
    if s == 0 {
      DivUnique(-1, m, -1, m - 1);
    } else {
      ModOfSmall(s - 1, m);
    }
  }

  /** Slot (h + scan) % m is the next probe after (h + scan - 1) % m. */
  lemma ProbeNext(h: int, scan: int, m: int)
    requires m > 0
    ensures Next((h + scan) % m, m) == (h + scan + 1) % m
    ensures Prev((h + scan) % m, m) == (h + scan - 1) % m
  {
    ModAdd(h + scan, 1, m);
    ModAdd(h + scan, -1, m);
  }

  /** The distance of the element for hash h when it sits at its probe number p. */
  lemma ProbeDistance(h: int, p: int, m: int)
    requires m > 0 && 1 <= p <= m
    ensures ((h + p - 1) % m - h) % m + 1 == p
  {
    ModAdd(h + p - 1, -h, m);
    ModOfSmall(p - 1, m);
  }

  // ---------------------------------------------------------------------
  // Counting: an index structure over fewer than m elements leaves a slot free

  lemma {:induction false} ImageSize(slots: seq<int>)
    ensures |set i | 0 <= i < |slots| :: slots[i]| <= |slots|
  {
    if |slots| > 0 {
      var t := slots[..|slots| - 1];
      ImageSize(t);
      assert (set i | 0 <= i < |slots| :: slots[i]) == (set i | 0 <= i < |t| :: t[i]) + {slots[|slots| - 1]};
    }
  }

  /** The slot numbers 0 .. n-1. */
  ghost function Below(n: nat): set<int>
  {
    if n == 0 then {} else Below(n - 1) + {n - 1}
  }

  lemma {:induction false} BelowSize(n: nat)
    ensures |Below(n)| == n
    ensures forall x :: x in Below(n) <==> 0 <= x < n
  {
    if n > 0 {
      BelowSize(n - 1);
    }
  }

  lemma {:induction false} SubsetSize<T>(a: set<T>, b: set<T>)
    requires a <= b
    ensures |a| <= |b|
    decreases |b|
  {
    if a != {} {
      var x :| x in a;
      SubsetSize(a - {x}, b - {x});
    }
  }

  /** Fewer live elements than slots: some slot is free. */
  lemma FreeSlot(e: seq<int>, slots: seq<int>, m: int, c: int) returns (z: int)
    requires m > 0 && |e| == m && IndexedBut(e, slots, m, c) && |slots| < m
    ensures 0 <= z < m && e[z] == 0
  {
    if forall s :: 0 <= s < m ==> e[s] != 0 {
      var img := set i | 0 <= i < |slots| :: slots[i];
      var rng := Below(m);
      BelowSize(m);
      forall s | s in rng
        ensures s in img
      {
        assert slots[Idx(e[s], m)] == s;
      }
      ImageSize(slots);
      SubsetSize(rng, img);
      assert false;
    }
    z :| 0 <= z < m && e[z] == 0;
  }

  /** The slot at probe offset k from h. */
  function ProbeSlot(h: int, k: int, m: int): int
    requires m > 0
  {
    (h + k) % m
  }

  /** The slots of probe offsets 0 .. len-1 from h. */
  ghost function RunSlots(h: int, len: nat, m: int): set<int>
    requires m > 0
  {
    set k | 0 <= k < len :: ProbeSlot(h, k, m)
  }

  /** Probe offsets less than m apart land on different slots. */
  lemma ProbeSlotsDiffer(h: int, a: int, b: int, m: int)
    requires m > 0 && 0 <= a < b < m
    ensures ProbeSlot(h, a, m) != ProbeSlot(h, b, m)
  {
    if ProbeSlot(h, a, m) == ProbeSlot(h, b, m) {
      DivMod(h + a, m);
      DivMod(h + b, m);
      var d := (h + b) / m - (h + a) / m;
      assert d * m == b - a by {
        assert d * m == ((h + b) / m) * m - ((h + a) / m) * m;
      }
      MulCancelLess(0, d, m);
      MulCancelLess(d, 1, m);
    }
  }

  /** Probe offsets below m land on distinct slots. */
  lemma {:induction false} RunSlotsSize(h: int, len: nat, m: int)
    requires m > 0 && len <= m
    ensures |RunSlots(h, len, m)| == len
  {
    if len > 0 {
      RunSlotsSize(h, len - 1, m);
      var x := ProbeSlot(h, len - 1, m);
      assert RunSlots(h, len, m) == RunSlots(h, len - 1, m) + {x};
      assert x !in RunSlots(h, len - 1, m) by {
        forall k | 0 <= k < len - 1
          ensures ProbeSlot(h, k, m) != x
        {
          ProbeSlotsDiffer(h, k, len - 1, m);
        }
      }
    }
  }

  /** A run of occupied probe offsets is no longer than the number of live elements. */
  lemma RunCount(e: seq<int>, slots: seq<int>, m: int, h: int, len: nat)
    requires m > 0 && |e| == m && Indexed(e, slots, m) && FullRun(e, m, h, 0, len) && len <= m
    ensures len <= |slots|
  {
    var img := set i | 0 <= i < |slots| :: slots[i];
    forall s | s in RunSlots(h, len, m)
      ensures s in img
    {
      var k :| 0 <= k < len && ProbeSlot(h, k, m) == s;
      assert Filled(e, m, h, k);
      assert slots[Idx(e[s], m)] == s;
    }
    RunSlotsSize(h, len, m);
    SubsetSize(RunSlots(h, len, m), img);
    ImageSize(slots);
  }

  // ---------------------------------------------------------------------
  // Consequences of the ordering

  /**
   * Walking back k steps from an element q steps from home (k < q) meets only
   * occupied slots whose elements are at least q - k steps from home.
   */
  lemma {:induction false} Chain(e: seq<int>, hs: seq<int>, m: int, t: int, k: int)
    requires Encoded(e, hs, m) && Ordered(e, hs, m)
    requires 0 <= t < m && e[t] != 0 && 0 <= k < TD(e, hs, m, t)
    ensures e[(t - k) % m] != 0 && TD(e, hs, m, (t - k) % m) >= TD(e, hs, m, t) - k
    decreases k
  {
    if k == 0 {
      ModOfSmall(t, m);
    } else {
      Chain(e, hs, m, t, k - 1);
      var u := (t - (k - 1)) % m;
      ModAdd(t - (k - 1), -1, m);
      assert Prev(u, m) == (t - k) % m;
    }
  }

  /** With a free slot somewhere, no element is a full turn away from home. */
  lemma BelowTurn(e: seq<int>, hs: seq<int>, slots: seq<int>, m: int, c: int, t: int)
    requires Encoded(e, hs, m) && Ordered(e, hs, m) && IndexedBut(e, slots, m, c) && |slots| < m
    requires 0 <= t < m && e[t] != 0
    ensures TD(e, hs, m, t) < m
  {
    var z := FreeSlot(e, slots, m, c);
    var k := (t - z) % m;
    if k < TD(e, hs, m, t) {
      Chain(e, hs, m, t, k);
      ModSub(t, t - z, m);
      ModOfSmall(z, m);
      assert false;
    }
  }

  /** Walking back from slot t, q steps from home h, to probe number scan + 1. */
  lemma BackToProbe(t: int, h: int, q: int, scan: int, m: int)
    requires m > 0 && (t - h) % m + 1 == q
    ensures (t - (q - (scan + 1))) % m == (h + scan) % m
  {
    var j := (t - h) / m;
    assert t - h == j * m + (q - 1);
    assert t - (q - (scan + 1)) == (h + scan) + j * m;
    ModShift(h + scan, j, m);
  }

  /** The slot h + q - 1 is where an element q slots from home h sits. */
  lemma BackHome(t: int, h: int, q: int, m: int)
    requires m > 0 && 0 <= t < m && (t - h) % m + 1 == q
    ensures (h + q - 1) % m == t
  {
    BackToProbe(t, h, q, q - 1, m);
    ModOfSmall(t, m);
  }

  /**
   * One probe of `rhmap_find` for a 28-bit hash h at offset `scan`, on an
   * ordered table: if element i has hash h and lies beyond the probe, the probe
   * either reports a potential match or may continue, and i still lies beyond.
   */
  lemma FindStep(e: seq<int>, hs: seq<int>, slots: seq<int>, m: int, h: int, scan: int, i: int)
    requires RobinHood(e, hs, m) && Indexed(e, slots, m) && |slots| == |hs|
    requires 0 <= h < K && 0 <= scan && 0 <= i < |hs| && hs[i] == h
    requires TD(e, hs, m, slots[i]) > scan
    ensures
      var w := e[(h + scan) % m];
      w / m == Word(Clamp(scan + 1), h) / m ||
      (Dist(w) >= Clamp(scan + 1) && TD(e, hs, m, slots[i]) > scan + 1)
  {
    var t := slots[i];
    var q := TD(e, hs, m, t);
    var k := q - (scan + 1);
    Chain(e, hs, m, t, k);
    BackToProbe(t, h, q, scan, m);
    var w := e[(h + scan) % m];
    SlotCountDividesK(m);
    MatchIff(w, h, Clamp(scan + 1), m);
    if k == 0 {
      ModOfSmall(t, m);
    }
  }

  /** The cyclic distance from a to slot z is 0 exactly when a lands on z. */
  lemma CyclicZero(z: int, a: int, m: int)
    requires m > 0 && 0 <= z < m
    ensures (z - a) % m == 0 <==> a % m == z
  {
    ModSub(z, a, m);
    var r := a % m;
    if z >= r {
      ModOfSmall(z - r, m);
    } else {
      DivUnique(z - r, m, -1, z - r + m);
    }
  }

  lemma SameHash(a: int, b: int, m: int)
    requires m > 0 && a / m == b / m && a % m == b % m
    ensures a == b
  {
    assert a == (a / m) * m + a % m;
    assert b == (b / m) * m + b % m;
  }

  /** Two hashes seen at the same distance from one slot share their home bucket. */
  lemma SameResidue(s: int, a: int, b: int, m: int)
    requires m > 0 && (s - a) % m == (s - b) % m
    ensures a % m == b % m
  {
    var q1, q2, r := (s - a) / m, (s - b) / m, (s - a) % m;
    assert b == a + (q1 - q2) * m by {
      assert s - a == q1 * m + r && s - b == q2 * m + r;
      assert (q1 - q2) * m == q1 * m - q2 * m;
    }
    ModShift(a, q1 - q2, m);
  }

  /**
   * A potential match below the clamp is a real one: the entry belongs to an
   * element with the same 28-bit hash, at exactly that distance from home.
   */
  lemma ExactMatch(e: seq<int>, hs: seq<int>, slots: seq<int>, m: int, h: int, p: int)
    requires RobinHood(e, hs, m) && Indexed(e, slots, m) && |slots| == |hs|
    requires 0 <= h < K && 1 <= p < CLAMP
    requires Dist(e[(h + p - 1) % m]) == p && Hi(e[(h + p - 1) % m], m) == h / m
    ensures
      var i := Idx(e[(h + p - 1) % m], m);
      0 <= i < |hs| && hs[i] == h && slots[i] == (h + p - 1) % m && TD(e, hs, m, slots[i]) == p
  {
    var s := (h + p - 1) % m;
    var w := e[s];
    assert w != 0;
    assert WordOk(w, hs, m);
    var i := Idx(w, m);
    assert Dist(w) == Clamp(TD(e, hs, m, s));
    assert TD(e, hs, m, s) == p;
    assert (s - hs[i]) % m + 1 == p;
    ProbeDistance(h, p, m);
    SameResidue(s, hs[i], h, m);
    SameHash(hs[i], h, m);
  }

  /** Passing an occupied slot brings the probe one step closer to the free slot z. */
  lemma ProbeCloser(e: seq<int>, m: int, z: int, a: int)
    requires m > 0 && |e| == m && 0 <= z < m && e[z] == 0 && e[a % m] != 0
    ensures (z - (a + 1)) % m == (z - a) % m - 1
  {
    CyclicZero(z, a, m);
    StepCloser(z, a, m);
  }

  /** Probe offset k from h lands on an occupied slot. */
  ghost predicate Filled(e: seq<int>, m: int, h: int, k: int)
    requires |e| == m && m > 0
  {
    e[(h + k) % m] != 0
  }

  /** Probe offsets a..b-1 from h all land on occupied slots. */
  ghost predicate FullRun(e: seq<int>, m: int, h: int, a: int, b: int)
    requires |e| == m && m > 0
  {
    forall k :: a <= k < b ==> Filled(e, m, h, k)
  }

  /** A run of occupied probe offsets from h stops short of the free slot z. */
  lemma {:induction false} RunCloser(e: seq<int>, m: int, h: int, len: nat, z: int)
    requires m > 0 && |e| == m && 0 <= z < m && e[z] == 0 && FullRun(e, m, h, 0, len)
    ensures (z - (h + len)) % m == (z - h) % m - len
  {
    if len > 0 {
      RunCloser(e, m, h, len - 1, z);
      assert Filled(e, m, h, len - 1);
      ProbeCloser(e, m, z, h + (len - 1));
    }
  }

  /** With a free slot, a run of occupied probe offsets is shorter than the table. */
  lemma RunBound(e: seq<int>, m: int, h: int, len: nat, z: int)
    requires m > 0 && |e| == m && 0 <= z < m && e[z] == 0 && FullRun(e, m, h, 0, len)
    ensures len < m
  {
    RunCloser(e, m, h, len, z);
  }

  /** A step to the next slot moves one slot nearer the free slot z. */
  lemma StepToward(m: int, z: int, ix: int, t: int)
    requires m > 0 && 0 <= z < m && 0 <= ix < m && (z - ix) % m >= 1
    requires t == (ix + 1) % m && t != z
    ensures 1 <= (z - t) % m == (z - ix) % m - 1
  {
    CyclicZero(z, ix, m);
    ModOfSmall(ix, m);
    StepCloser(z, ix, m);
    ModSub(z, ix + 1, m);
    CyclicZero(z, ix + 1, m);
  }

  /** A slot other than z lies between 1 and m - 1 slots before it. */
  lemma Toward(m: int, z: int, t: int)
    requires m > 0 && 0 <= z < m && 0 <= t < m && t != z
    ensures 1 <= (z - t) % m < m
  {
    CyclicZero(z, t, m);
    ModOfSmall(t, m);
  }


  /**
   * The probe from the home of element i meets only occupied slots until it
   * reaches i's slot, and no other slot names dense index i.
   */
  lemma ProbeToIndex(e: seq<int>, hs: seq<int>, slots: seq<int>, m: int, i: int, k: int)
    requires RobinHood(e, hs, m) && Indexed(e, slots, m) && |slots| == |hs| && 0 <= i < |hs|
    requires 0 <= k < TD(e, hs, m, slots[i])
    ensures e[(hs[i] + k) % m] != 0
    ensures Idx(e[(hs[i] + k) % m], m) == i <==> k == TD(e, hs, m, slots[i]) - 1
  {
    var t := slots[i];
    var q := TD(e, hs, m, t);
    var j := q - (k + 1);
    BelowTurn(e, hs, slots, m, -1, t);
    Chain(e, hs, m, t, j);
    BackToProbe(t, hs[i], q, k, m);
    var s := (hs[i] + k) % m;
    assert s == (t - j) % m;
    CyclicZero(t, t - j, m);
    ModOfSmall(j, m);
    if Idx(e[s], m) == i {
      assert slots[i] == s;
    }
    if j == 0 {
      ModOfSmall(t, m);
    }
  }
}
