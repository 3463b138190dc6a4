// Clamped elements stay clamped.  An element 15 or more slots from its home,
// behind a run of occupied slots back to that home, keeps that shape through
// every later insert, ordered table or not: its clamped field is resolved
// through the hash array, which gives its true distance, so wherever the
// insert moves it, it lands with a clamped field again and the run behind it
// stays occupied.  An ordered table with a clamped field holds such an
// element, so a sequence of inserts that ever meets a clamped field ends in a
// table with one.  Read the other way: a final table with no clamped field
// was ordered all along.
module RhStretch {
  import opened RhLayout
  import opened RhTable
  import opened RhInsert

  /**
   * Element x sits q >= 15 slots from home, in the slot `slots[x]`, with a
   * clamped field, and probe offsets 0 .. q-1 from its home are all occupied.
   */
  ghost predicate Pinned(e: seq<int>, hs: seq<int>, slots: seq<int>, m: int, x: int, q: int)
  {
    m > 0 && |e| == m && 0 <= x < |hs| && x < |slots| && CLAMP <= q &&
    slots[x] == (hs[x] + q - 1) % m && Dist(e[slots[x]]) == CLAMP && FullRun(e, m, hs[x], 0, q)
  }

  /** The table holds a pinned element. */
  ghost predicate Stretched(e: seq<int>, hs: seq<int>, slots: seq<int>, m: int)
  {
    exists x, q :: Pinned(e, hs, slots, m, x, q)
  }

  /**
   * During phase two: the pinned element x is the carried element c,
   * displaced from slot ix, q == scan slots from home; or it is pinned in
   * the table.
   */
  ghost predicate Track(e: seq<int>, hs: seq<int>, slots: seq<int>, m: int, ix: int, scan: int, c: int, x: int, q: int)
  {
    if x == c then
      m > 0 && |e| == m && 0 <= x < |hs| && CLAMP <= scan && q == scan &&
      ix == (hs[x] + scan - 1) % m && FullRun(e, m, hs[x], 0, scan)
    else Pinned(e, hs, slots, m, x, q)
  }

  /** Writing an occupied word keeps every run of occupied slots. */
  lemma FullRunPut(e: seq<int>, e2: seq<int>, m: int, h: int, a: int, b: int, t: int, w: int)
    requires m > 0 && |e| == m && FullRun(e, m, h, a, b) && 0 <= t < m && w != 0 && e2 == e[t := w]
    ensures FullRun(e2, m, h, a, b)
  {
    forall k | a <= k < b
      ensures Filled(e2, m, h, k)
    {
      assert Filled(e, m, h, k);
    }
  }

  /** Writing another slot, and moving another element, keeps a pinned element pinned. */
  lemma PinnedPut(e: seq<int>, hs: seq<int>, slots: seq<int>, m: int, x: int, q: int, c: int, t: int, w: int)
    requires Pinned(e, hs, slots, m, x, q) && 0 <= c < |slots| && c != x && 0 <= t < m && slots[x] != t && w != 0
    ensures Pinned(e[t := w], hs, slots[c := t], m, x, q)
  {
    FullRunPut(e, e[t := w], m, hs[x], 0, q, t, w);
  }

  /** A pinned element's clamped field resolves, through the hash array, to its distance q, and q < m. */
  lemma PinnedScan(e: seq<int>, hs: seq<int>, slots: seq<int>, hl: seq<int>, m: int, x: int, q: int, z: int)
    requires Pinned(e, hs, slots, m, x, q) && 0 <= z < m && e[z] == 0
    requires x < |hl| && hl[x] == hs[x] && Idx(e[slots[x]], m) == x
    ensures q < m && SlotScan(e[slots[x]], slots[x], hl, m) == q
  {
    RunBound(e, m, hs[x], q, z);
    ProbeDistance(hs[x], q, m);
  }

  /** The carried element lands clamped in the next slot, or another one leaves the pinned element alone. */
  lemma TrackPut(e: seq<int>, hs: seq<int>, slots: seq<int>, m: int, ix: int, scan: int, c: int,
                 x: int, q: int, w: int) returns (q1: int)
    requires m > 0 && |e| == m && 0 <= c < |slots| && Track(e, hs, slots, m, ix, scan, c, x, q)
    requires 0 <= scan && Dist(w) == Clamp(scan + 1) && (x != c ==> slots[x] != Next(ix, m))
    ensures Pinned(e[Next(ix, m) := w], hs, slots[c := Next(ix, m)], m, x, q1)
  {
    var t := Next(ix, m);
    if x == c {
      ProbeNext(hs[x], scan - 1, m);
      FullRunPut(e, e[t := w], m, hs[x], 0, scan, t, w);
      assert Filled(e[t := w], m, hs[x], scan);
      q1 := scan + 1;
    } else {
      PinnedPut(e, hs, slots, m, x, q, c, t, w);
      q1 := q;
    }
  }

  /** Displacing a pinned element makes it the carried one, at its true distance. */
  lemma TrackTaken(e: seq<int>, hs: seq<int>, slots: seq<int>, hl: seq<int>, m: int, c: int, x: int, q: int,
                   w: int, z: int)
    requires Pinned(e, hs, slots, m, x, q) && 0 <= c < |slots| && x != c && w != 0 && 0 <= z < m && e[z] == 0
    requires x < |hl| && hl[x] == hs[x] && Idx(e[slots[x]], m) == x
    ensures var t := slots[x];
      SlotScan(e[t], t, hl, m) == q && Track(e[t := w], hs, slots[c := t], m, t, q, x, x, q)
  {
    PinnedScan(e, hs, slots, hl, m, x, q, z);
    FullRunPut(e, e[slots[x] := w], m, hs[x], 0, q, slots[x], w);
  }

  /** Passing an occupied slot lengthens the carried element's run by one. */
  lemma TrackPass(e: seq<int>, hs: seq<int>, slots: seq<int>, m: int, ix: int, scan: int, c: int,
                  x: int, q: int) returns (q1: int)
    requires m > 0 && |e| == m && Track(e, hs, slots, m, ix, scan, c, x, q) && e[Next(ix, m)] != 0
    ensures Track(e, hs, slots, m, Next(ix, m), scan + 1, c, x, q1)
  {
    q1 := q;
    if x == c {
      ProbeNext(hs[x], scan - 1, m);
      ProbeNext(hs[x], scan, m);
      assert Filled(e, m, hs[x], scan);
      q1 := scan + 1;
    }
  }

  /** Phase two keeps the pinned element pinned, whether or not it is the one carried. */
  lemma {:induction false} DisplaceStretch(e: seq<int>, hs: seq<int>, slots: seq<int>, hl: seq<int>, m: int,
                                           ix: int, scan: int, c: int, n: nat, z: int, carry: int,
                                           x: int, q: int) returns (q2: int)
    requires DisplacePre(e, hs, slots, hl, m, ix, scan, c, n, z, carry)
    requires x < |hs| - 1 && Track(e, hs, slots, m, ix, scan, c, x, q)
    ensures var r := Displace(e, slots, hl, m, ix, scan, carry, n);
      r.Placed? && Pinned(r.e, hs, r.slots, m, x, q2)
    decreases n, 1
  {
    DisplaceOk(e, hs, slots, hl, m, ix, scan, c, n, z, carry);
    var t := Next(ix, m);
    if e[t] == 0 {
      DisplaceUnfold(e, slots, hl, m, ix, scan, carry, n);
      CarryWord(hs, m, c, Clamp(scan + 1));
      q2 := TrackPut(e, hs, slots, m, ix, scan, c, x, q, Word(Clamp(scan + 1), carry));
    } else if SlotScan(e[t], t, hl, m) < scan + 1 {
      q2 := SwapStretch(e, hs, slots, hl, m, ix, scan, c, n, z, carry, x, q);
    } else {
      DisplaceUnfold(e, slots, hl, m, ix, scan, carry, n);
      DisplacePass(e, hs, slots, hl, m, ix, scan, c, n, z, carry);
      var q1 := TrackPass(e, hs, slots, m, ix, scan, c, x, q);
      q2 := DisplaceStretch(e, hs, slots, hl, m, t, scan + 1, c, n - 1, z, carry, x, q1);
    }
  }

  /** The swap step of phase two: whichever element is carried on, the pinned one stays tracked. */
  lemma {:induction false} SwapStretch(e: seq<int>, hs: seq<int>, slots: seq<int>, hl: seq<int>, m: int,
                                       ix: int, scan: int, c: int, n: nat, z: int, carry: int,
                                       x: int, q: int) returns (q2: int)
    requires DisplacePre(e, hs, slots, hl, m, ix, scan, c, n, z, carry)
    requires x < |hs| - 1 && Track(e, hs, slots, m, ix, scan, c, x, q)
    requires var t := Next(ix, m); e[t] != 0 && SlotScan(e[t], t, hl, m) < scan + 1
    ensures var r := Displace(e, slots, hl, m, ix, scan, carry, n);
      r.Placed? && Pinned(r.e, hs, r.slots, m, x, q2)
    decreases n, 0
  {
    var t := Next(ix, m);
    var w := Word(Clamp(scan + 1), carry);
    var put := e[t := w];
    var y := Idx(e[t], m);
    var ss := SlotScan(e[t], t, hl, m);
    assert Displace(e, slots, hl, m, ix, scan, carry, n) == Displace(put, slots[c := t], hl, m, t, ss, Body(e[t]), n - 1) by {
      DisplaceOk(e, hs, slots, hl, m, ix, scan, c, n, z, carry);
      DisplaceUnfold(e, slots, hl, m, ix, scan, carry, n);
    }
    assert n > 1 && DisplacePre(put, hs, slots[c := t], hl, m, t, ss, y, n - 1, z, Body(e[t])) by {
      DisplaceOk(e, hs, slots, hl, m, ix, scan, c, n, z, carry);
      DisplaceSwap(e, hs, slots, hl, m, ix, scan, c, n, z, carry);
    }
    CarryWord(hs, m, c, Clamp(scan + 1));
    if x != c && slots[x] == t {
      assert Idx(e[slots[x]], m) == x && x < |hl| && hl[x] == hs[x];
      q2 := EvictTaken(e, put, hs, slots, slots[c := t], hl, m, t, ss, y, Body(e[t]), n - 1, z, x, q, c, w);
    } else {
      assert y != x;
      var q1 := TrackPut(e, hs, slots, m, ix, scan, c, x, q, w);
      q2 := DisplaceStretch(put, hs, slots[c := t], hl, m, t, ss, y, n - 1, z, Body(e[t]), x, q1);
    }
  }

  /** A pinned element just displaced is carried on at its true distance. */
  lemma EvictTaken(e: seq<int>, put: seq<int>, hs: seq<int>, slots: seq<int>, sl: seq<int>, hl: seq<int>, m: int,
                   t: int, ss: int, y: int, body: int, n: nat, z: int, x: int, q: int, c: int, w: int)
                   returns (q2: int)
    requires DisplacePre(put, hs, sl, hl, m, t, ss, y, n, z, body)
    requires x < |hs| - 1 && Pinned(e, hs, slots, m, x, q) && 0 <= c < |slots| && x != c && w != 0
    requires 0 <= z < m && e[z] == 0 && x < |hl| && hl[x] == hs[x] && Idx(e[slots[x]], m) == x
    requires t == slots[x] && put == e[t := w] && sl == slots[c := t] && ss == SlotScan(e[t], t, hl, m) && y == x
    ensures var r := Displace(put, sl, hl, m, t, ss, body, n);
      r.Placed? && Pinned(r.e, hs, r.slots, m, x, q2)
    decreases n, 2
  {
    TrackTaken(e, hs, slots, hl, m, c, x, q, w, z);
    q2 := DisplaceStretch(put, hs, sl, hl, m, t, ss, y, n, z, body, x, q);
  }

  /** Displacing another element leaves the pinned one pinned for phase two. */
  lemma EvictOther(e: seq<int>, put: seq<int>, hs: seq<int>, slots: seq<int>, sl: seq<int>, hl: seq<int>, m: int,
                   t: int, ss: int, y: int, body: int, n: nat, z: int, x: int, q: int, c: int, w: int)
                   returns (q2: int)
    requires DisplacePre(put, hs, sl, hl, m, t, ss, y, n, z, body)
    requires x < |hs| - 1 && Pinned(e, hs, slots, m, x, q) && 0 <= c < |slots| && x != c && w != 0
    requires 0 <= t < m && slots[x] != t && y != x && put == e[t := w] && sl == slots[c := t]
    ensures var r := Displace(put, sl, hl, m, t, ss, body, n);
      r.Placed? && Pinned(r.e, hs, r.slots, m, x, q2)
    decreases n, 2
  {
    PinnedPut(e, hs, slots, m, x, q, c, t, w);
    q2 := DisplaceStretch(put, hs, sl, hl, m, t, ss, y, n, z, body, x, q);
  }

  /** Phase one keeps a pinned element pinned: if it is displaced, phase two carries it on clamped. */
  lemma {:induction false} InsertStretch(e: seq<int>, hs: seq<int>, slots: seq<int>, hl: seq<int>, m: int,
                                         scan: int, n: nat, z: int, x: int, q: int) returns (q2: int)
    requires InsertPre(e, hs, slots, hl, m, scan, n, z)
    requires x < |hs| - 1 && Pinned(e, hs, slots, m, x, q)
    ensures var size := |hs| - 1;
      var r := InsertFrom(e, slots, hl, m, hs[size], size, scan, n);
      r.Placed? ==> Pinned(r.e, hs, r.slots, m, x, q2)
    decreases n
  {
    var size := |hs| - 1;
    var h := hs[size];
    var t := (h + scan) % m;
    InsertUnfold(e, slots, hl, m, h, size, scan, n);
    q2 := q;
    if e[t] / m == Word(Clamp(scan + 1), h) / m {
    } else if e[t] == 0 {
      var w := Word(Clamp(scan + 1), InsertBody(h, size, m));
      assert InsertBody(h, size, m) == BodyOf(hs, m, size);
      CarryWord(hs, m, size, Clamp(scan + 1));
      PinnedPut(e, hs, slots, m, x, q, size, t, w);
    } else if SlotScan(e[t], t, hl, m) < scan + 1 {
      q2 := EvictStretch(e, hs, slots, hl, m, scan, n, z, x, q);
    } else {
      InsertPass(e, hs, slots, hl, m, scan, n, z);
      q2 := InsertStretch(e, hs, slots, hl, m, scan + 1, n - 1, z, x, q);
    }
  }

  /** The swap step of phase one hands over to phase two with the pinned element tracked. */
  lemma EvictStretch(e: seq<int>, hs: seq<int>, slots: seq<int>, hl: seq<int>, m: int,
                     scan: int, n: nat, z: int, x: int, q: int) returns (q2: int)
    requires InsertPre(e, hs, slots, hl, m, scan, n, z)
    requires x < |hs| - 1 && Pinned(e, hs, slots, m, x, q)
    requires var t := (hs[|hs| - 1] + scan) % m;
      e[t] / m != Word(Clamp(scan + 1), hs[|hs| - 1]) / m && e[t] != 0 && SlotScan(e[t], t, hl, m) < scan + 1
    ensures var size := |hs| - 1;
      var r := InsertFrom(e, slots, hl, m, hs[size], size, scan, n);
      r.Placed? ==> Pinned(r.e, hs, r.slots, m, x, q2)
  {
    var size := |hs| - 1;
    var h := hs[size];
    var t := (h + scan) % m;
    var w := Word(Clamp(scan + 1), InsertBody(h, size, m));
    var put := e[t := w];
    var y := Idx(e[t], m);
    var ss := SlotScan(e[t], t, hl, m);
    assert InsertFrom(e, slots, hl, m, h, size, scan, n) == Displace(put, slots[size := t], hl, m, t, ss, Body(e[t]), m) by {
      InsertUnfold(e, slots, hl, m, h, size, scan, n);
    }
    assert DisplacePre(put, hs, slots[size := t], hl, m, t, ss, y, m, z, Body(e[t])) by {
      InsertSwap(e, hs, slots, hl, m, scan, n, z);
    }
    assert InsertBody(h, size, m) == BodyOf(hs, m, size);
    CarryWord(hs, m, size, Clamp(scan + 1));
    if slots[x] == t {
      assert Idx(e[slots[x]], m) == x && x < |hl| && hl[x] == hs[x];
      q2 := EvictTaken(e, put, hs, slots, slots[size := t], hl, m, t, ss, y, Body(e[t]), m, z, x, q, size, w);
    } else {
      assert y != x;
      q2 := EvictOther(e, put, hs, slots, slots[size := t], hl, m, t, ss, y, Body(e[t]), m, z, x, q, size, w);
    }
  }

  /** An insert from any resume point, into any indexed table, keeps a pinned element pinned. */
  lemma InsertedStretch(e: seq<int>, hs: seq<int>, slots: seq<int>, hl: seq<int>, m: int, h: int, scan: int,
                        x: int, q: int) returns (q2: int)
    requires Encoded(e, hs, m) && Indexed(e, slots, m) && |slots| == |hs| && |hs| < |hl| && |hs| + 1 < m
    requires 0 <= h < K && 0 <= scan && forall s :: 0 <= s < m ==> 0 <= e[s]
    requires forall i :: 0 <= i < |hs| ==> hl[i] == hs[i]
    requires Pinned(e, hs, slots, m, x, q)
    ensures var r := Inserted(e, hs, slots, hl, m, h, scan);
      r.Placed? ==> Pinned(r.e, hs + [h], r.slots, m, x, q2)
  {
    var z := FreeSlot(e, slots, m, -1);
    ExtendTable(e, hs, slots, m, h, scan, |hl|);
    var hs2 := hs + [h];
    assert hs2[x] == hs[x] && (slots + [0])[x] == slots[x];
    q2 := InsertStretch(e, hs2, slots + [0], hl, m, scan, m, z, x, q);
  }

  /** A stretched table stays stretched through an insert. */
  lemma StretchedInsert(e: seq<int>, hs: seq<int>, slots: seq<int>, hl: seq<int>, m: int, h: int, scan: int)
    requires Encoded(e, hs, m) && Indexed(e, slots, m) && |slots| == |hs| && |hs| < |hl| && |hs| + 1 < m
    requires 0 <= h < K && 0 <= scan && forall s :: 0 <= s < m ==> 0 <= e[s]
    requires forall i :: 0 <= i < |hs| ==> hl[i] == hs[i]
    requires Stretched(e, hs, slots, m)
    ensures var r := Inserted(e, hs, slots, hl, m, h, scan);
      r.Placed? ==> Stretched(r.e, hs + [h], r.slots, m)
  {
    var x, q :| Pinned(e, hs, slots, m, x, q);
    var q2 := InsertedStretch(e, hs, slots, hl, m, h, scan, x, q);
  }

  /** An ordered table with a clamped field is stretched: the clamped element sits behind a full run. */
  lemma ClampedStretched(e: seq<int>, hs: seq<int>, slots: seq<int>, m: int)
    requires RobinHood(e, hs, m) && Indexed(e, slots, m) && |slots| == |hs| && !Unclamped(e, m)
    ensures Stretched(e, hs, slots, m)
  {
    var s :| 0 <= s < m && Dist(e[s]) >= CLAMP;
    assert WordOk(e[s], hs, m);
    var x := Idx(e[s], m);
    var q := TD(e, hs, m, s);
    BackHome(s, hs[x], q, m);
    ResumeRun(e, hs, m, hs[x], q);
    assert Pinned(e, hs, slots, m, x, q);
  }

  /** A stretched table has a clamped field. */
  lemma StretchedClamped(e: seq<int>, hs: seq<int>, slots: seq<int>, m: int)
    requires |e| == m && Stretched(e, hs, slots, m)
    ensures !Unclamped(e, m)
  {
    var x, q :| Pinned(e, hs, slots, m, x, q);
    assert Dist(e[slots[x]]) == CLAMP;
  }
}
