// `rhmap_remove` as a function on the slot table, and the proof that it keeps
// the index structure and the Robin Hood invariant.
//
// The remove clears the slot of the removed element and shifts the following
// run of elements that are away from home one slot back (lowering their scan
// distance by one), until it meets an empty slot or an element at its home.
// If the removed dense index was not the last one, the last element is then
// renumbered into the hole of the dense arrays.
module RhRemove {
  import opened RhLayout
  import opened RhTable
  import opened RhInsert

  /**
   * The word the backward shift writes one slot back for entry w found at slot
   * nx: the scan field lowered by one, or for a clamped field the distance
   * resolved through the hash array and clamped again.
   */
  function ShiftWord(w: int, nx: int, hl: seq<int>, m: int): int
    requires m > 0 && 0 <= Idx(w, m) < |hl|
  {
    if w < CLAMP * K then w - K else Word(Clamp((nx - hl[Idx(w, m)]) % m), Body(w))
  }

  lemma ShiftWordIdx(w: int, nx: int, hl: seq<int>, m: int)
    requires SlotCount(m) && 2 * K <= w && Idx(w, m) < |hl|
    ensures 0 <= ShiftWord(w, nx, hl, m) && Idx(ShiftWord(w, nx, hl, m), m) == Idx(w, m)
  {
    BodyIdx(w, m);
    if w < CLAMP * K {
      SlotCountDividesK(m);
      ModShift(w - K, K / m, m);
    } else {
      WordIdx(Clamp((nx - hl[Idx(w, m)]) % m), Body(w), m);
    }
  }

  /** The table and the slot of each dense index after the backward shift. */
  datatype Shift = Shift(e: seq<int>, slots: seq<int>)

  /**
   * The backward shift of `rhmap_remove` from hole ix, looking at no more than
   * n further slots: while the next entry is away from home, move it back into
   * the hole; then clear the hole.
   */
  ghost function ShiftFrom(e: seq<int>, slots: seq<int>, hl: seq<int>, m: int, ix: int, n: nat): (r: Shift)
    requires SlotCount(m) && |e| == m && IdxBelow(e, m, |hl|) && 0 <= ix < m
    ensures |r.e| == m && |r.slots| == |slots|
    decreases n
  {
    var nx := Next(ix, m);
    var w := e[nx];
    if n == 0 || w < 2 * K then Shift(e[ix := 0], slots)
    else
      ShiftWordIdx(w, nx, hl, m);
      ShiftFrom(e[ix := ShiftWord(w, nx, hl, m)], SetSlot(slots, Idx(w, m), ix), hl, m, nx, n - 1)
  }

  /** One step of the backward shift, as the loop of `rhmap_remove` takes it, short of the free slot z. */
  lemma ShiftStep(e: seq<int>, slots: seq<int>, hl: seq<int>, m: int, ix: int, n: nat, z: int)
    requires SlotCount(m) && |e| == m && IdxBelow(e, m, |hl|) && 0 <= ix < m
    requires 0 <= z < m && e[z] == 0 && ix != z && (z - ix) % m <= n
    requires e[Next(ix, m)] >= 2 * K
    ensures var nx := Next(ix, m); var w := e[nx];
      n > 0 && nx != z && (z - nx) % m == (z - ix) % m - 1 && Idx(w, m) < |hl| &&
      var e2 := e[ix := ShiftWord(w, nx, hl, m)];
      IdxBelow(e2, m, |hl|) && e2[z] == 0 &&
      ShiftFrom(e, slots, hl, m, ix, n) == ShiftFrom(e2, SetSlot(slots, Idx(w, m), ix), hl, m, nx, n - 1)
  {
    var nx := Next(ix, m);
    Toward(m, z, ix);
    StepToward(m, z, ix, nx);
    ShiftWordIdx(e[nx], nx, hl, m);
  }

  /** The backward shift stops before an entry at its home (or a free slot), clearing the hole. */
  lemma ShiftStop(e: seq<int>, slots: seq<int>, hl: seq<int>, m: int, ix: int, n: nat)
    requires SlotCount(m) && |e| == m && IdxBelow(e, m, |hl|) && 0 <= ix < m
    requires e[Next(ix, m)] < 2 * K
    ensures ShiftFrom(e, slots, hl, m, ix, n) == Shift(e[ix := 0], slots)
  {
  }

  /** The search for the slot of dense index j, from slot ix, looking at no more than n further slots. */
  ghost function Seek(e: seq<int>, m: int, ix: int, j: int, n: nat): (u: int)
    requires |e| == m && m > 0 && 0 <= ix < m
    ensures 0 <= u < m
    decreases n
  {
    if n == 0 || Idx(e[ix], m) == j then ix else Seek(e, m, Next(ix, m), j, n - 1)
  }

  /** An entry renumbered to dense index r: `(entry & ~mask) | r`. */
  function Renumbered(w: int, r: int, m: int): int
    requires m > 0
  {
    (w / m) * m + r
  }

  /** The table, hash array and slots after a remove; whether the last element moved, and the freed dense index. */
  datatype Removal = Removal(e: seq<int>, hl: seq<int>, slots: seq<int>, moved: bool, dst: int)

  /**
   * The remove of the element in slot t from a map of `size` elements, the
   * hash of dense index q being copied into the freed dense index.  The
   * correct choice is q == size - 1 (the element that moves); the source
   * reads q == size - 2.
   */
  ghost function RemoveThrough(e: seq<int>, slots: seq<int>, hl: seq<int>, m: int, t: int, size: int, q: int): Removal
    requires SlotCount(m) && |e| == m && IdxBelow(e, m, |hl|) && 0 <= t < m
    requires 1 <= size <= |hl| && |slots| == size && size - 2 <= q < size
  {
    var r := Idx(e[t], m);
    var last := size - 1;
    var sh := ShiftFrom(e, slots, hl, m, t, m);
    if r < last then
      var hash := hl[q];
      var u := Seek(sh.e, m, hash % m, last, m);
      Removal(sh.e[u := Renumbered(sh.e[u], r, m)], hl[r := hash], sh.slots[r := u][..last], true, r)
    else
      Removal(sh.e, hl, sh.slots[..last], false, r)
  }

  /** The remove as intended: the last element's hash follows it into the freed dense index. */
  ghost function RemoveFrom(e: seq<int>, slots: seq<int>, hl: seq<int>, m: int, t: int, size: int): Removal
    requires SlotCount(m) && |e| == m && IdxBelow(e, m, |hl|) && 0 <= t < m
    requires 1 <= size <= |hl| && |slots| == size
  {
    RemoveThrough(e, slots, hl, m, t, size, size - 1)
  }

  /** The intended remove frees the dense index of the removed slot's entry, and moves the last element unless that was it. */
  lemma RemoveFromDst(e: seq<int>, slots: seq<int>, hl: seq<int>, m: int, t: int, size: int)
    requires SlotCount(m) && |e| == m && IdxBelow(e, m, |hl|) && 0 <= t < m
    requires 1 <= size <= |hl| && |slots| == size
    ensures RemoveFrom(e, slots, hl, m, t, size).dst == Idx(e[t], m)
    ensures RemoveFrom(e, slots, hl, m, t, size).moved <==> Idx(e[t], m) < size - 1
  {
  }

  /** The two shapes of the intended remove. */
  lemma RemoveFromCases(e: seq<int>, slots: seq<int>, hl: seq<int>, m: int, t: int, size: int)
    requires SlotCount(m) && |e| == m && IdxBelow(e, m, |hl|) && 0 <= t < m
    requires 1 <= size <= |hl| && |slots| == size
    ensures var r := Idx(e[t], m);
      var last := size - 1;
      var sh := ShiftFrom(e, slots, hl, m, t, m);
      var u := Seek(sh.e, m, hl[last] % m, last, m);
      RemoveFrom(e, slots, hl, m, t, size) ==
        if r < last then Removal(sh.e[u := Renumbered(sh.e[u], r, m)], hl[r := hl[last]], sh.slots[r := u][..last], true, r)
        else Removal(sh.e, hl, sh.slots[..last], false, r)
  {
  }

  /** The remove as `rhmap_remove` is written: it copies `hashes[size - 1]` after decrementing size. */
  ghost function RemoveAsWritten(e: seq<int>, slots: seq<int>, hl: seq<int>, m: int, t: int, size: int): Removal
    requires SlotCount(m) && |e| == m && IdxBelow(e, m, |hl|) && 0 <= t < m
    requires 1 <= size <= |hl| && |slots| == size
  {
    RemoveThrough(e, slots, hl, m, t, size, size - 2)
  }

  /** Swap-remove on the dense array: the last element takes the place of element r. */
  function SwapRemove(hs: seq<int>, r: int): (out: seq<int>)
    requires 0 <= r < |hs|
    ensures |out| == |hs| - 1
  {
    if r < |hs| - 1 then hs[r := hs[|hs| - 1]][..|hs| - 1] else hs[..|hs| - 1]
  }

  /** Swap-remove drops exactly one occurrence of the removed hash. */
  lemma SwapRemoveMultiset(hs: seq<int>, r: int)
    requires 0 <= r < |hs|
    ensures multiset(SwapRemove(hs, r)) == multiset(hs) - multiset{hs[r]}
  {
    assert multiset(hs) == multiset(SwapRemove(hs, r)) + multiset{hs[r]} by {
      SwapRemoveSplit(hs, r);
    }
  }

  lemma SwapRemoveSplit(hs: seq<int>, r: int)
    requires 0 <= r < |hs|
    ensures multiset(hs) == multiset(SwapRemove(hs, r)) + multiset{hs[r]}
  {
    var last := |hs| - 1;
    var a := hs[..r];
    if r < last {
      var c := hs[r + 1..last];
      assert hs == a + [hs[r]] + c + [hs[last]] by {
        assert hs[r + 1..] == c + [hs[last]];
        assert hs == a + [hs[r]] + hs[r + 1..];
      }
      assert SwapRemove(hs, r) == a + [hs[last]] + c;
      MultisetSplice(a, hs[r], c, hs[last]);
    } else {
      assert hs == a + [hs[r]];
      assert SwapRemove(hs, r) == a;
    }
  }

  lemma MultisetSplice(a: seq<int>, x: int, c: seq<int>, y: int)
    ensures multiset(a + [x] + c + [y]) == multiset(a + [y] + c) + multiset{x}
  {
    assert multiset(a + [x] + c + [y]) == multiset(a) + multiset{x} + multiset(c) + multiset{y};
    assert multiset(a + [y] + c) == multiset(a) + multiset{y} + multiset(c);
  }

  /** The other elements keep their dense index. */
  lemma SwapRemoveKeeps(hs: seq<int>, r: int, i: int)
    requires 0 <= r < |hs| && 0 <= i < |hs| - 1
    ensures SwapRemove(hs, r)[i] == if i == r then hs[|hs| - 1] else hs[i]
  {
  }

  // ---------------------------------------------------------------------
  // The backward shift on the table invariants

  /**
   * The shift in progress: slot ix is the hole (its stale word is about to be
   * overwritten or cleared), element r is gone, every other element is indexed.
   */
  ghost predicate Holed(e: seq<int>, hs: seq<int>, slots: seq<int>, m: int, r: int, ix: int)
  {
    Encoded(e, hs, m) && Exact(e, hs, m) && |slots| == |hs| && 0 <= r < |hs| && 0 <= ix < m && e[ix] != 0 &&
    (forall i :: 0 <= i < |slots| && i != r ==>
       0 <= slots[i] < m && slots[i] != ix && e[slots[i]] != 0 && Idx(e[slots[i]], m) == i) &&
    (forall s :: 0 <= s < m && s != ix && e[s] != 0 ==>
       Idx(e[s], m) != r && slots[Idx(e[s], m)] == s)
  }

  /**
   * The ordering around the hole: it holds everywhere except at the hole and
   * the slot after it, and the slot after the hole may move back into it.
   */
  ghost predicate HoleOrdered(e: seq<int>, hs: seq<int>, m: int, ix: int)
    requires Encoded(e, hs, m) && 0 <= ix < m
  {
    (forall s {:trigger Prev(s, m)} :: 0 <= s < m && s != ix && s != Next(ix, m) && e[s] != 0 && TD(e, hs, m, s) > 1 ==>
       e[Prev(s, m)] != 0 && TD(e, hs, m, Prev(s, m)) >= TD(e, hs, m, s) - 1) &&
    (e[Next(ix, m)] != 0 && TD(e, hs, m, Next(ix, m)) > 2 ==>
       e[Prev(ix, m)] != 0 && TD(e, hs, m, Prev(ix, m)) >= TD(e, hs, m, Next(ix, m)) - 2)
  }

  /** One slot back from nx, the distance to b drops by one. */
  lemma BackOne(nx: int, b: int, m: int)
    requires m > 0 && (nx - b) % m >= 1
    ensures (Prev(nx, m) - b) % m == (nx - b) % m - 1
  {
    ModAdd(nx - 1, -b, m);
    var q, d := (nx - b) / m, (nx - b) % m;
    DivUnique(nx - 1 - b, m, q, d - 1);
  }

  /** A word with a new scan field 1..15 and the same body keeps its index and hash bits. */
  lemma ReDist(w: int, d: int, m: int)
    requires SlotCount(m) && 0 <= w && 1 <= d <= CLAMP
    ensures var w2 := Word(d, Body(w));
      Dist(w2) == d && Idx(w2, m) == Idx(w, m) && Hi(w2, m) == Hi(w, m) && K <= w2 < 16 * K
  {
    BodyIdx(w, m);
    WordIdx(d, Body(w), m);
    DivUnique(Word(d, Body(w)), K, d, Body(w));
  }

  /** The shifted word is the element's word with its distance lowered by one. */
  lemma ShiftValue(e: seq<int>, hs: seq<int>, hl: seq<int>, m: int, nx: int)
    requires Encoded(e, hs, m) && Exact(e, hs, m) && 0 <= nx < m && e[nx] >= 2 * K
    requires |hs| <= |hl| && forall i :: 0 <= i < |hs| ==> hl[i] == hs[i]
    ensures WordOk(e[nx], hs, m) && Idx(e[nx], m) < |hl|
    ensures TD(e, hs, m, nx) >= 2
    ensures ShiftWord(e[nx], nx, hl, m) == Word(Clamp(TD(e, hs, m, nx) - 1), Body(e[nx]))
  {
    var w := e[nx];
    assert WordOk(w, hs, m);
    assert Dist(w) == Clamp(TD(e, hs, m, nx));
    assert w == Dist(w) * K + Body(w);
  }

  /** The element moved back into hole ix is one step nearer home and still a valid entry. */
  lemma StepWord(e: seq<int>, hs: seq<int>, hl: seq<int>, m: int, ix: int)
    requires Encoded(e, hs, m) && Exact(e, hs, m) && 0 <= ix < m
    requires e[Next(ix, m)] >= 2 * K
    requires |hs| <= |hl| && forall i :: 0 <= i < |hs| ==> hl[i] == hs[i]
    ensures var nx := Next(ix, m); var w := e[nx];
      Idx(w, m) < |hl| &&
      var e2 := e[ix := ShiftWord(w, nx, hl, m)];
      Encoded(e2, hs, m) && Exact(e2, hs, m) && e2[ix] != 0 && Idx(e2[ix], m) == Idx(w, m) &&
      TD(e2, hs, m, ix) == TD(e, hs, m, nx) - 1 &&
      forall s :: 0 <= s < m && s != ix && e2[s] != 0 ==> TD(e2, hs, m, s) == TD(e, hs, m, s)
  {
    var nx := Next(ix, m);
    var w := e[nx];
    ShiftValue(e, hs, hl, m, nx);
    var q := TD(e, hs, m, nx);
    ReDist(w, Clamp(q - 1), m);
    var w2 := ShiftWord(w, nx, hl, m);
    var e2 := e[ix := w2];
    var j := Idx(w, m);
    PrevNext(ix, nx, m);
    BackOne(nx, hs[j], m);
    forall s | 0 <= s < m
      ensures WordOk(e2[s], hs, m)
    {
      if s != ix {
        assert WordOk(e[s], hs, m);
      }
    }
    assert Encoded(e2, hs, m);
    assert TD(e2, hs, m, ix) == q - 1;
  }

  /** In a table of at least four slots, a slot, its neighbours and the slot two ahead are distinct. */
  lemma Around(ix: int, m: int)
    requires m >= 4 && 0 <= ix < m
    ensures var nx := Next(ix, m);
      0 <= nx < m && nx != ix && Next(nx, m) != ix && Prev(ix, m) != ix && Prev(ix, m) != nx &&
      0 <= Prev(ix, m) < m && Prev(nx, m) == ix && Next(nx, m) != nx
  {
    var nx := Next(ix, m);
    PrevNext(ix, nx, m);
    if ix + 1 < m { ModOfSmall(ix + 1, m); } else { DivUnique(ix + 1, m, 1, 0); }
    PrevNext(nx, nx, m);
    if nx + 1 < m { ModOfSmall(nx + 1, m); } else { DivUnique(nx + 1, m, 1, 0); }
    if ix >= 1 { ModOfSmall(ix - 1, m); } else { DivUnique(-1, m, -1, m - 1); }
  }

  /** Moving the next element back into the hole moves the hole one slot on. */
  lemma StepHoled(e: seq<int>, hs: seq<int>, slots: seq<int>, hl: seq<int>, m: int, r: int, ix: int)
    requires Holed(e, hs, slots, m, r, ix) && e[Next(ix, m)] >= 2 * K
    requires |hs| <= |hl| && forall i :: 0 <= i < |hs| ==> hl[i] == hs[i]
    ensures var nx := Next(ix, m); var w := e[nx];
      Idx(w, m) < |hl| &&
      Holed(e[ix := ShiftWord(w, nx, hl, m)], hs, SetSlot(slots, Idx(w, m), ix), m, r, nx)
  {
    var nx := Next(ix, m);
    var w := e[nx];
    Around(ix, m);
    StepWord(e, hs, hl, m, ix);
    var e2 := e[ix := ShiftWord(w, nx, hl, m)];
    var j := Idx(w, m);
    assert j != r && slots[j] == nx;
    var sl2 := SetSlot(slots, j, ix);
    assert WordOk(w, hs, m);
    assert sl2 == slots[j := ix];
    forall i | 0 <= i < |sl2| && i != r
      ensures 0 <= sl2[i] < m && sl2[i] != nx && e2[sl2[i]] != 0 && Idx(e2[sl2[i]], m) == i
    {
      if i != j {
        assert slots[i] != nx;
      }
    }
    forall s | 0 <= s < m && s != nx && e2[s] != 0
      ensures Idx(e2[s], m) != r && sl2[Idx(e2[s], m)] == s
    {
      if s != ix {
        assert Idx(e[s], m) != j;
      }
    }
  }

  /** Moving the next element back into the hole keeps the ordering around the new hole. */
  lemma StepOrdered(e: seq<int>, hs: seq<int>, hl: seq<int>, m: int, ix: int)
    requires Encoded(e, hs, m) && Exact(e, hs, m) && 0 <= ix < m && e[ix] != 0
    requires HoleOrdered(e, hs, m, ix) && e[Next(ix, m)] >= 2 * K
    requires |hs| <= |hl| && forall i :: 0 <= i < |hs| ==> hl[i] == hs[i]
    ensures var nx := Next(ix, m); var w := e[nx];
      Idx(w, m) < |hl| &&
      var e2 := e[ix := ShiftWord(w, nx, hl, m)];
      Encoded(e2, hs, m) && HoleOrdered(e2, hs, m, nx)
  {
    var nx := Next(ix, m);
    var w := e[nx];
    var nn := Next(nx, m);
    Around(ix, m);
    StepWord(e, hs, hl, m, ix);
    var e2 := e[ix := ShiftWord(w, nx, hl, m)];
    forall s {:trigger Prev(s, m)} | 0 <= s < m && s != nx && s != nn && e2[s] != 0 && TD(e2, hs, m, s) > 1
      ensures e2[Prev(s, m)] != 0 && TD(e2, hs, m, Prev(s, m)) >= TD(e2, hs, m, s) - 1
    {
      if s != ix {
        PrevNext(ix, s, m);
        assert Prev(s, m) != ix;
        assert TD(e2, hs, m, s) == TD(e, hs, m, s);
      }
    }
    if e2[nn] != 0 && TD(e2, hs, m, nn) > 2 {
      assert TD(e2, hs, m, nn) == TD(e, hs, m, nn);
      assert Prev(nn, m) == nx by { PrevNext(nx, nn, m); }
    }
  }

  /** The shift stops before an element at home or an empty slot: clearing the hole restores the invariant. */
  lemma ShiftEnd(e: seq<int>, hs: seq<int>, slots: seq<int>, m: int, r: int, ix: int)
    requires Holed(e, hs, slots, m, r, ix) && HoleOrdered(e, hs, m, ix) && e[Next(ix, m)] < 2 * K
    ensures RobinHood(e[ix := 0], hs, m) && IndexedBut(e[ix := 0], slots, m, r)
  {
    var e2 := e[ix := 0];
    var nx := Next(ix, m);
    Around(ix, m);
    forall s | 0 <= s < m
      ensures WordOk(e2[s], hs, m)
    {
      assert WordOk(e[s], hs, m);
    }
    assert Encoded(e2, hs, m);
    forall s | 0 <= s < m && e2[s] != 0
      ensures TD(e2, hs, m, s) == TD(e, hs, m, s) && Dist(e2[s]) == Clamp(TD(e2, hs, m, s))
    {
    }
    if e[nx] != 0 {
      assert Dist(e[nx]) <= 1;
      assert TD(e, hs, m, nx) == 1;
    }
    forall s {:trigger Prev(s, m)} | 0 <= s < m && e2[s] != 0 && TD(e2, hs, m, s) > 1
      ensures e2[Prev(s, m)] != 0 && TD(e2, hs, m, Prev(s, m)) >= TD(e2, hs, m, s) - 1
    {
      PrevNext(ix, s, m);
    }
  }

  /** Clearing the removed element's slot starts the shift with the hole there. */
  lemma ShiftStart(e: seq<int>, hs: seq<int>, slots: seq<int>, m: int, t: int)
    requires RobinHood(e, hs, m) && Indexed(e, slots, m) && |slots| == |hs| && 0 <= t < m && e[t] != 0
    ensures Holed(e, hs, slots, m, Idx(e[t], m), t) && HoleOrdered(e, hs, m, t)
  {
    var nx := Next(t, m);
    Around(t, m);
    assert slots[Idx(e[t], m)] == t;
    if e[nx] != 0 && TD(e, hs, m, nx) > 2 {
      assert Prev(nx, m) == t;
    }
  }

  /**
   * The backward shift, given fuel enough to reach the free slot z, ends in an
   * ordered table in which every element but the removed one r is indexed.
   */
  lemma {:induction false} ShiftOk(e: seq<int>, hs: seq<int>, slots: seq<int>, hl: seq<int>, m: int,
                                   r: int, ix: int, n: nat, z: int)
    requires Holed(e, hs, slots, m, r, ix) && HoleOrdered(e, hs, m, ix)
    requires |hs| <= |hl| && forall i :: 0 <= i < |hs| ==> hl[i] == hs[i]
    requires 0 <= z < m && e[z] == 0 && (z - ix) % m <= n
    ensures IdxBelow(e, m, |hl|)
    ensures var sh := ShiftFrom(e, slots, hl, m, ix, n);
      RobinHood(sh.e, hs, m) && IndexedBut(sh.e, sh.slots, m, r) && |sh.slots| == |hs|
    decreases n
  {
    var nx := Next(ix, m);
    EncodedBelow(e, hs, m, |hl|);
    assert n > 0 by {
      CyclicZero(z, ix, m);
      ModOfSmall(ix, m);
    }
    if e[nx] < 2 * K {
      ShiftEnd(e, hs, slots, m, r, ix);
    } else {
      var w := e[nx];
      var e2 := e[ix := ShiftWord(w, nx, hl, m)];
      var s2 := SetSlot(slots, Idx(w, m), ix);
      assert Holed(e2, hs, s2, m, r, nx) && HoleOrdered(e2, hs, m, nx) && (z - nx) % m <= n - 1 by {
        StepHoled(e, hs, slots, hl, m, r, ix);
        StepOrdered(e, hs, hl, m, ix);
        CyclicZero(z, ix, m);
        ModOfSmall(ix, m);
        StepToward(m, z, ix, nx);
      }
      ShiftOk(e2, hs, s2, hl, m, r, nx, n - 1, z);
    }
  }

  // ---------------------------------------------------------------------
  // Renumbering the last element

  /** The search meets the one slot whose entry names dense index j. */
  lemma {:induction false} SeekFinds(e: seq<int>, m: int, ix: int, j: int, n: nat, u: int)
    requires |e| == m && m > 0 && 0 <= ix < m && 0 <= u < m && Idx(e[u], m) == j
    requires forall s :: 0 <= s < m && s != u ==> Idx(e[s], m) != j
    requires (u - ix) % m <= n
    ensures Seek(e, m, ix, j, n) == u
    decreases n
  {
    if Idx(e[ix], m) != j {
      CyclicZero(u, ix, m);
      ModOfSmall(ix, m);
      StepCloser(u, ix, m);
      ModSub(u, ix + 1, m);
      SeekFinds(e, m, Next(ix, m), j, n - 1, u);
    }
  }

  /** Renumbering an entry keeps its scan field and hash bits. */
  lemma RenumberWord(w: int, r: int, m: int)
    requires SlotCount(m) && K <= w < 16 * K && 0 <= r < m
    ensures var w2 := Renumbered(w, r, m);
      Dist(w2) == Dist(w) && Hi(w2, m) == Hi(w, m) && Idx(w2, m) == r && K <= w2 < 16 * K
  {
    SlotCountDividesK(m);
    AboveMask(w, m);
    var d, hi := Dist(w), Hi(w, m);
    assert (d * (K / m) + hi) * m == d * K + hi * m by {
      assert (d * (K / m)) * m == d * ((K / m) * m);
    }
    Decode(d, hi, r, m);
    assert Renumbered(w, r, m) == Word(d, hi * m + r);
  }

  /**
   * With element r gone and the last element not yet moved, renumbering the
   * last element to r gives the swap-removed dense array an ordered, indexed table.
   */
  lemma RenumberOk(e: seq<int>, hs: seq<int>, slots: seq<int>, m: int, r: int)
    requires RobinHood(e, hs, m) && IndexedBut(e, slots, m, r) && |slots| == |hs| && 0 <= r < |hs| - 1
    ensures var last := |hs| - 1; var u := slots[last];
      0 <= u < m && e[u] != 0 && Idx(e[u], m) == last &&
      var e2 := e[u := Renumbered(e[u], r, m)];
      RobinHood(e2, SwapRemove(hs, r), m) && Indexed(e2, slots[r := u][..last], m)
  {
    var last := |hs| - 1;
    var u := slots[last];
    var hs2 := SwapRemove(hs, r);
    var e2 := e[u := Renumbered(e[u], r, m)];
    RenumberEncoded(e, hs, slots, m, r);
    RenumberIndexed(e, hs, slots, m, r);
    forall s | 0 <= s < m && e2[s] != 0
      ensures e[s] != 0 && TD(e2, hs2, m, s) == TD(e, hs, m, s) && Dist(e2[s]) == Dist(e[s])
    {
      RenumberSlot(e, hs, slots, m, r, s);
    }
    forall s {:trigger Prev(s, m)} | 0 <= s < m && e2[s] != 0 && TD(e2, hs2, m, s) > 1
      ensures e2[Prev(s, m)] != 0 && TD(e2, hs2, m, Prev(s, m)) >= TD(e2, hs2, m, s) - 1
    {
      RenumberSlot(e, hs, slots, m, r, Prev(s, m));
    }
  }

  /** Renumbering keeps every slot's occupancy, scan field and true distance. */
  lemma RenumberSlot(e: seq<int>, hs: seq<int>, slots: seq<int>, m: int, r: int, s: int)
    requires RobinHood(e, hs, m) && IndexedBut(e, slots, m, r) && |slots| == |hs| && 0 <= r < |hs| - 1
    requires 0 <= s < m
    requires var u := slots[|hs| - 1]; 0 <= u < m && Encoded(e[u := Renumbered(e[u], r, m)], SwapRemove(hs, r), m)
    ensures var u := slots[|hs| - 1]; var e2 := e[u := Renumbered(e[u], r, m)];
      (e2[s] != 0 <==> e[s] != 0) &&
      (e[s] != 0 ==> TD(e2, SwapRemove(hs, r), m, s) == TD(e, hs, m, s) && Dist(e2[s]) == Dist(e[s]))
  {
    var u := slots[|hs| - 1];
    assert WordOk(e[u], hs, m);
    RenumberWord(e[u], r, m);
    assert WordOk(e[s], hs, m);
  }

  /** The renumbered table is encoded for the swap-removed hashes, with the same hashes in every slot. */
  lemma RenumberEncoded(e: seq<int>, hs: seq<int>, slots: seq<int>, m: int, r: int)
    requires RobinHood(e, hs, m) && IndexedBut(e, slots, m, r) && |slots| == |hs| && 0 <= r < |hs| - 1
    ensures var last := |hs| - 1; var u := slots[last];
      0 <= u < m && e[u] != 0 && Idx(e[u], m) == last &&
      var e2 := e[u := Renumbered(e[u], r, m)];
      var hs2 := SwapRemove(hs, r);
      Encoded(e2, hs2, m)
  {
    var last := |hs| - 1;
    var u := slots[last];
    var hs2 := SwapRemove(hs, r);
    assert WordOk(e[u], hs, m);
    RenumberWord(e[u], r, m);
    var e2 := e[u := Renumbered(e[u], r, m)];
    forall s | 0 <= s < m
      ensures WordOk(e2[s], hs2, m)
    {
      assert WordOk(e[s], hs, m);
    }
  }

  /** The renumbered table is indexed by the slots with the moved element's slot at r. */
  lemma RenumberIndexed(e: seq<int>, hs: seq<int>, slots: seq<int>, m: int, r: int)
    requires RobinHood(e, hs, m) && IndexedBut(e, slots, m, r) && |slots| == |hs| && 0 <= r < |hs| - 1
    ensures var last := |hs| - 1; var u := slots[last];
      0 <= u < m && e[u] != 0 && Idx(e[u], m) == last &&
      Indexed(e[u := Renumbered(e[u], r, m)], slots[r := u][..last], m)
  {
    var last := |hs| - 1;
    var u := slots[last];
    assert WordOk(e[u], hs, m);
    RenumberWord(e[u], r, m);
    forall s | 0 <= s < m && e[s] != 0 && s != u
      ensures Idx(e[s], m) < last && Idx(e[s], m) != r
    {
      assert WordOk(e[s], hs, m);
    }
  }

  /** Removing the last dense index needs no renumbering: the shorter dense array is indexed. */
  lemma DropLast(e: seq<int>, hs: seq<int>, slots: seq<int>, m: int)
    requires RobinHood(e, hs, m) && IndexedBut(e, slots, m, |hs| - 1) && |slots| == |hs| && 1 <= |hs|
    ensures RobinHood(e, SwapRemove(hs, |hs| - 1), m) && Indexed(e, slots[..|hs| - 1], m)
  {
    var last := |hs| - 1;
    var hs2 := SwapRemove(hs, last);
    forall s | 0 <= s < m
      ensures WordOk(e[s], hs2, m)
    {
      assert WordOk(e[s], hs, m);
    }
    assert Encoded(e, hs2, m);
    forall s | 0 <= s < m && e[s] != 0
      ensures TD(e, hs2, m, s) == TD(e, hs, m, s)
    {
    }
    forall s {:trigger Prev(s, m)} | 0 <= s < m && e[s] != 0 && TD(e, hs2, m, s) > 1
      ensures e[Prev(s, m)] != 0 && TD(e, hs2, m, Prev(s, m)) >= TD(e, hs2, m, s) - 1
    {
      assert 0 <= Prev(s, m) < m;
    }
  }

  // ---------------------------------------------------------------------
  // The whole remove

  /** The backward shift from an occupied slot t leaves every element but the one in t indexed. */
  lemma ShiftedOk(e: seq<int>, hs: seq<int>, slots: seq<int>, hl: seq<int>, m: int, t: int)
    requires RobinHood(e, hs, m) && Indexed(e, slots, m) && |slots| == |hs| && |hs| <= |hl|
    requires forall i :: 0 <= i < |hs| ==> hl[i] == hs[i]
    requires 0 <= t < m && e[t] != 0
    ensures IdxBelow(e, m, |hl|) && 0 <= Idx(e[t], m) < |hs| && slots[Idx(e[t], m)] == t
    ensures var sh := ShiftFrom(e, slots, hl, m, t, m);
      RobinHood(sh.e, hs, m) && IndexedBut(sh.e, sh.slots, m, Idx(e[t], m)) && |sh.slots| == |hs|
  {
    var z := FreeSlot(e, slots, m, -1);
    ShiftStart(e, hs, slots, m, t);
    ShiftOk(e, hs, slots, hl, m, Idx(e[t], m), t, m, z);
  }

  /** The renumbering step of the remove, on the shifted table. */
  lemma MovedOk(e: seq<int>, hs: seq<int>, sh: Shift, hl: seq<int>, m: int, r: int)
    requires RobinHood(sh.e, hs, m) && IndexedBut(sh.e, sh.slots, m, r) && |sh.slots| == |hs|
    requires 0 <= r < |hs| - 1 && |hs| <= |hl| && forall i :: 0 <= i < |hs| ==> hl[i] == hs[i]
    ensures var last := |hs| - 1;
      var u := Seek(sh.e, m, hl[last] % m, last, m);
      var e2 := sh.e[u := Renumbered(sh.e[u], r, m)];
      u == sh.slots[last] && K <= sh.e[u] < 16 * K && K <= e2[u] < 16 * K &&
      hl[r := hl[last]][..last] == SwapRemove(hs, r) &&
      RobinHood(e2, hl[r := hl[last]][..last], m) && Indexed(e2, sh.slots[r := u][..last], m)
  {
    var last := |hs| - 1;
    var u := sh.slots[last];
    RenumberOk(sh.e, hs, sh.slots, m, r);
    assert WordOk(sh.e[u], hs, m);
    RenumberWord(sh.e[u], r, m);
    forall s | 0 <= s < m && s != u
      ensures Idx(sh.e[s], m) != last
    {
      if sh.e[s] == 0 {
        ModOfSmall(0, m);
      }
    }
    SeekFinds(sh.e, m, hl[last] % m, last, m, u);
    assert hl[r := hl[last]][..last] == SwapRemove(hs, r);
  }

  /**
   * What a remove of dense index r promises: the dense hashes are the
   * swap-remove of r (the slots past them untouched), and the table is ordered
   * and indexed for the remaining elements.
   */
  ghost predicate RemovalOk(hs: seq<int>, hl: seq<int>, m: int, r: int, R: Removal)
    requires m > 0 && 1 <= |hs| <= |hl| && 0 <= r < |hs|
  {
    R.dst == r && |R.hl| == |hl| && R.hl[..|hs| - 1] == SwapRemove(hs, r) &&
    (forall i :: |hs| - 1 <= i < |hl| ==> R.hl[i] == hl[i]) &&
    |R.e| == m && RobinHood(R.e, R.hl[..|hs| - 1], m) && Indexed(R.e, R.slots, m) && |R.slots| == |hs| - 1
  }

  /** The remove of an element that is not the last one. */
  lemma RemoveMovedOk(e: seq<int>, hs: seq<int>, slots: seq<int>, hl: seq<int>, m: int, t: int)
    requires RobinHood(e, hs, m) && Indexed(e, slots, m) && |slots| == |hs| && 1 <= |hs| <= |hl|
    requires forall i :: 0 <= i < |hs| ==> hl[i] == hs[i]
    requires 0 <= t < m && e[t] != 0 && IdxBelow(e, m, |hl|) && Idx(e[t], m) < |hs| - 1
    ensures RemoveFrom(e, slots, hl, m, t, |hs|).moved
    ensures RemovalOk(hs, hl, m, Idx(e[t], m), RemoveFrom(e, slots, hl, m, t, |hs|))
  {
    var r := Idx(e[t], m);
    var last := |hs| - 1;
    var sh := ShiftFrom(e, slots, hl, m, t, m);
    var u := Seek(sh.e, m, hl[last] % m, last, m);
    ShiftedOk(e, hs, slots, hl, m, t);
    MovedRemoval(hs, sh, hl, m, r);
    RemoveFromCases(e, slots, hl, m, t, |hs|);
  }

  /** The renumbering step, stated as the outcome of the remove. */
  lemma MovedRemoval(hs: seq<int>, sh: Shift, hl: seq<int>, m: int, r: int)
    requires RobinHood(sh.e, hs, m) && IndexedBut(sh.e, sh.slots, m, r) && |sh.slots| == |hs|
    requires 0 <= r < |hs| - 1 && |hs| <= |hl| && forall i :: 0 <= i < |hs| ==> hl[i] == hs[i]
    ensures var last := |hs| - 1;
      var u := Seek(sh.e, m, hl[last] % m, last, m);
      RemovalOk(hs, hl, m, r, Removal(sh.e[u := Renumbered(sh.e[u], r, m)], hl[r := hl[last]], sh.slots[r := u][..last], true, r))
  {
    var last := |hs| - 1;
    var u := Seek(sh.e, m, hl[last] % m, last, m);
    MovedOk(sh.e, hs, sh, hl, m, r);
    var R1 := Removal(sh.e[u := Renumbered(sh.e[u], r, m)], hl[r := hl[last]], sh.slots[r := u][..last], true, r);
    assert R1.hl[..|hs| - 1] == hl[r := hl[last]][..last];
  }

  /** The remove of the last element. */
  lemma RemoveLastOk(e: seq<int>, hs: seq<int>, slots: seq<int>, hl: seq<int>, m: int, t: int)
    requires RobinHood(e, hs, m) && Indexed(e, slots, m) && |slots| == |hs| && 1 <= |hs| <= |hl|
    requires forall i :: 0 <= i < |hs| ==> hl[i] == hs[i]
    requires 0 <= t < m && e[t] != 0 && IdxBelow(e, m, |hl|) && Idx(e[t], m) == |hs| - 1
    ensures !RemoveFrom(e, slots, hl, m, t, |hs|).moved
    ensures RemovalOk(hs, hl, m, Idx(e[t], m), RemoveFrom(e, slots, hl, m, t, |hs|))
  {
    var r := Idx(e[t], m);
    var last := |hs| - 1;
    var sh := ShiftFrom(e, slots, hl, m, t, m);
    RemoveFromCases(e, slots, hl, m, t, |hs|);
    ShiftedOk(e, hs, slots, hl, m, t);
    DropLast(sh.e, hs, sh.slots, m);
    assert hl[..last] == SwapRemove(hs, r);
  }

  /**
   * Removing the element in an occupied slot t of an ordered, indexed table:
   * its dense index r is freed, the dense hash array becomes the swap-remove
   * of r (the last element moves into r exactly when r is not last), and the
   * table is ordered and indexed again.
   */
  lemma RemoveOk(e: seq<int>, hs: seq<int>, slots: seq<int>, hl: seq<int>, m: int, t: int)
    requires RobinHood(e, hs, m) && Indexed(e, slots, m) && |slots| == |hs| && 1 <= |hs| <= |hl|
    requires forall i :: 0 <= i < |hs| ==> hl[i] == hs[i]
    requires 0 <= t < m && e[t] != 0
    ensures IdxBelow(e, m, |hl|) && 0 <= Idx(e[t], m) < |hs| && slots[Idx(e[t], m)] == t
    ensures RemoveFrom(e, slots, hl, m, t, |hs|).moved == (Idx(e[t], m) < |hs| - 1)
    ensures RemovalOk(hs, hl, m, Idx(e[t], m), RemoveFrom(e, slots, hl, m, t, |hs|))
  {
    EncodedBelow(e, hs, m, |hl|);
    assert WordOk(e[t], hs, m);
    if Idx(e[t], m) < |hs| - 1 {
      RemoveMovedOk(e, hs, slots, hl, m, t);
    } else {
      RemoveLastOk(e, hs, slots, hl, m, t);
    }
  }

  /**
   * As written, the remove copies the hash of dense index size - 2 rather than
   * of the element that moves: whenever those two hashes differ, the dense
   * hash array is not the swap-remove of the removed index.
   */
  lemma RemoveAsWrittenWrongHash(e: seq<int>, slots: seq<int>, hl: seq<int>, m: int, t: int, size: int)
    requires SlotCount(m) && |e| == m && IdxBelow(e, m, |hl|) && 0 <= t < m
    requires 2 <= size <= |hl| && |slots| == size
    requires Idx(e[t], m) < size - 1 && hl[size - 2] != hl[size - 1]
    ensures var R := RemoveAsWritten(e, slots, hl, m, t, size);
      R.moved && R.hl[..size - 1] != SwapRemove(hl[..size], Idx(e[t], m))
  {
    var r := Idx(e[t], m);
    var R := RemoveAsWritten(e, slots, hl, m, t, size);
    assert R.hl[r] == hl[size - 2];
    assert SwapRemove(hl[..size], r)[r] == hl[size - 1];
  }

  /**
   * The smallest case: hashes 1, 2, 3 in slots 1, 2, 3 of a four-slot table.
   * Removing the first element leaves the hashes 2, 2 where 3, 2 is meant.
   */
  lemma RemoveAsWrittenExample()
    ensures var e := [0, K, K + 1, K + 2];
      var R := RemoveAsWritten(e, [1, 2, 3], [1, 2, 3], 4, 1, 3);
      IdxBelow(e, 4, 3) && SlotCount(4) && R.hl[..2] == [2, 2] && SwapRemove([1, 2, 3], 0) == [3, 2]
  {
    var e := [0, K, K + 1, K + 2];
    assert IsPow2(4) by { assert IsPow2(2); }
    assert IdxBelow(e, 4, 3);
    var R := RemoveAsWritten(e, [1, 2, 3], [1, 2, 3], 4, 1, 3);
    assert Idx(e[1], 4) == 0;
    assert R.hl == [2, 2, 3];
  }
}
