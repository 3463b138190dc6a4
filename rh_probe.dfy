// The probe sequence of `rhmap_find` as a function on the slot table, and
// what it finds: soundness of a potential match, exactness below the clamp,
// and completeness under the Robin Hood invariant.
module RhProbe {
  import opened RhLayout
  import opened RhTable

  /** A potential match (its dense index and the resume offset), or the end of the probe. */
  datatype Probe = Hit(index: int, scan: int) | Miss

  /**
   * The probe for 28-bit hash h after s slots, looking at no more than n further
   * slots: stop at the first entry whose scan field and hash bits match the
   * probe, or at the first whose scan field is below the (clamped) probe.
   */
  ghost function FindFrom(e: seq<int>, m: int, h: int, s: int, n: nat): Probe
    requires SlotCount(m) && |e| == m && 0 <= s
    decreases n
  {
    if n == 0 then Miss
    else
      var w := e[(h + s) % m];
      var p := Clamp(s + 1);
      if w / m == Word(p, h) / m then Hit(w % m, s + 1)
      else if Dist(w) < p then Miss
      else FindFrom(e, m, h, s + 1, n - 1)
  }

  /** One step of the probe, as `rhmap_find`'s loop body takes it. */
  lemma FindUnfold(e: seq<int>, m: int, h: int, s: int, n: nat, entry: int, ref: int)
    requires SlotCount(m) && |e| == m && 0 <= s && n > 0
    requires entry == e[(h + s) % m] && ref == Word(Clamp(s + 1), h)
    ensures entry / m == ref / m ==> FindFrom(e, m, h, s, n) == Hit(entry % m, s + 1)
    ensures entry / m != ref / m && Dist(entry) < Clamp(s + 1) ==> FindFrom(e, m, h, s, n) == Miss
    ensures entry / m != ref / m && Dist(entry) >= Clamp(s + 1) ==>
      entry != 0 && FindFrom(e, m, h, s, n) == FindFrom(e, m, h, s + 1, n - 1)
  {
  }

  /**
   * A hit names a live dense index; the entry at the slot before the resume
   * offset carries the clamped probe distance and h's hash bits.
   */
  lemma {:induction false} HitFields(e: seq<int>, hs: seq<int>, m: int, h: int, s: int, n: nat)
    requires Encoded(e, hs, m) && 0 <= h < K && 0 <= s
    ensures var r := FindFrom(e, m, h, s, n);
      r.Hit? ==>
        s < r.scan <= s + n && 0 <= r.index < |hs| &&
        var w := e[(h + r.scan - 1) % m];
        Dist(w) == Clamp(r.scan) && Hi(w, m) == h / m && r.index == Idx(w, m)
    decreases n
  {
    if n > 0 {
      var w := e[(h + s) % m];
      var p := Clamp(s + 1);
      if w / m == Word(p, h) / m {
        MatchIff(w, h, p, m);
        assert WordOk(w, hs, m);
      } else if Dist(w) >= p {
        HitFields(e, hs, m, h, s + 1, n - 1);
      }
    }
  }

  /** Below the clamp a hit is exact: the element has hash h and sits scan - 1 slots past home. */
  lemma ExactHit(e: seq<int>, hs: seq<int>, slots: seq<int>, m: int, h: int, s: int, n: nat)
    requires RobinHood(e, hs, m) && Indexed(e, slots, m) && |slots| == |hs|
    requires 0 <= h < K && 0 <= s
    ensures var r := FindFrom(e, m, h, s, n);
      r.Hit? && r.scan < CLAMP ==>
        0 <= r.index < |hs| && hs[r.index] == h && slots[r.index] == (h + r.scan - 1) % m &&
        TD(e, hs, m, slots[r.index]) == r.scan
  {
    HitFields(e, hs, m, h, s, n);
    var r := FindFrom(e, m, h, s, n);
    if r.Hit? && r.scan < CLAMP {
      ExactMatch(e, hs, slots, m, h, r.scan);
    }
  }

  /**
   * Robin Hood completeness: an element with hash h that lies beyond offset s
   * (and within the n slots looked at) is not skipped; the probe reports a
   * potential match no later than that element.
   */
  lemma {:induction false} Complete(e: seq<int>, hs: seq<int>, slots: seq<int>, m: int, h: int, s: int, n: nat, i: int)
    requires RobinHood(e, hs, m) && Indexed(e, slots, m) && |slots| == |hs|
    requires 0 <= h < K && 0 <= s && 0 <= i < |hs| && hs[i] == h
    requires s < TD(e, hs, m, slots[i]) <= s + n
    ensures var r := FindFrom(e, m, h, s, n);
      r.Hit? && r.scan <= TD(e, hs, m, slots[i])
    decreases n
  {
    FindStep(e, hs, slots, m, h, s, i);
    var w := e[(h + s) % m];
    if w / m != Word(Clamp(s + 1), h) / m {
      Complete(e, hs, slots, m, h, s + 1, n - 1, i);
    }
  }

  /** A full probe (m slots) reaches every element lying beyond its start. */
  lemma CompleteFull(e: seq<int>, hs: seq<int>, slots: seq<int>, m: int, h: int, scan: int, i: int)
    requires RobinHood(e, hs, m) && Indexed(e, slots, m) && |slots| == |hs|
    requires 0 <= h < K && 0 <= scan && 0 <= i < |hs| && hs[i] == h
    requires scan < TD(e, hs, m, slots[i])
    ensures var r := FindFrom(e, m, h, scan, m);
      r.Hit? && r.scan <= TD(e, hs, m, slots[i])
  {
    BelowTurn(e, hs, slots, m, -1, slots[i]);
    Complete(e, hs, slots, m, h, scan, m, i);
  }

  /**
   * A hit exactly at the distance of an element with hash h names that
   * element: the probe then stands on its slot.
   */
  lemma HitAt(e: seq<int>, hs: seq<int>, slots: seq<int>, m: int, h: int, s: int, n: nat, i: int)
    requires RobinHood(e, hs, m) && Indexed(e, slots, m) && |slots| == |hs|
    requires 0 <= h < K && 0 <= s && 0 <= i < |hs| && hs[i] == h
    ensures var r := FindFrom(e, m, h, s, n);
      r.Hit? && r.scan == TD(e, hs, m, slots[i]) ==> r.index == i
  {
    var r := FindFrom(e, m, h, s, n);
    HitFields(e, hs, m, h, s, n);
    if r.Hit? && r.scan == TD(e, hs, m, slots[i]) {
      var t := slots[i];
      BackHome(t, h, TD(e, hs, m, t), m);
    }
  }

  /** The probe passes only occupied slots before a hit. */
  lemma {:induction false} FindRun(e: seq<int>, hs: seq<int>, m: int, h: int, s: int, n: nat)
    requires Encoded(e, hs, m) && 0 <= h < K && 0 <= s
    ensures var r := FindFrom(e, m, h, s, n);
      r.Hit? ==> s < r.scan && FullRun(e, m, h, s, r.scan)
    decreases n
  {
    if n > 0 {
      var w := e[(h + s) % m];
      assert WordOk(w, hs, m);
      if w / m == Word(Clamp(s + 1), h) / m {
        MatchIff(w, h, Clamp(s + 1), m);
        assert Filled(e, m, h, s);
      } else if Dist(w) >= Clamp(s + 1) {
        FindRun(e, hs, m, h, s + 1, n - 1);
        assert Filled(e, m, h, s);
      }
    }
  }

  /** A probe from offset 0 that ends without a hit proves the hash absent. */
  lemma MissAbsent(e: seq<int>, hs: seq<int>, slots: seq<int>, m: int, h: int)
    requires RobinHood(e, hs, m) && Indexed(e, slots, m) && |slots| == |hs|
    requires 0 <= h < K && FindFrom(e, m, h, 0, m) == Miss
    ensures h !in hs
  {
    if h in hs {
      var i :| 0 <= i < |hs| && hs[i] == h;
      CompleteFull(e, hs, slots, m, h, 0, i);
    }
  }

  /**
   * A potential match reported by one call of a key-search loop over
   * `rhmap_find`: the resume point moves further along a run of occupied
   * slots (so the loop ends) and names a live occupied slot; under the Robin
   * Hood invariant a match with an element other than j, which has hash h and
   * lies beyond the old resume point, leaves j beyond the new one.
   */
  lemma FindHit(e: seq<int>, hs: seq<int>, slots: seq<int>, m: int, h: int, scan: int, j: int, index: int, next: int)
    requires Encoded(e, hs, m) && Indexed(e, slots, m) && |slots| == |hs|
    requires 0 <= h < K && 0 <= scan && FullRun(e, m, h, 0, scan)
    requires var r := FindFrom(e, m, h, scan, m); r.Hit? && r.index == index && r.scan == next
    requires j >= 0 ==> RobinHood(e, hs, m) && j < |hs| && hs[j] == h && scan < TD(e, hs, m, slots[j])
    ensures scan < next < m && FullRun(e, m, h, 0, next) && 0 <= index < |hs|
    ensures e[(h + next - 1) % m] != 0 && index == Idx(e[(h + next - 1) % m], m)
    ensures j >= 0 && index != j ==> next < TD(e, hs, m, slots[j])
  {
    FindRun(e, hs, m, h, scan, m);
    HitFields(e, hs, m, h, scan, m);
    assert FullRun(e, m, h, 0, next) by {
      forall k | 0 <= k < next
        ensures Filled(e, m, h, k)
      {
        if k >= scan {
          assert FullRun(e, m, h, scan, next);
        }
      }
    }
    var z := FreeSlot(e, slots, m, -1);
    RunBound(e, m, h, next, z);
    if j >= 0 {
      CompleteFull(e, hs, slots, m, h, scan, j);
      HitAt(e, hs, slots, m, h, scan, m, j);
    }
  }

  /** A probe that ends without a match rules out every element with hash h beyond its start. */
  lemma FindMiss(e: seq<int>, hs: seq<int>, slots: seq<int>, m: int, h: int, scan: int)
    requires RobinHood(e, hs, m) && Indexed(e, slots, m) && |slots| == |hs|
    requires 0 <= h < K && 0 <= scan && FindFrom(e, m, h, scan, m) == Miss
    ensures forall j :: 0 <= j < |hs| && hs[j] == h ==> TD(e, hs, m, slots[j]) <= scan
  {
    forall j | 0 <= j < |hs| && hs[j] == h
      ensures TD(e, hs, m, slots[j]) <= scan
    {
      if scan < TD(e, hs, m, slots[j]) {
        CompleteFull(e, hs, slots, m, h, scan, j);
      }
    }
  }
}
