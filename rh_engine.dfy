// The Robin Hood index engine of rhmap.h: a map from 28-bit hashes to dense
// indices 0 .. size-1, kept in two integer arrays.
module RhEngine {
  import opened RhLayout
  import opened RhTable
  import opened RhProbe
  import opened RhInsert
  import opened RhRemove
  import opened RhSizing
  import RhStretch

  /** The `rhmap` struct.  `entries` and `hashes` are null until the first rehash. */
  class RhMap {
    var entries: array?<u32>
    var hashes: array?<u32>
    var mask: u32
    var capacity: u32
    var size: u32
    /** The slot of each dense index. */
    ghost var slots: seq<int>

    /** The state `rhmap_init` and `rhmap_reset` leave: no arrays. */
    ghost predicate Unallocated()
      reads this
    {
      entries == null && hashes == null && mask == 0 && capacity == 0 && size == 0 && slots == []
    }

    /** The state a rehash to zero elements leaves: mask == ~0u and no slots. */
    ghost predicate Sentinel()
      reads this, entries, hashes
    {
      entries != null && hashes != null && entries != hashes &&
      mask == WORD - 1 && entries.Length == 0 && hashes.Length == 0 &&
      capacity == 0 && size == 0 && slots == []
    }

    /** An allocated table: the entry encoding and one entry per dense index. */
    ghost predicate Table()
      reads this, entries, hashes
    {
      entries != null && hashes != null && entries != hashes &&
      entries.Length == mask + 1 && hashes.Length == capacity &&
      size <= capacity < mask + 1 && |slots| == size &&
      Encoded(entries[..], hashes[..size], mask + 1) &&
      Indexed(entries[..], slots, mask + 1)
    }

    ghost predicate Valid()
      reads this, entries, hashes
    {
      Unallocated() || Sentinel() || Table()
    }

    /** The slot counts a map can have: none yet, the sentinel's, or a power of two from 4 to 2^28. */
    ghost predicate Shaped()
      reads this
    {
      mask == 0 || mask == WORD - 1 || SlotCount(mask + 1)
    }

    lemma ValidShaped()
      requires Valid()
      ensures Shaped()
    {
      if Table() {
        assert Encoded(entries[..], hashes[..size], mask + 1);
      }
    }

    /** The Robin Hood invariant: exact scan fields and the distance ordering. */
    ghost predicate RobinHood()
      reads this, entries, hashes
    {
      Table() && RhTable.RobinHood(entries[..], hashes[..size], mask + 1)
    }

    /**
     * Some element lies 15 or more slots from home, behind a run of occupied
     * slots, with a clamped scan field; every later insert keeps one such.
     */
    ghost predicate Stretched()
      reads this, entries, hashes
    {
      Table() && RhStretch.Stretched(entries[..], hashes[..size], slots, mask + 1)
    }

    /** Ordered, or stretched: the state every rehash leaves. */
    ghost predicate Settled()
      reads this, entries, hashes
    {
      RobinHood() || Stretched()
    }

    /** No entry's scan field is clamped. */
    ghost predicate Unclamped()
      reads this, entries, hashes
    {
      Table() && RhTable.Unclamped(entries[..], mask + 1)
    }

    /** The stored hashes in dense order. */
    ghost function Contents(): seq<int>
      reads this, hashes
      requires hashes != null && size <= hashes.Length
    {
      hashes[..size]
    }

    /** `rhmap_init`. */
    constructor ()
      ensures Unallocated()
    {
      entries, hashes := null, null;
      mask, capacity, size := 0, 0, 0;
      slots := [];
    }

    /** `rhmap_reset`: forget the arrays and hand back the old `entries` buffer. */
    method Reset() returns (data: array?<u32>)
      modifies this
      ensures Unallocated() && data == old(entries)
    {
      data := entries;
      entries, hashes := null, null;
      mask, capacity, size := 0, 0, 0;
      slots := [];
    }

    /** `rhmap_clear`: drop every element, keeping the arrays. */
    method Clear()
      requires Table() || Sentinel()
      modifies this, entries
      ensures entries == old(entries) && hashes == old(hashes) && hashes[..] == old(hashes[..])
      ensures mask == old(mask) && capacity == old(capacity) && size == 0 && slots == []
      ensures forall s :: 0 <= s < entries.Length ==> entries[s] == 0
      ensures RobinHood() || Sentinel()
    {
      size := 0;
      slots := [];
      var es := entries;
      var i := 0;
      while i < es.Length
        modifies es
        invariant 0 <= i <= es.Length
        invariant forall s :: 0 <= s < i ==> es[s] == 0
      {
        es[i] := 0;
        i := i + 1;
      }
      if Table() {
        assert forall s :: 0 <= s < mask + 1 ==> es[..][s] == 0;
      }
    }

    /**
     * `rhmap_grow`: the capacity and allocation size of the next table: for an
     * unallocated map `initial` slots (16 if 0), otherwise twice the slots,
     * at least 4, doubled further until the current elements fit.
     */
    method Grow(initial: u32) returns (count: u32, allocSize: u32)
      requires Shaped() && (initial == 0 || IsPow2(initial))
      requires GrowTarget(GrowStart(mask, initial), size) <= K
      ensures var n := GrowTarget(GrowStart(mask, initial), size);
        count == Capacity(n) && allocSize == AllocSize(count, n) && NumEntries(count) == n
      ensures size <= count && Rehashable(count) && count > 0
      ensures allocSize % 8 == 0 && 4 * (count + NumEntries(count)) <= allocSize
    {
      assert IsPow2(GrowStart(mask, initial)) && 4 <= GrowStart(mask, initial) by {
        GrowStartOk(mask, initial);
      }
      var n := (mask + 1) % WORD;
      if n == 1 {
        n := if initial != 0 then initial else DEFAULT_ENTRY_COUNT;
      } else {
        n := (n * 2) % WORD;
      }
      if n < 4 {
        n := 4;
      }
      assert n == GrowStart(mask, initial);
      var c := Capacity(n);
      while c < size
        invariant 4 <= n && IsPow2(n) && c == Capacity(n)
        invariant GrowTarget(n, size) == GrowTarget(GrowStart(mask, initial), size)
        decreases size - c
      {
        assert IsPow2(2 * n) && c < Capacity(2 * n) by {
          CapacityGrows(n);
          Pow2Double(n);
        }
        n := n * 2;
        c := Capacity(n);
      }
      Sized(n, c);
      count, allocSize := c, AllocSize(c, n);
    }

    /**
     * `rhmap_resize`: the capacity and allocation size of a table for `request`
     * elements: the slot count the request's capacity comes from, rounded up
     * to a power of two, at least 4, doubled until both the request and the
     * current elements fit.
     */
    method Resize(request: u32) returns (count: u32, allocSize: u32)
      requires EntriesFor(request) < WORD && ResizeTarget(request, size) <= K
      ensures var n := ResizeTarget(request, size);
        count == Capacity(n) && allocSize == AllocSize(count, n) && NumEntries(count) == n
      ensures request <= count && size <= count && Rehashable(count) && count > 0
      ensures allocSize % 8 == 0 && 4 * (count + NumEntries(count)) <= allocSize
    {
      var v := EntriesFor(request);
      var n := RoundUpPow2(v);
      if n < 4 {
        n := 4;
      }
      var want := if request < size then size as int else request as int;
      assert IsPow2(n) && 4 <= n by {
        ResizeStartOk(request);
      }
      var c := Capacity(n);
      while c < want
        invariant 4 <= n && IsPow2(n) && c == Capacity(n)
        invariant GrowTarget(n, want) == ResizeTarget(request, size)
        decreases want - c
      {
        assert IsPow2(2 * n) && c < Capacity(2 * n) by {
          CapacityGrows(n);
          Pow2Double(n);
        }
        n := n * 2;
        c := Capacity(n);
      }
      Sized(n, c);
      count, allocSize := c, AllocSize(c, n);
    }

    /**
     * `rhmap_rehash`: move to fresh arrays of NumEntries(count) slots and
     * capacity `count`, re-inserting the stored hashes in dense order, and
     * return the old `entries` array.  Every element keeps its dense index.
     */
    method Rehash(count: u32) returns (data: array?<u32>)
      requires Valid() && Rehashable(count) && size <= count
      modifies this
      ensures data == old(entries) && fresh(entries) && fresh(hashes)
      ensures capacity == count && size == old(size)
      ensures count == 0 ==> Sentinel()
      ensures count > 0 ==> Table() && mask + 1 == NumEntries(count)
      ensures hashes != null && Contents() == old(if hashes == null then [] else Contents())
      ensures count > 0 ==> RobinHood() || Stretched()
      ensures count > 0 && (Safe(Contents(), mask + 1) || Unclamped()) ==> RobinHood()
    {
      ghost var all: seq<int> := if hashes == null then [] else hashes[..size];
      assert forall j :: 0 <= j < |all| ==> 0 <= all[j] < K by {
        if !Unallocated() && !Sentinel() {
          assert Encoded(entries[..], all, mask + 1);
        }
      }
      var n := NumEntries(count);
      var oldHashes, oldSize := hashes, size;
      data := entries;
      Install(n, count);
      if count > 0 {
        ReinsertAll(oldHashes, oldSize, all, Safe(all, n));
      }
    }

    /** The new, empty state `rhmap_rehash` sets up: n zeroed slots and room for `count` hashes. */
    method Install(n: nat, count: u32)
      requires if count == 0 then n == 0 else SlotCount(n) && count < n
      modifies this
      ensures fresh(entries) && fresh(hashes) && capacity == count && size == 0
      ensures count == 0 ==> Sentinel()
      ensures count > 0 ==> RobinHood() && mask + 1 == n && Contents() == []
    {
      var es := new u32[n](_ => 0);
      var hs := new u32[count](_ => 0);
      entries, hashes := es, hs;
      mask := if n == 0 then WORD - 1 else n - 1;
      size, capacity := 0, count;
      slots := [];
      if count > 0 {
        EmptyTable(es[..], n);
      }
    }

    /**
     * The outer loop of `rhmap_rehash`: insert the first `oldSize` hashes of
     * the old hash array, in order, into the empty table.
     */
    method ReinsertAll(oldHashes: array?<u32>, oldSize: u32, ghost all: seq<int>, ghost sep: bool)
      requires RobinHood() && size == 0 && |all| == oldSize <= capacity
      requires oldSize > 0 ==> oldHashes != null && oldHashes.Length >= oldSize && oldHashes[..oldSize] == all
      requires oldHashes != entries && oldHashes != hashes
      requires forall j :: 0 <= j < |all| ==> 0 <= all[j] < K
      requires sep ==> Safe(all, mask + 1)
      modifies this, entries, hashes
      ensures entries == old(entries) && hashes == old(hashes) && mask == old(mask) && capacity == old(capacity)
      ensures Table() && Contents() == all
      ensures Settled()
      ensures sep ==> RobinHood()
    {
      var i := 0;
      while i < oldSize
        invariant 0 <= i <= oldSize
        invariant entries == old(entries) && hashes == old(hashes) && mask == old(mask) && capacity == old(capacity)
        invariant Table() && size == i && Contents() == all[..i]
        invariant Settled()
        invariant sep ==> RobinHood()
        invariant oldSize > 0 ==> oldHashes[..oldSize] == all
      {
        var hash := oldHashes[i];
        ReinsertNext(hash, all, i, sep);
        i := i + 1;
      }
      assert all[..oldSize] == all;
    }

    /** One pass of the outer loop of `rhmap_rehash`: insert `all[i]` after `all[..i]`. */
    method ReinsertNext(hash: u32, ghost all: seq<int>, ghost i: nat, ghost sep: bool)
      requires Table() && size == i < capacity && i < |all| && Contents() == all[..i] && hash == all[i] && hash < K
      requires Settled() && (sep ==> RobinHood() && Safe(all, mask + 1))
      modifies this, entries, hashes
      ensures entries == old(entries) && hashes == old(hashes) && mask == old(mask) && capacity == old(capacity)
      ensures Table() && size == i + 1 && Contents() == all[..i + 1]
      ensures Settled() && (sep ==> RobinHood())
    {
      ghost var before := Contents();
      assert all[..i + 1] == before + [hash];
      assert sep ==> Safe(before + [hash], mask + 1) by {
        if sep {
          SafePrefix(all, mask + 1, i + 1);
        }
      }
      Reinsert(hash);
      assert Contents() == before + [hash];
    }

    /**
     * The inner loop of `rhmap_rehash`: insert `hash` again, resuming after
     * every potential match.  The Robin Hood invariant survives with
     * separated hashes or no clamped field; an ordered table that does hold a
     * clamped field, and a stretched one, end stretched.
     */
    method Reinsert(hash: u32)
      requires Table() && size < capacity && hash < K
      modifies this, entries, hashes
      ensures entries == old(entries) && hashes == old(hashes)
      ensures mask == old(mask) && capacity == old(capacity) && Table()
      ensures Contents() == old(Contents()) + [hash]
      ensures old(RobinHood()) && (Safe(old(Contents()) + [hash], mask + 1) || old(Unclamped())) ==> RobinHood()
      ensures old(RobinHood()) ==> RobinHood() || Stretched()
      ensures old(Stretched()) ==> Stretched()
      ensures old(Settled()) ==> Settled()
    {
      ghost var m := mask + 1;
      ghost var e, hs, sl, hl := entries[..], hashes[..size], slots, hashes[..];
      ghost var rh := RobinHood();
      ghost var sep := rh && (Safe(hs + [hash], m) || RhTable.Unclamped(e, m));
      ghost var st := RhStretch.Stretched(e, hs, sl, m);
      if rh && !sep {
        RhStretch.ClampedStretched(e, hs, sl, m);
      }
      ReinsertLoop(hash, sep, st, e, hs, sl, hl);
    }

    /** The loop of Reinsert, from the state e, hs, sl, hl. */
    method ReinsertLoop(hash: u32, ghost sep: bool, ghost st: bool, ghost e: seq<int>, ghost hs: seq<int>,
                        ghost sl: seq<int>, ghost hl: seq<int>)
      requires Table() && size < capacity && hash < K
      requires entries[..] == e && hashes[..size] == hs && slots == sl && hashes[..] == hl
      requires sep ==> RhTable.RobinHood(e, hs, mask + 1) && (Safe(hs + [hash], mask + 1) || RhTable.Unclamped(e, mask + 1))
      requires st ==> RhStretch.Stretched(e, hs, sl, mask + 1)
      modifies this, entries, hashes
      ensures entries == old(entries) && hashes == old(hashes)
      ensures mask == old(mask) && capacity == old(capacity) && Table()
      ensures Contents() == hs + [hash]
      ensures sep ==> RobinHood()
      ensures st ==> Stretched()
    {
      var m := mask + 1;
      var scan: u32 := 0;
      while true
        invariant entries == old(entries) && hashes == old(hashes) && mask == old(mask) && capacity == old(capacity)
        invariant Table() && size == old(size) && slots == sl && entries[..] == e && hashes[..] == hl
        invariant scan < m && FullRun(e, m, hash, 0, scan)
        invariant sep ==> ResumeOk(e, hs, m, hash, scan)
        decreases m - scan
      {
        ReinsertStep(e, hs, sl, hl, m, hash, scan, sep);
        if st {
          RhStretch.StretchedInsert(e, hs, sl, hl, m, hash, scan);
        }
        var matched, newScan := Reprobe(hash, scan, e, hs, sl, hl);
        if !matched {
          return;
        }
        scan := newScan;
      }
    }

    /** One call of `rhmap_insert` inside the rehash loop, which starts with the table e, hs, sl, hl. */
    method Reprobe(hash: u32, scan: u32, ghost e: seq<int>, ghost hs: seq<int>, ghost sl: seq<int>, ghost hl: seq<int>)
      returns (matched: bool, newScan: u32)
      requires Table() && size < capacity && hash < K
      requires entries[..] == e && hashes[..size] == hs && slots == sl && hashes[..] == hl
      requires scan < mask + 1
      modifies this, entries, hashes
      ensures entries == old(entries) && hashes == old(hashes)
      ensures mask == old(mask) && capacity == old(capacity) && Table()
      ensures var r := Inserted(e, hs, sl, hl, mask + 1, hash, scan);
        if matched then
          r.Matched? && r.scan == newScan &&
          size == old(size) && slots == sl && entries[..] == e && hashes[..] == hl
        else
          r == Placed(entries[..], slots) && Contents() == hs + [hash]
    {
      ModOfSmall(hash, K);
      ghost var R := InsertSpec(hash, scan);
      assert R == Inserted(e, hs, sl, hl, mask + 1, hash, scan);
      var index;
      matched, index, newScan := Insert(hash, scan);
    }

    /**
     * `rhmap_find`: continue the probe for `hash` after `scan` slots and stop
     * at the next potential match (found, with the resume point `newScan`) or
     * where the Robin Hood ordering rules the hash out (not found).
     */
    method Find(hash: u32, scan: u32) returns (found: bool, index: u32, newScan: u32)
      requires Sentinel() || (Table() && scan + mask + 1 < WORD)
      ensures Sentinel() ==> !found && newScan == scan
      ensures Table() ==>
        var r := FindFrom(entries[..], mask + 1, hash % K, scan, mask + 1);
        found == r.Hit? && (found ==> index == r.index && newScan == r.scan) &&
        (!found ==> newScan == scan)
    {
      if mask == WORD - 1 {
        return false, 0, scan;
      }
      ghost var z := FreeSlot(entries[..], slots, mask + 1, -1);
      found, index, newScan := ProbeLoop(entries, mask + 1, hash % K, scan, z);
    }

    /**
     * What `rhmap_insert` does to the table: the insert probe after `scan`
     * slots for `hash`, the new element taking dense index `size`.
     */
    ghost function InsertSpec(hash: u32, scan: u32): Insertion
      reads this, entries, hashes
      requires Table() && size < capacity
    {
      Inserted(entries[..], hashes[..size], slots, hashes[..], mask + 1, hash % K, scan)
    }

    /**
     * `rhmap_insert`: continue the probe for `hash` after `scan` slots; stop at
     * a potential match (matched, with its index and resume point) or add the
     * hash as dense index `size`, displacing elements nearer their home.
     */
    method Insert(hash: u32, scan: u32) returns (matched: bool, index: u32, newScan: u32)
      requires Table() && size < capacity && scan + mask + 1 < WORD
      modifies this, entries, hashes
      ensures entries == old(entries) && hashes == old(hashes)
      ensures mask == old(mask) && capacity == old(capacity) && Table()
      ensures var r := old(InsertSpec(hash, scan));
        if matched then
          r == Matched(index, newScan) && index < size && scan < newScan &&
          FullRun(entries[..], mask + 1, hash % K, scan, newScan) &&
          size == old(size) && slots == old(slots) &&
          entries[..] == old(entries[..]) && hashes[..] == old(hashes[..])
        else
          r == Placed(entries[..], slots) && index == old(size) && newScan == scan &&
          size == old(size) + 1 && hashes[..] == old(hashes[..])[old(size) := hash % K]
      ensures !matched ==> Contents() == old(Contents()) + [hash % K]
      ensures matched && old(RobinHood()) ==> RobinHood()
    {
      ghost var so;
      matched, index, newScan, so := InsertArrays(entries, hashes, mask + 1, hash % K, size, scan, hashes[..size], slots);
      if !matched {
        size := size + 1;
        slots := so;
      }
    }

    /** What `rhmap_remove` does to the table when it removes the element in slot t. */
    ghost function RemoveAt(t: int): Removal
      reads this, entries, hashes
      requires Table() && 1 <= size && 0 <= t < mask + 1
    {
      EncodedBelow(entries[..], hashes[..size], mask + 1, hashes.Length);
      RemoveFrom(entries[..], slots, hashes[..], mask + 1, t, size)
    }

    /**
     * `rhmap_remove`: remove the element that a find or insert just reported
     * `scan` slots past the home of `hash`.  When the freed dense index `dst`
     * was not the last, the last element moves from dense index `src` to it.
     * The element sits in slot t, `(hash + scan - 1) & mask`; that slot
     * depends only on the 28 hash bits (the slot count divides 2^28), and
     * the ghost parameter t names it that way.
     */
    method Remove(hash: u32, scan: u32, ghost t: int) returns (moved: bool, dst: u32, src: u32)
      requires RobinHood() && 1 <= scan && 1 <= size && t == (hash % K + scan - 1) % (mask + 1) && entries[t] != 0
      modifies this, entries, hashes
      ensures entries == old(entries) && hashes == old(hashes)
      ensures mask == old(mask) && capacity == old(capacity) && RobinHood()
      ensures var R := old(RemoveAt(t));
        entries[..] == R.e && hashes[..] == R.hl && slots == R.slots
      ensures var r := old(Idx(entries[t], mask + 1));
        size == old(size) - 1 && (moved <==> r < size) && (moved ==> dst == r && src == size) &&
        Contents() == SwapRemove(old(Contents()), r)
    {
      var slot := (hash + scan - 1) % (mask + 1);
      assert slot == t by {
        ModDrop(hash, scan - 1, mask + 1);
      }
      moved, dst, src := RemoveSlot(slot);
    }

    /** The removal `rhmap_remove` performs once it has the slot t of the element. */
    method RemoveSlot(t: int) returns (moved: bool, dst: u32, src: u32)
      requires RobinHood() && 1 <= size && 0 <= t < mask + 1 && entries[t] != 0
      modifies this, entries, hashes
      ensures entries == old(entries) && hashes == old(hashes)
      ensures mask == old(mask) && capacity == old(capacity) && RobinHood()
      ensures var R := old(RemoveAt(t));
        entries[..] == R.e && hashes[..] == R.hl && slots == R.slots
      ensures var r := old(Idx(entries[t], mask + 1));
        size == old(size) - 1 && (moved <==> r < size) && (moved ==> dst == r && src == size) &&
        Contents() == SwapRemove(old(Contents()), r)
    {
      var m := mask + 1;
      ghost var R := RemoveAt(t);
      ghost var hs, sl := Contents(), slots;
      var n := size;
      size, slots := size - 1, R.slots;
      ghost var so;
      var d;
      moved, d, so := RemoveArrays(entries, hashes, m, t, n, hs, sl);
      if moved {
        dst, src := d, size;
      } else {
        dst, src := 0, 0;
      }
    }

    /** `rhmap_remove_index`: remove the element with dense index `index`. */
    method RemoveIndex(index: u32) returns (moved: bool, dst: u32, src: u32)
      requires RobinHood() && index < size
      modifies this, entries, hashes
      ensures entries == old(entries) && hashes == old(hashes)
      ensures mask == old(mask) && capacity == old(capacity) && RobinHood()
      ensures entries[..] == old(RemoveAt(slots[index])).e && hashes[..] == old(RemoveAt(slots[index])).hl
      ensures slots == old(RemoveAt(slots[index])).slots && size == old(size) - 1
      ensures (moved <==> index < size) && (moved ==> dst == index && src == size)
      ensures Contents() == SwapRemove(old(Contents()), index)
    {
      ghost var m := mask + 1;
      ghost var e, hs, sl := entries[..], Contents(), slots;
      var hash := hashes[index];
      assert hash == hs[index] && hash % K == hash;
      var scan := ScanTo(entries, mask + 1, hash, index, hs, sl);
      assert (hash % K + (scan + 1) - 1) % m == sl[index];
      assert Idx(e[sl[index]], m) == index;
      moved, dst, src := Remove(hash, scan + 1, sl[index]);
      assert Contents() == SwapRemove(hs, index);
    }
  }

  /** What grow and resize promise about the slot count n they settle on and its capacity c. */
  lemma Sized(n: nat, c: nat)
    requires SlotCount(n) && c == Capacity(n)
    ensures NumEntries(c) == n && Rehashable(c) && 0 < c < WORD && AllocSize(c, n) < WORD
    ensures AllocSize(c, n) % 8 == 0 && 4 * (c + n) <= AllocSize(c, n)
  {
    RehashSized(n);
    AllocSizeOk(c, n);
  }

  /** `rhmap_insert` on the two arrays of an indexed table with hashes `hs` and slots `slots`. */
  method InsertArrays(entries: array<u32>, hashes: array<u32>, m: int, h: int, size: int, scan: u32,
                      ghost hs: seq<int>, ghost slots: seq<int>)
    returns (matched: bool, index: u32, newScan: u32, ghost slotsOut: seq<int>)
    requires entries != hashes && entries.Length == m && size == |hs| < hashes.Length && hs == hashes[..size]
    requires Encoded(entries[..], hs, m) && Indexed(entries[..], slots, m) && |slots| == |hs| && |hs| + 1 < m
    requires 0 <= h < K && scan + m < WORD
    modifies entries, hashes
    ensures var r := Inserted(old(entries[..]), hs, slots, old(hashes[..]), m, h, scan);
      if matched then
        r == Matched(index, newScan) && index < size && scan < newScan &&
        FullRun(entries[..], m, h, scan, newScan) &&
        entries[..] == old(entries[..]) && hashes[..] == old(hashes[..])
      else
        r == Placed(entries[..], slotsOut) && index == size && newScan == scan &&
        hashes[..] == old(hashes[..])[size := h] && hashes[..size + 1] == hs + [h] &&
        Encoded(entries[..], hs + [h], m) && Indexed(entries[..], slotsOut, m) && |slotsOut| == size + 1
  {
    ghost var e0, hl0 := entries[..], hashes[..];
    ghost var z := FreeSlot(e0, slots, m, -1);
    InsertedOk(e0, hs, slots, hl0, m, h, scan);
    ghost var so;
    matched, index, newScan, so := InsertLoop(entries, hashes, m, h, size, scan, slots + [0], z);
    slotsOut := so;
    if !matched {
      assert hashes[..size + 1] == hs + [h];
    }
  }

  /** The loop of `rhmap_find` over the slot array, which holds a free slot z. */
  method ProbeLoop(entries: array<u32>, m: int, h: int, scan: u32, ghost z: int)
    returns (found: bool, index: u32, newScan: u32)
    requires SlotCount(m) && entries.Length == m && 0 <= h < K && scan + m < WORD
    requires 0 <= z < m && entries[z] == 0
    ensures var r := FindFrom(entries[..], m, h, scan, m);
      found == r.Hit? && (found ==> index == r.index && newScan == r.scan) &&
      (!found ==> newScan == scan)
  {
    ghost var e := entries[..];
    var s := scan;
    while true
      invariant scan <= s && s - scan + (z - (h + s)) % m < m
      invariant FindFrom(e, m, h, scan, m) == FindFrom(e, m, h, s, m - (s - scan))
      decreases (z - (h + s)) % m
    {
      var done, hit, idx := ProbeStep(entries, m, h, s, m - (s - scan));
      if done {
        return hit, idx, if hit then s + 1 else scan;
      }
      ProbeCloser(e, m, z, h + s);
      s := s + 1;
    }
  }

  /** One slot of the `rhmap_find` loop: stop on a match or on a slot nearer its home than the probe. */
  method ProbeStep(entries: array<u32>, m: int, h: int, s: u32, ghost n: nat)
    returns (done: bool, hit: bool, index: u32)
    requires SlotCount(m) && entries.Length == m && 0 <= h < K && n > 0
    ensures done ==> FindFrom(entries[..], m, h, s, n) == (if hit then Hit(index, s + 1) else Miss)
    ensures !done ==> entries[(h + s) % m] != 0
    ensures !done ==> FindFrom(entries[..], m, h, s, n) == FindFrom(entries[..], m, h, s + 1, n - 1)
  {
    var entry := entries[(h + s) % m];
    var probe := if s + 1 < CLAMP then s + 1 else CLAMP;
    var ref := h + probe * K;
    FindUnfold(entries[..], m, h, s, n, entry, ref);
    if entry / m == ref / m {
      return true, true, entry % m;
    } else if entry / K < probe {
      return true, false, 0;
    }
    return false, false, 0;
  }

  /** A packed word with a clamped scan field fits in 32 bits. */
  lemma WordFits(d: int, b: int)
    requires 0 <= d <= CLAMP && 0 <= b < K
    ensures 0 <= Word(d, b) < WORD
  {
  }

  /** The resolved scan distance of an occupied slot, read from the hash array. */
  method ResolveScan(entry: u32, t: int, hashes: array<u32>, m: int) returns (d: int)
    requires m > 0 && Idx(entry, m) < hashes.Length
    ensures d == SlotScan(entry, t, hashes[..], m)
  {
    d := Dist(entry);
    if d == CLAMP {
      d := (t - hashes[Idx(entry, m)]) % m + 1;
    }
  }

  /**
   * The two loops of `rhmap_insert` over the slot and hash arrays; the slot
   * array holds a free slot z, and ghost `sl` tracks the slot of each dense index.
   */
  method InsertLoop(entries: array<u32>, hashes: array<u32>, m: int, h: int, size: int, scan: u32,
                    ghost sl: seq<int>, ghost z: int)
    returns (matched: bool, index: u32, newScan: u32, ghost slotsOut: seq<int>)
    requires SlotCount(m) && entries.Length == m && entries != hashes
    requires 0 <= size < hashes.Length && size < m && |sl| == size + 1
    requires 0 <= h < K && scan + m < WORD
    requires 0 <= z < m && entries[z] == 0 && IdxBelow(entries[..], m, hashes.Length)
    modifies entries, hashes
    ensures var r := InsertFrom(old(entries[..]), sl, old(hashes[..]), m, h, size, scan, m);
      if matched then
        r == Matched(index, newScan) && entries[..] == old(entries[..]) && hashes[..] == old(hashes[..])
      else
        r == Placed(entries[..], slotsOut) && index == size && newScan == scan &&
        hashes[..] == old(hashes[..])[size := h]
  {
    ghost var e0 := entries[..];
    ghost var hl := hashes[..];
    InsertBodyBound(h, size, m);
    var insert := InsertBody(h, size, m);
    var s, slotScan := InsertProbe(entries, hashes, m, h, size, scan, sl, z);
    var t := (h + s) % m;
    var entry := entries[t];
    var probe := Clamp(s + 1);
    InsertUnfold(e0, sl, hl, m, h, size, s, m - (s - scan));
    WordFits(probe, insert);
    if entry / m == Word(probe, h) / m {
      return true, Idx(entry, m), s + 1, sl;
    } else if entry == 0 {
      entries[t] := Word(probe, insert);
      hashes[size] := h;
      return false, size, scan, sl[size := t];
    }
    entries[t] := Word(probe, insert);
    Toward(m, z, t);
    index, newScan, slotsOut :=
      DisplaceLoop(entries, hashes, m, h, size, scan, t, slotScan, Body(entry), sl[size := t], z);
    matched := false;
  }

  /**
   * The first loop of `rhmap_insert`, which only reads: the probe for h from
   * offset `scan` stops at a potential match, a free slot or an entry closer
   * to its home than the probe (resolved scan distance below s + 1).
   */
  method InsertProbe(entries: array<u32>, hashes: array<u32>, m: int, h: int, size: int, scan: u32,
                     ghost sl: seq<int>, ghost z: int)
    returns (s: int, slotScan: int)
    requires SlotCount(m) && entries.Length == m
    requires 0 <= size < hashes.Length && size < m && |sl| == size + 1
    requires 0 <= h < K && 0 <= scan
    requires 0 <= z < m && entries[z] == 0 && IdxBelow(entries[..], m, hashes.Length)
    ensures scan <= s < scan + m
    ensures InsertFrom(entries[..], sl, hashes[..], m, h, size, scan, m) ==
            InsertFrom(entries[..], sl, hashes[..], m, h, size, s, m - (s - scan))
    ensures var t := (h + s) % m;
      entries[t] / m != Word(Clamp(s + 1), h) / m && entries[t] != 0 ==>
        slotScan == SlotScan(entries[t], t, hashes[..], m) && slotScan < s + 1
  {
    ghost var e := entries[..];
    ghost var hl := hashes[..];
    s := scan;
    while true
      invariant scan <= s && (z - (h + s)) % m < m - (s - scan)
      invariant forall k :: scan <= k < s ==> PassAt(e, hl, m, h, k)
      decreases (z - (h + s)) % m
    {
      var t := (h + s) % m;
      var entry := entries[t];
      slotScan := 0;
      if entry / m == Word(Clamp(s + 1), h) / m || entry == 0 {
        break;
      }
      slotScan := ResolveScan(entry, t, hashes, m);
      if slotScan < s + 1 {
        break;
      }
      assert PassAt(e, hl, m, h, s);
      ProbeCloser(e, m, z, h + s);
      s := s + 1;
    }
    InsertSkip(e, sl, hl, m, h, size, scan, s, m);
  }

  /**
   * The second loop of `rhmap_insert`: the element `carry` has been displaced
   * from slot ix, where it was `s` slots from home; find it a place.
   */
  method DisplaceLoop(entries: array<u32>, hashes: array<u32>, m: int, h: int, size: int, scan: u32,
                      ix0: int, s0: int, carry0: int, ghost sl: seq<int>, ghost z: int)
    returns (index: u32, newScan: u32, ghost slotsOut: seq<int>)
    requires SlotCount(m) && entries.Length == m && entries != hashes
    requires 0 <= size < hashes.Length && size < m && 0 <= h < K && 0 <= scan
    requires 0 <= ix0 < m && 0 <= s0 && 0 <= carry0 < K && Idx(carry0, m) < hashes.Length
    requires 0 <= z < m && entries[z] == 0 && IdxBelow(entries[..], m, hashes.Length)
    requires 1 <= (z - ix0) % m
    modifies entries, hashes
    ensures Displace(old(entries[..]), sl, old(hashes[..]), m, ix0, s0, carry0, m) == Placed(entries[..], slotsOut)
    ensures index == size && newScan == scan && hashes[..] == old(hashes[..])[size := h]
  {
    ghost var hl := hashes[..];
    ghost var r0 := Displace(entries[..], sl, hl, m, ix0, s0, carry0, m);
    var ix, s, carry := ix0, s0, carry0;
    ghost var cur := sl;
    ghost var n: nat := m;
    while true
      invariant 0 <= ix < m && 0 <= s && 0 <= carry < K && Idx(carry, m) < hashes.Length
      invariant hashes[..] == hl && entries[z] == 0 && IdxBelow(entries[..], m, hashes.Length)
      invariant 1 <= (z - ix) % m <= n
      invariant r0 == Displace(entries[..], cur, hl, m, ix, s, carry, n)
      decreases (z - ix) % m
    {
      var t := (ix + 1) % m;
      var entry := entries[t];
      var probe := Clamp(s + 1);
      ghost var before: seq<int> := entries[..];
      WordFits(probe, carry);
      if entry == 0 {
        assert r0 == Placed(before[t := Word(probe, carry)], SetSlot(cur, Idx(carry, m), t)) by {
          DisplaceUnfold(before, cur, hl, m, ix, s, carry, n);
        }
        entries[t] := Word(probe, carry);
        hashes[size] := h;
        return size, scan, SetSlot(cur, Idx(carry, m), t);
      }
      var slotScan := ResolveScan(entry, t, hashes, m);
      StepToward(m, z, ix, t);
      if slotScan < s + 1 {
        ghost var put := before[t := Word(probe, carry)];
        ghost var next := SetSlot(cur, Idx(carry, m), t);
        assert IdxBelow(put, m, |hl|) && Idx(Body(entry), m) < |hl| && 0 <= Body(entry) &&
               r0 == Displace(put, next, hl, m, t, slotScan, Body(entry), n - 1) by {
          DisplaceUnfold(before, cur, hl, m, ix, s, carry, n);
        }
        entries[t] := Word(probe, carry);
        assert entries[..] == put;
        cur := next;
        carry := Body(entry);
        s := slotScan;
      } else {
        assert r0 == Displace(before, cur, hl, m, t, s + 1, carry, n - 1) by {
          DisplaceUnfold(before, cur, hl, m, ix, s, carry, n);
        }
        s := s + 1;
      }
      ix := t;
      n := n - 1;
    }
  }

  /** `rhmap_remove` on the two arrays of an ordered, indexed table; t is the slot of the removed element. */
  method RemoveArrays(entries: array<u32>, hashes: array<u32>, m: int, t: int, size: int,
                      ghost hs: seq<int>, ghost slots: seq<int>)
    returns (moved: bool, dst: u32, ghost slotsOut: seq<int>)
    requires entries != hashes && entries.Length == m && 1 <= size <= hashes.Length && hs == hashes[..size]
    requires RhTable.RobinHood(entries[..], hs, m) && Indexed(entries[..], slots, m) && |slots| == size
    requires 0 <= t < m && entries[t] != 0
    modifies entries, hashes
    ensures IdxBelow(old(entries[..]), m, hashes.Length)
    ensures var R := RemoveFrom(old(entries[..]), slots, old(hashes[..]), m, t, size);
      entries[..] == R.e && hashes[..] == R.hl && slotsOut == R.slots && moved == R.moved && dst == R.dst
    ensures RhTable.RobinHood(entries[..], hashes[..size - 1], m) && Indexed(entries[..], slotsOut, m)
    ensures |slotsOut| == size - 1 && hashes[..size - 1] == SwapRemove(hs, dst)
    ensures dst == Idx(old(entries[t]), m) && (moved <==> dst < size - 1)
  {
    ghost var e0, hl0 := entries[..], hashes[..];
    RemoveOk(e0, hs, slots, hl0, m, t);
    ShiftedOk(e0, hs, slots, hl0, m, t);
    ghost var sh := ShiftFrom(e0, slots, hl0, m, t, m);
    var removed := Idx(entries[t], m);
    ghost var z := FreeSlot(e0, slots, m, -1);
    ghost var so := ShiftLoop(entries, hashes, m, t, slots, z);
    var last := size - 1;
    if removed < last {
      var hash := hashes[last];
      hashes[removed] := hash;
      MovedOk(e0, hs, sh, hl0, m, removed);
      var ix := SeekLoop(entries, m, hash % m, last, sh.slots[last]);
      entries[ix] := Renumbered(entries[ix], removed, m);
      moved, dst := true, removed;
      slotsOut := so[removed := ix][..last];
    } else {
      moved, dst := false, removed;
      slotsOut := so[..last];
    }
  }

  /**
   * The shift-back loop of `rhmap_remove` from the removed element's slot t;
   * the slot array holds a free slot z.
   */
  method ShiftLoop(entries: array<u32>, hashes: array<u32>, m: int, t: int, ghost sl: seq<int>, ghost z: int)
    returns (ghost slotsOut: seq<int>)
    requires SlotCount(m) && entries.Length == m && entries != hashes && 0 <= t < m
    requires IdxBelow(entries[..], m, hashes.Length) && 0 <= z < m && entries[z] == 0 && t != z
    modifies entries
    ensures ShiftFrom(old(entries[..]), sl, hashes[..], m, t, m) == Shift(entries[..], slotsOut)
  {
    ghost var hl := hashes[..];
    ghost var r0 := ShiftFrom(entries[..], sl, hl, m, t, m);
    var ix := t;
    ghost var cur := sl;
    ghost var n: nat := m;
    Toward(m, z, t);
    while true
      invariant 0 <= ix < m && ix != z && entries[z] == 0 && IdxBelow(entries[..], m, hashes.Length)
      invariant (z - ix) % m <= n
      invariant r0 == ShiftFrom(entries[..], cur, hl, m, ix, n)
      decreases (z - ix) % m
    {
      var next := (ix + 1) % m;
      var entry := entries[next];
      Toward(m, z, ix);
      if entry < 2 * K {
        ShiftStop(entries[..], cur, hl, m, ix, n);
        break;
      }
      ShiftStep(entries[..], cur, hl, m, ix, n, z);
      var w := ShiftEntry(entry, next, hashes, m);
      entries[ix] := w;
      cur := SetSlot(cur, Idx(entry, m), ix);
      ix := next;
      n := n - 1;
    }
    entries[ix] := 0;
    slotsOut := cur;
  }

  /**
   * The entry moved one slot back by `rhmap_remove`: one step closer to home,
   * with a clamped scan field resolved through the hash array.
   */
  method ShiftEntry(entry: u32, next: int, hashes: array<u32>, m: int) returns (w: u32)
    requires SlotCount(m) && 2 * K <= entry && Idx(entry, m) < hashes.Length
    ensures w == ShiftWord(entry, next, hashes[..], m) && Idx(w, m) == Idx(entry, m)
  {
    ShiftWordIdx(entry, next, hashes[..], m);
    if entry < CLAMP * K {
      w := entry - K;
    } else {
      var probe := (next - hashes[Idx(entry, m)]) % m;
      if probe > CLAMP {
        probe := CLAMP;
      }
      BodyIdx(entry, m);
      WordFits(probe, Body(entry));
      w := Word(probe, Body(entry));
    }
  }

  /** The search of `rhmap_remove` for the slot naming dense index j, which slot u does. */
  method SeekLoop(entries: array<u32>, m: int, start: int, j: int, ghost u: int) returns (ix: int)
    requires m > 0 && entries.Length == m && 0 <= start < m && 0 <= u < m && Idx(entries[u], m) == j
    ensures 0 <= ix < m && ix == Seek(entries[..], m, start, j, m)
  {
    ix := start;
    ghost var n: nat := m;
    while Idx(entries[ix], m) != j
      invariant 0 <= ix < m && (u - ix) % m < n
      invariant Seek(entries[..], m, start, j, m) == Seek(entries[..], m, ix, j, n)
      decreases (u - ix) % m
    {
      CyclicZero(u, ix, m);
      ModOfSmall(ix, m);
      StepCloser(u, ix, m);
      ModSub(u, ix + 1, m);
      ix := (ix + 1) % m;
      n := n - 1;
    }
  }

  /** The loop of `rhmap_remove_index`: the probe offset of the slot naming dense index `index`. */
  method ScanTo(entries: array<u32>, m: int, h: int, index: int, ghost hs: seq<int>, ghost slots: seq<int>)
    returns (scan: u32)
    requires entries.Length == m && RhTable.RobinHood(entries[..], hs, m) && Indexed(entries[..], slots, m)
    requires |slots| == |hs| && 0 <= index < |hs| && h == hs[index]
    ensures (h + scan) % m == slots[index] && scan + 1 == TD(entries[..], hs, m, slots[index])
  {
    ghost var e := entries[..];
    ghost var q := TD(e, hs, m, slots[index]);
    BelowTurn(e, hs, slots, m, -1, slots[index]);
    scan := 0;
    while Idx(entries[(h + scan) % m], m) != index
      invariant 0 <= scan < q && entries[..] == e
      decreases q - scan
    {
      ProbeToIndex(e, hs, slots, m, index, scan);
      scan := scan + 1;
    }
    ProbeToIndex(e, hs, slots, m, index, scan);
    assert scan == q - 1;
    BackToProbe(slots[index], h, q, q - 1, m);
    ModOfSmall(slots[index], m);
  }
}
