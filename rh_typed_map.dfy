// The typed map of extra/hash_map.h: the key/value pairs sit in a dense array
// in the order of the engine's dense indices, and the engine maps the hash of
// each key to the index of its pair.  Key equality (`==` on Key) settles every
// potential match the engine reports.
module TypedMap {
  import opened RhLayout
  import opened RhTable
  import opened RhProbe
  import opened RhInsert
  import opened RhRemove
  import opened RhSizing
  import opened RhEngine
  import RhStretch

  /** `map_pair`. */
  datatype Pair<Key, Val> = Pair(key: Key, value: Val)

  /** The 28-bit hashes the engine keeps for the pairs, in dense order. */
  function HashesOf<Key, Val>(hash: Key -> u32, data: seq<Pair<Key, Val>>): (hs: seq<int>)
    ensures |hs| == |data|
    ensures forall i :: 0 <= i < |data| ==> hs[i] == hash(data[i].key) % K
  {
    seq(|data|, i requires 0 <= i < |data| => hash(data[i].key) % K)
  }

  /** Some pair holds the key. */
  ghost predicate Has<Key, Val>(data: seq<Pair<Key, Val>>, key: Key)
  {
    exists i :: 0 <= i < |data| && data[i].key == key
  }

  /** No key is held by two pairs. */
  ghost predicate DistinctKeys<Key, Val>(data: seq<Pair<Key, Val>>)
  {
    forall i, j :: 0 <= i < |data| && 0 <= j < |data| && i != j ==> data[i].key != data[j].key
  }

  /** The dense index of the pair holding the key, or -1. */
  ghost function KeyIndex<Key, Val>(data: seq<Pair<Key, Val>>, key: Key): (j: int)
    ensures -1 <= j < |data|
    ensures j >= 0 ==> data[j].key == key
    ensures j < 0 ==> !Has(data, key)
  {
    if Has(data, key) then var i :| 0 <= i < |data| && data[i].key == key; i else -1
  }

  /** The pairs after erasing dense index r: the last pair moves into the freed index. */
  function Erased<Key, Val>(data: seq<Pair<Key, Val>>, r: int): (out: seq<Pair<Key, Val>>)
    requires 0 <= r < |data|
    ensures |out| == |data| - 1
  {
    if r < |data| - 1 then data[r := data[|data| - 1]][..|data| - 1] else data[..|data| - 1]
  }

  /**
   * Erasing a pair keeps every other pair and only those: with distinct keys,
   * a pair survives exactly when its key is not the erased one.
   */
  lemma ErasedPairs<Key, Val>(data: seq<Pair<Key, Val>>, r: int)
    requires 0 <= r < |data| && DistinctKeys(data)
    ensures DistinctKeys(Erased(data, r))
    ensures forall p :: p in Erased(data, r) <==> p in data && p.key != data[r].key
  {
    var out := Erased(data, r);
    var last := |data| - 1;
    assert forall i :: 0 <= i < |out| ==> out[i] == (if i == r then data[last] else data[i]);
    forall p | p in data && p.key != data[r].key
      ensures p in out
    {
      var i :| 0 <= i < |data| && data[i] == p;
      if i == last {
        assert out[r] == p;
      } else {
        assert out[i] == p;
      }
    }
  }

  /** Erasing a pair removes its hash from the engine's hashes in the same swap-remove order. */
  lemma ErasedHashes<Key, Val>(hash: Key -> u32, data: seq<Pair<Key, Val>>, r: int)
    requires 0 <= r < |data|
    ensures HashesOf(hash, Erased(data, r)) == SwapRemove(HashesOf(hash, data), r)
  {
  }

  /**
   * Constructing the pair for a key at the new last index appends its hash,
   * and keeps the keys distinct when the key was not yet held.
   */
  lemma PlacedPair<Key, Val>(hash: Key -> u32, data: seq<Pair<Key, Val>>, key: Key, value: Val)
    ensures DistinctKeys(data) && !Has(data, key) ==> DistinctKeys(data + [Pair(key, value)])
    ensures HashesOf(hash, data + [Pair(key, value)]) == HashesOf(hash, data) + [hash(key) % K]
    ensures Has(data + [Pair(key, value)], key)
  {
    var d := data + [Pair(key, value)];
    assert d[|data|].key == key;
    forall i, j | DistinctKeys(data) && !Has(data, key) && 0 <= i < |d| && 0 <= j < |d| && i != j
      ensures d[i].key != d[j].key
    {
      if i < |data| && j < |data| {
        assert d[i] == data[i] && d[j] == data[j];
      } else if i < |data| {
        assert d[i] == data[i];
      } else {
        assert d[j] == data[j];
      }
    }
  }

  /** Overwriting the value of a pair keeps its key, so the keys and hashes stay as they were. */
  lemma AssignedPair<Key, Val>(hash: Key -> u32, data: seq<Pair<Key, Val>>, i: int, value: Val)
    requires 0 <= i < |data|
    ensures DistinctKeys(data) ==> DistinctKeys(data[i := Pair(data[i].key, value)])
    ensures HashesOf(hash, data[i := Pair(data[i].key, value)]) == HashesOf(hash, data)
    ensures forall k :: Has(data[i := Pair(data[i].key, value)], k) <==> Has(data, k)
  {
    var d := data[i := Pair(data[i].key, value)];
    assert forall k :: 0 <= k < |d| ==> d[k].key == data[k].key;
    forall k
      ensures Has(d, k) <==> Has(data, k)
    {
      if Has(data, k) {
        var a :| 0 <= a < |data| && data[a].key == k;
        assert d[a].key == k;
      }
    }
  }

  /** `hash_map<Key, Val, Hash>`. */
  class HashMap<Key(==), Val> {
    /** The `Hash` functor. */
    const hash: Key -> u32
    /** `Val()`, the value `operator[]` stores with a new key. */
    const blank: Val
    /** The engine. */
    const imp: RhMap
    /** The constructed pairs `data[0 .. imp.size)`, in dense order. */
    var data: seq<Pair<Key, Val>>

    /**
     * Pair i holds the key whose hash the engine keeps for dense index i, and
     * the engine's capacity is the one its slot count gives.
     */
    ghost predicate Coherent()
      reads this, imp, imp.entries, imp.hashes
    {
      imp.Valid() && |data| == imp.size &&
      (imp.Table() ==> imp.Contents() == HashesOf(hash, data) && imp.capacity == RhSizing.Capacity(imp.mask + 1))
    }

    /** A coherent map in which no key occurs twice. */
    ghost predicate Valid()
      reads this, imp, imp.entries, imp.hashes
    {
      Coherent() && DistinctKeys(data)
    }

    /** The engine's Robin Hood invariant, whenever it has a table. */
    ghost predicate Ordered()
      reads imp, imp.entries, imp.hashes
    {
      imp.Table() ==> imp.RobinHood()
    }

    /** The engine's table, if any, is ordered or stretched: the states inserts and rehashes leave. */
    ghost predicate Settled()
      reads imp, imp.entries, imp.hashes
    {
      imp.Table() ==> imp.Settled()
    }

    /**
     * The state `imp_insert` leaves when it adds key: the engine holds one
     * more hash than there are pairs, key's, and the pair is yet to be constructed.
     */
    ghost predicate Awaiting(key: Key)
      reads this, imp, imp.entries, imp.hashes
    {
      imp.Table() && imp.size == |data| + 1 &&
      imp.Contents() == HashesOf(hash, data) + [hash(key) % K] &&
      imp.capacity == RhSizing.Capacity(imp.mask + 1)
    }

    /** The slot count an insert works in: the grown one when the map is full. */
    ghost function InsertSlots(): (n: int)
      reads this, imp
      ensures n >= 1
    {
      if imp.size >= imp.capacity then
        GrowTargetOk(GrowStart(imp.mask, 0), imp.size);
        GrowTarget(GrowStart(imp.mask, 0), imp.size)
      else imp.mask + 1
    }

    /** A full map grows to at most 2^28 slots. */
    ghost predicate CanGrow()
      reads this, imp
    {
      imp.size < imp.capacity || GrowTarget(GrowStart(imp.mask, 0), imp.size) <= K
    }

    /** The rehash of a growing insert keeps the Robin Hood invariant: the hashes are safe in the grown table. */
    ghost predicate GrowSafe()
      reads this, imp
    {
      imp.size < imp.capacity || Safe(HashesOf(hash, data), InsertSlots())
    }

    /** An insert of key keeps the Robin Hood invariant: the hashes with key's are safe in the table it works in. */
    ghost predicate Separated(key: Key)
      reads this, imp
    {
      Safe(HashesOf(hash, data) + [hash(key) % K], InsertSlots())
    }

    /** `hash_map()`: an engine with no arrays and no pairs. */
    constructor (hash: Key -> u32, blank: Val)
      ensures Valid() && Ordered() && data == [] && fresh(imp) && imp.Unallocated()
      ensures this.hash == hash && this.blank == blank
    {
      this.hash := hash;
      this.blank := blank;
      imp := new RhMap();
      data := [];
    }

    /** `size()`. */
    function Size(): (n: u32)
      reads this, imp, imp.entries, imp.hashes
      requires Coherent()
      ensures n == |data|
    {
      imp.size
    }

    /** `capacity()`: the number of pairs the map holds before its next insert grows it. */
    function Capacity(): (c: u32)
      reads this, imp, imp.entries, imp.hashes
      requires Coherent()
      ensures |data| <= c
      ensures imp.Table() ==> c == RhSizing.Capacity(imp.mask + 1)
      ensures !imp.Table() ==> c == 0
    {
      imp.capacity
    }

    /**
     * `imp_rehash`: move the pairs to a buffer for `count` pairs (they keep
     * their dense indices) and rehash the engine to `count`.
     */
    method ImpRehash(count: u32, allocSize: u32)
      requires Coherent() && Rehashable(count) && |data| <= count
      requires count == RhSizing.Capacity(NumEntries(count))
      modifies imp
      ensures Coherent() && data == old(data) && imp.capacity == count
      ensures fresh(imp.entries) && fresh(imp.hashes)
      ensures count == 0 ==> imp.Sentinel()
      ensures count > 0 ==> imp.Table() && imp.mask + 1 == NumEntries(count) && Settled()
      ensures count > 0 && (Safe(HashesOf(hash, data), imp.mask + 1) || imp.Unclamped()) ==> Ordered()
    {
      ghost var hs := HashesOf(hash, data);
      assert (if imp.hashes == null then [] else imp.Contents()) == hs by {
        if !imp.Table() {
          assert |data| == 0;
        }
      }
      var oldEntries := imp.Rehash(count);
      assert imp.Contents() == hs && imp.Valid() && HashesOf(hash, data) == hs;
      assert count > 0 ==> imp.capacity == RhSizing.Capacity(imp.mask + 1);
    }

    /** `clear()`: drop every pair, keeping the table. */
    method Clear()
      requires Coherent() && (imp.Table() || imp.Sentinel())
      modifies this, imp, imp.entries
      ensures Valid() && Ordered() && data == []
      ensures imp.mask == old(imp.mask) && imp.capacity == old(imp.capacity)
    {
      imp.Clear();
      data := [];
    }

    /**
     * `reserve(size)`: make room for `request` pairs.  When the capacity
     * already suffices nothing changes; otherwise the engine is resized and
     * the pairs keep their dense indices.
     */
    method Reserve(request: u32)
      requires Coherent() && EntriesFor(request) < WORD && ResizeTarget(request, imp.size) <= K
      modifies imp
      ensures Coherent() && data == old(data) && request <= imp.capacity
      ensures old(request <= imp.capacity) ==>
        imp.mask == old(imp.mask) && imp.capacity == old(imp.capacity) &&
        imp.entries == old(imp.entries) && imp.hashes == old(imp.hashes) && imp.size == old(imp.size)
      ensures old(request > imp.capacity) ==> imp.Table() && imp.mask + 1 == ResizeTarget(request, old(imp.size))
      ensures old(request <= imp.capacity) && old(Ordered()) ==> Ordered()
      ensures old(request <= imp.capacity) && old(Settled()) ==> Settled()
      ensures old(request > imp.capacity) ==> Settled()
      ensures old(request > imp.capacity) && (Safe(HashesOf(hash, data), imp.mask + 1) || imp.Unclamped()) ==> Ordered()
      ensures old(Valid()) ==> Valid()
    {
      if request > imp.capacity {
        ResizeFor(request);
        assert !old(request <= imp.capacity);
      }
    }

    /** The resizing branch of `reserve`: `rhmap_resize`, then `imp_rehash`. */
    method ResizeFor(request: u32)
      requires Coherent() && EntriesFor(request) < WORD && ResizeTarget(request, imp.size) <= K
      modifies imp
      ensures Coherent() && data == old(data) && request <= imp.capacity
      ensures imp.Table() && imp.mask + 1 == ResizeTarget(request, old(imp.size)) && Settled()
      ensures Safe(HashesOf(hash, data), imp.mask + 1) || imp.Unclamped() ==> Ordered()
    {
      ghost var n := ResizeTarget(request, imp.size);
      var count, allocSize := imp.Resize(request);
      assert NumEntries(count) == n && request <= count && |data| <= count;
      ImpRehash(count, allocSize);
      assert imp.mask + 1 == n;
    }

    /**
     * The search loop of `find` and `erase_key`: drive `rhmap_find` until a
     * potential match holds the key (found, with its dense index and the
     * iterator's resume point) or the probe ends.
     */
    method Locate(key: Key) returns (found: bool, index: nat, scan: u32)
      requires Coherent() && (imp.Table() || imp.Sentinel())
      ensures found ==> index < |data| && data[index].key == key
      ensures found ==> imp.Table() && 1 <= scan < imp.mask + 1 && Located(hash(key) % K, scan, index)
      ensures !found && Ordered() ==> !Has(data, key)
    {
      var h := hash(key);
      ghost var hk := h % K;
      ghost var tab := imp.Table();
      ghost var m := imp.mask + 1;
      ghost var e := imp.entries[..];
      ghost var hs := if tab then imp.Contents() else [];
      ghost var sl := imp.slots;
      ghost var j := if Ordered() then KeyIndex(data, key) else -1;
      assert tab ==> |hs| == |data|;
      assert j >= 0 ==> tab && RhTable.RobinHood(e, hs, m) && j < |hs| && hs[j] == hk;
      found, index, scan := Search(key, tab, e, hs, sl, m, j);
      if found {
        assert imp.entries[(hk + scan - 1) % m] == e[(hk + scan - 1) % m];
      }
    }

    /**
     * The search loop of `find` over the engine's table (snapshot e, dense
     * hashes hs, slots sl, m slots): probe, and resume after every potential
     * match whose pair holds another key.  Element j, if any, holds key.
     */
    method Search(key: Key, ghost tab: bool, ghost e: seq<int>, ghost hs: seq<int>, ghost sl: seq<int>, ghost m: int, ghost j: int)
      returns (found: bool, index: nat, scan: u32)
      requires tab ==> imp.Table() && imp.entries[..] == e && imp.mask + 1 == m
      requires !tab ==> imp.Sentinel()
      requires tab ==> hs == imp.Contents() && sl == imp.slots && |hs| == |data|
      requires j >= 0 ==> tab && RhTable.RobinHood(e, hs, m) && j < |hs| && hs[j] == hash(key) % K && data[j].key == key
      ensures found ==> tab && index < |data| && data[index].key == key && 1 <= scan < m
      ensures found ==> e[(hash(key) % K + scan - 1) % m] != 0 && Idx(e[(hash(key) % K + scan - 1) % m], m) == index
      ensures j >= 0 ==> found
    {
      var h := hash(key);
      ghost var hk := h % K;
      scan := 0;
      while true
        invariant tab ==> scan < m && FullRun(e, m, hk, 0, scan)
        invariant j >= 0 ==> scan < TD(e, hs, m, sl[j])
        decreases if tab then m - scan else 0
      {
        var f, idx, ns := SearchStep(key, h, scan, tab, e, hs, sl, m, j);
        if !f {
          return false, 0, scan;
        }
        if data[idx].key == key {
          return true, idx, ns;
        }
        scan := ns;
      }
    }

    /** One call of `rhmap_find` in the search loop, and what it tells the loop. */
    method SearchStep(key: Key, h: u32, scan: u32, ghost tab: bool, ghost e: seq<int>, ghost hs: seq<int>, ghost sl: seq<int>, ghost m: int, ghost j: int)
      returns (f: bool, idx: u32, ns: u32)
      requires tab ==> imp.Table() && imp.entries[..] == e && imp.mask + 1 == m
      requires !tab ==> imp.Sentinel()
      requires tab ==> hs == imp.Contents() && sl == imp.slots && |hs| == |data|
      requires tab ==> Encoded(e, hs, m) && Indexed(e, sl, m) && |sl| == |hs|
      requires j >= 0 ==> tab && RhTable.RobinHood(e, hs, m) && j < |hs| && hs[j] == h % K
      requires tab ==> scan < m && FullRun(e, m, h % K, 0, scan)
      requires j >= 0 ==> scan < TD(e, hs, m, sl[j])
      ensures !f ==> j < 0
      ensures f ==> tab && scan < ns < m && FullRun(e, m, h % K, 0, ns) && idx < |data|
      ensures f ==> e[(h % K + ns - 1) % m] != 0 && Idx(e[(h % K + ns - 1) % m], m) == idx
      ensures f && j >= 0 && idx != j ==> ns < TD(e, hs, m, sl[j])
    {
      f, idx, ns := imp.Find(h, scan);
      if !f {
        if j >= 0 {
          FindMiss(e, hs, sl, m, h % K, scan);
        }
      } else {
        FindHit(e, hs, sl, m, h % K, scan, j, idx, ns);
      }
    }

    /** The slot `scan` - 1 steps past the home of the 28-bit hash h holds an entry for dense index `index`. */
    ghost predicate Located(h: int, scan: u32, index: nat)
      reads this, imp, imp.entries, imp.hashes
      requires imp.Table() && 1 <= scan
    {
      imp.entries[(h + scan - 1) % (imp.mask + 1)] != 0 &&
      Idx(imp.entries[(h + scan - 1) % (imp.mask + 1)], imp.mask + 1) == index
    }

    /** `find(key)`: the dense index of the pair holding key, if the search meets it. */
    method Find(key: Key) returns (found: bool, index: nat)
      requires Coherent() && (imp.Table() || imp.Sentinel())
      ensures found ==> index < |data| && data[index].key == key
      ensures Ordered() ==> (found <==> Has(data, key))
    {
      var scan;
      found, index, scan := Locate(key);
    }

    /**
     * The insert loop of `imp_insert` on a table with room: drive
     * `rhmap_insert` until it places the key's hash as a new dense index or
     * reports a potential match that holds the key.  On an ordered table a
     * placed key was absent; an ordered table stays ordered when the key is
     * found or its hash is safe, and otherwise ends ordered or stretched; a
     * stretched table stays stretched.
     */
    method PlaceKey(key: Key) returns (inserted: bool, index: nat)
      requires Coherent() && Settled() && imp.Table() && imp.size < imp.capacity
      modifies imp, imp.entries, imp.hashes
      ensures data == old(data) && imp.entries == old(imp.entries) && imp.hashes == old(imp.hashes)
      ensures imp.mask == old(imp.mask) && imp.capacity == old(imp.capacity) && imp.Table()
      ensures inserted ==> Awaiting(key) && index == |data|
      ensures inserted && old(imp.RobinHood()) ==> !Has(data, key)
      ensures !inserted ==> Coherent() && index < |data| && data[index].key == key
      ensures old(imp.RobinHood()) ==> imp.RobinHood() || imp.Stretched()
      ensures old(imp.Stretched()) ==> imp.Stretched()
      ensures old(imp.RobinHood()) && (!inserted || old(Separated(key))) ==> imp.RobinHood()
    {
      var h := hash(key);
      var m := imp.mask + 1;
      ghost var hk := h % K;
      ghost var e, hs, sl, hl := imp.entries[..], imp.Contents(), imp.slots, imp.hashes[..];
      ghost var rh := imp.RobinHood();
      if Separated(key) {
        assert Safe(hs + [hk], m) by {
          assert HashesOf(hash, data) + [hk] == hs + [hk];
        }
      }
      ghost var sep := rh && (Safe(hs + [hk], m) || RhTable.Unclamped(e, m));
      ghost var st := RhStretch.Stretched(e, hs, sl, m);
      ghost var j := if rh then KeyIndex(data, key) else -1;
      assert Encoded(e, hs, m) && Indexed(e, sl, m) && |sl| == |hs| == |data|;
      assert j >= 0 ==> hs[j] == hk;
      if rh && !sep {
        RhStretch.ClampedStretched(e, hs, sl, m);
      }
      inserted, index := PlaceLoop(key, sep, st, j, e, hs, sl, hl);
      if !inserted {
        assert imp.RobinHood() == rh && imp.Stretched() == st;
      }
    }

    /**
     * The loop of PlaceKey on the table e, hs, sl, hl: with sep the Robin Hood
     * invariant survives, with st the table stays stretched, and the element
     * j >= 0, which holds key on an ordered table, is met before anything is placed.
     */
    method PlaceLoop(key: Key, ghost sep: bool, ghost st: bool, ghost j: int, ghost e: seq<int>, ghost hs: seq<int>,
                     ghost sl: seq<int>, ghost hl: seq<int>) returns (inserted: bool, index: nat)
      requires imp.Table() && imp.size < imp.capacity && |data| == |hs|
      requires imp.entries[..] == e && imp.Contents() == hs && imp.slots == sl && imp.hashes[..] == hl
      requires sep ==> RhTable.RobinHood(e, hs, imp.mask + 1) &&
                       (Safe(hs + [hash(key) % K], imp.mask + 1) || RhTable.Unclamped(e, imp.mask + 1))
      requires st ==> RhStretch.Stretched(e, hs, sl, imp.mask + 1)
      requires j >= 0 ==> RhTable.RobinHood(e, hs, imp.mask + 1) && j < |hs| && hs[j] == hash(key) % K &&
                          data[j].key == key
      modifies imp, imp.entries, imp.hashes
      ensures data == old(data) && imp.entries == old(imp.entries) && imp.hashes == old(imp.hashes)
      ensures imp.mask == old(imp.mask) && imp.capacity == old(imp.capacity) && imp.Table()
      ensures inserted ==> imp.Contents() == hs + [hash(key) % K] && index == |data| && j < 0
      ensures inserted && sep ==> imp.RobinHood()
      ensures inserted && st ==> imp.Stretched()
      ensures !inserted ==> index < |data| && data[index].key == key
      ensures !inserted ==> imp.size == old(imp.size) && imp.slots == sl && imp.entries[..] == e && imp.Contents() == hs
    {
      var h := hash(key);
      var m := imp.mask + 1;
      ghost var hk := h % K;
      assert Encoded(e, hs, m) && Indexed(e, sl, m) && |sl| == |hs|;
      var scan: u32 := 0;
      while true
        invariant imp.entries == old(imp.entries) && imp.hashes == old(imp.hashes)
        invariant imp.mask == old(imp.mask) && imp.capacity == old(imp.capacity) && imp.Table()
        invariant imp.size == old(imp.size) && imp.slots == sl && imp.entries[..] == e && imp.hashes[..] == hl
        invariant imp.Contents() == hs
        invariant scan < m && FullRun(e, m, hk, 0, scan)
        invariant sep ==> ResumeOk(e, hs, m, hk, scan)
        invariant j >= 0 ==> scan < TD(e, hs, m, sl[j])
        decreases m - scan
      {
        InsertNext(e, hs, sl, hl, m, hk, scan, sep, j);
        if st {
          RhStretch.StretchedInsert(e, hs, sl, hl, m, hk, scan);
        }
        var matched, idx, ns := PlaceStep(h, scan, e, hs, sl, hl, m);
        if !matched {
          return true, idx;
        }
        if data[idx].key == key {
          return false, idx;
        }
        scan := ns;
      }
    }

    /** One call of `rhmap_insert` in the insert loop of `imp_insert`, on the table e, hs, sl, hl. */
    method PlaceStep(h: u32, scan: u32, ghost e: seq<int>, ghost hs: seq<int>, ghost sl: seq<int>,
                     ghost hl: seq<int>, ghost m: int)
      returns (matched: bool, idx: u32, ns: u32)
      requires imp.Table() && imp.size < imp.capacity && imp.mask + 1 == m
      requires imp.entries[..] == e && imp.Contents() == hs && imp.slots == sl && imp.hashes[..] == hl
      requires scan < m
      modifies imp, imp.entries, imp.hashes
      ensures imp.entries == old(imp.entries) && imp.hashes == old(imp.hashes)
      ensures imp.mask == old(imp.mask) && imp.capacity == old(imp.capacity) && imp.Table()
      ensures var r := Inserted(e, hs, sl, hl, m, h % K, scan);
        if matched then
          r == Matched(idx, ns) && idx < |hs| &&
          imp.size == old(imp.size) && imp.slots == sl && imp.entries[..] == e && imp.hashes[..] == hl
        else
          r == Placed(imp.entries[..], imp.slots) && idx == |hs| && imp.size == |hs| + 1 &&
          imp.Contents() == hs + [h % K] &&
          (RhTable.RobinHood(r.e, hs + [h % K], m) ==> imp.RobinHood()) &&
          (RhStretch.Stretched(r.e, hs + [h % K], r.slots, m) ==> imp.Stretched())
    {
      ghost var R := imp.InsertSpec(h, scan);
      assert R == Inserted(e, hs, sl, hl, m, h % K, scan);
      matched, idx, ns := imp.Insert(h, scan);
    }

    /** The grow step of `imp_insert`: a full map grows and rehashes, so the insert loop has room. */
    method MakeRoom()
      requires Coherent() && Settled() && CanGrow()
      modifies imp
      ensures Coherent() && Settled() && data == old(data)
      ensures imp.Table() && imp.size < imp.capacity && imp.mask + 1 == old(InsertSlots())
      ensures old(imp.size < imp.capacity) ==>
        imp.entries == old(imp.entries) && imp.hashes == old(imp.hashes) && (old(Ordered()) ==> Ordered())
      ensures old(imp.size >= imp.capacity) ==>
        fresh(imp.entries) && fresh(imp.hashes) && (old(GrowSafe()) ==> Ordered())
    {
      if imp.size >= imp.capacity {
        Enlarge();
      }
    }

    /** `imp_insert` on a full map: grow, then rehash the pairs into the larger table. */
    method Enlarge()
      requires Coherent() && imp.size >= imp.capacity && CanGrow()
      modifies imp
      ensures Coherent() && Settled() && data == old(data)
      ensures imp.Table() && imp.size < imp.capacity && imp.mask + 1 == old(InsertSlots())
      ensures fresh(imp.entries) && fresh(imp.hashes)
      ensures old(GrowSafe()) ==> Ordered()
    {
      ghost var n := InsertSlots();
      ghost var safe := GrowSafe();
      ghost var hs := HashesOf(hash, data);
      assert safe ==> Safe(hs, n);
      var count, allocSize := GrowCount();
      ImpRehash(count, allocSize);
      if safe {
        assert Safe(HashesOf(hash, data), imp.mask + 1) by {
          assert imp.mask + 1 == n && HashesOf(hash, data) == hs;
        }
      }
    }

    /** The grown pair count of a full map: `imp_insert`'s call of `rhmap_grow`. */
    method GrowCount() returns (count: u32, allocSize: u32)
      requires Coherent() && imp.size >= imp.capacity && CanGrow()
      ensures Rehashable(count) && |data| <= count && count == RhSizing.Capacity(NumEntries(count))
      ensures imp.size < count && NumEntries(count) == InsertSlots()
    {
      imp.ValidShaped();
      count, allocSize := imp.Grow(0);
      assert imp.size < count by {
        if imp.size > 0 {
          GrowRoom(imp.mask, imp.size);
        }
      }
    }

    /**
     * `imp_insert`: grow and rehash a full map, then run the insert loop.  A
     * new key leaves its pair to be constructed at the returned index.  The
     * answer is exact, and the table ordered as before, when the final table
     * has no clamped field, or when the map was ordered and its growth safe.
     */
    method ImpInsert(key: Key) returns (inserted: bool, index: nat)
      requires Coherent() && Settled() && CanGrow()
      modifies imp, imp.entries, imp.hashes
      ensures data == old(data) && imp.Table() && imp.mask + 1 == old(InsertSlots()) && Settled()
      ensures inserted ==> Awaiting(key) && index == |data|
      ensures !inserted ==> Coherent() && index < |data| && data[index].key == key
      ensures inserted && (imp.Unclamped() || (old(Ordered()) && old(GrowSafe()))) ==> !Has(data, key)
      ensures imp.Unclamped() || (old(Ordered()) && old(GrowSafe()) && (!inserted || old(Separated(key)))) ==>
        imp.RobinHood()
    {
      ghost var exact := Ordered() && GrowSafe();
      ghost var sep := Separated(key);
      ghost var n := InsertSlots();
      MakeRoom();
      assert exact ==> imp.RobinHood();
      ghost var rh := imp.RobinHood();
      if sep {
        assert Separated(key) by {
          assert imp.mask + 1 == n;
        }
      }
      ghost var sep2 := Separated(key);
      inserted, index := PlaceKey(key);
      if imp.Stretched() {
        RhStretch.StretchedClamped(imp.entries[..], imp.hashes[..imp.size], imp.slots, imp.mask + 1);
        assert !imp.Unclamped();
      } else {
        assert rh ==> imp.RobinHood();
      }
      assert rh && (!inserted || sep2) ==> imp.RobinHood();
    }

    /** The construction of the new pair at the index `imp_insert` returned for a new key. */
    method Construct(key: Key, value: Val)
      requires Awaiting(key)
      modifies this
      ensures Coherent() && data == old(data) + [Pair(key, value)]
      ensures old(DistinctKeys(data)) && !old(Has(data, key)) ==> Valid()
      ensures old(imp.RobinHood()) ==> Ordered()
    {
      PlacedPair(hash, data, key, value);
      data := data + [Pair(key, value)];
    }

    /**
     * `operator[]`: the dense index of key's pair, inserting (key, Val()) when
     * the insert loop does not meet key.  Every absent key is inserted; a
     * present one is found when the final table has no clamped field, or the
     * map was ordered and its growth safe.
     */
    method Subscript(key: Key) returns (index: nat)
      requires Coherent() && Settled() && CanGrow()
      modifies this, imp, imp.entries, imp.hashes
      ensures Coherent() && Settled() && index < |data| && data[index].key == key
      ensures data == old(data) || data == old(data) + [Pair(key, blank)]
      ensures !old(Has(data, key)) ==> data == old(data) + [Pair(key, blank)]
      ensures imp.Unclamped() || (old(Ordered()) && old(GrowSafe())) ==>
        (old(Has(data, key)) ==> data == old(data)) && (old(DistinctKeys(data)) ==> Valid())
      ensures imp.Unclamped() || (old(Ordered()) && old(GrowSafe()) && (old(Has(data, key)) || old(Separated(key)))) ==>
        Ordered()
    {
      var inserted;
      inserted, index := ImpInsert(key);
      if inserted {
        Construct(key, blank);
      }
    }

    /** The write through the reference `operator[]` returns: the value of pair `index`. */
    method Store(index: nat, value: Val)
      requires Coherent() && index < |data|
      modifies this
      ensures Coherent() && data == old(data)[index := Pair(old(data)[index].key, value)]
      ensures old(Valid()) ==> Valid()
      ensures old(Ordered()) ==> Ordered()
    {
      AssignedPair(hash, data, index, value);
      data := data[index := Pair(data[index].key, value)];
    }

    /**
     * `insert(key, value)`: add (key, value) unless the insert loop meets key,
     * which keeps its pair.  Exact under the conditions of ImpInsert.
     */
    method Insert(key: Key, value: Val) returns (index: nat, inserted: bool)
      requires Coherent() && Settled() && CanGrow()
      modifies this, imp, imp.entries, imp.hashes
      ensures Coherent() && Settled() && index < |data| && data[index].key == key
      ensures inserted ==> data == old(data) + [Pair(key, value)]
      ensures !inserted ==> data == old(data) && old(Has(data, key))
      ensures imp.Unclamped() || (old(Ordered()) && old(GrowSafe())) ==>
        (inserted <==> !old(Has(data, key))) && (old(DistinctKeys(data)) ==> Valid())
      ensures imp.Unclamped() || (old(Ordered()) && old(GrowSafe()) && (!inserted || old(Separated(key)))) ==> Ordered()
    {
      inserted, index := ImpInsert(key);
      if inserted {
        Construct(key, value);
      }
    }

    /**
     * `insert_or_assign(key, value)`: add (key, value), or overwrite the value
     * of the pair the insert loop meets.  Exact under the conditions of ImpInsert.
     */
    method InsertOrAssign(key: Key, value: Val) returns (index: nat, inserted: bool)
      requires Coherent() && Settled() && CanGrow()
      modifies this, imp, imp.entries, imp.hashes
      ensures Coherent() && Settled() && index < |data| && data[index] == Pair(key, value)
      ensures inserted ==> data == old(data) + [Pair(key, value)]
      ensures !inserted ==> index < |old(data)| && old(data)[index].key == key && data == old(data)[index := Pair(key, value)]
      ensures imp.Unclamped() || (old(Ordered()) && old(GrowSafe())) ==>
        (inserted <==> !old(Has(data, key))) && (old(DistinctKeys(data)) ==> Valid())
      ensures imp.Unclamped() || (old(Ordered()) && old(GrowSafe()) && (!inserted || old(Separated(key)))) ==> Ordered()
    {
      inserted, index := ImpInsert(key);
      Emplace(key, value, inserted, index);
    }

    /** The second half of `insert_or_assign`: construct the new pair, or overwrite the value of the one met. */
    method Emplace(key: Key, value: Val, inserted: bool, index: nat)
      requires inserted ==> Awaiting(key) && index == |data|
      requires !inserted ==> Coherent() && index < |data| && data[index].key == key
      modifies this
      ensures Coherent() && index < |data| && data[index] == Pair(key, value)
      ensures inserted ==> data == old(data) + [Pair(key, value)]
      ensures !inserted ==> old(Has(data, key)) && data == old(data)[index := Pair(key, value)]
      ensures old(DistinctKeys(data)) && (!inserted || !old(Has(data, key))) ==> Valid()
      ensures old(imp.RobinHood()) ==> Ordered()
    {
      if inserted {
        Construct(key, value);
      } else {
        Store(index, value);
      }
    }

    /**
     * The engine has removed dense index r (moving its last element into r
     * when r was not last), and the pairs are yet to follow.
     */
    ghost predicate Removed(r: nat, moved: bool, dst: u32, src: u32)
      reads this, imp, imp.entries, imp.hashes
    {
      r < |data| && imp.RobinHood() && imp.size == |data| - 1 &&
      imp.Contents() == SwapRemove(HashesOf(hash, data), r) &&
      imp.capacity == RhSizing.Capacity(imp.mask + 1) &&
      (moved <==> r < |data| - 1) && (moved ==> dst == r && src == |data| - 1)
    }

    /** `data[dst] = data[src]` after a remove that moved, and the end of the live pairs. */
    method MovePair(ghost r: nat, moved: bool, dst: u32, src: u32)
      requires Removed(r, moved, dst, src)
      modifies this
      ensures Coherent() && Ordered() && data == Erased(old(data), r)
      ensures DistinctKeys(old(data)) ==> Valid()
    {
      ghost var d0 := data;
      if moved {
        data := data[dst := data[src]];
      }
      data := data[..|data| - 1];
      assert data == Erased(d0, r);
      if DistinctKeys(d0) {
        ErasedPairs(d0, r);
      }
      ErasedHashes(hash, d0, r);
    }

    /**
     * `erase_key(k)`: find the pair holding k and remove it; the last pair
     * moves into the freed dense index.
     */
    method EraseKey(k: Key) returns (erased: bool)
      requires Coherent() && Ordered() && (imp.Table() || imp.Sentinel())
      modifies this, imp, imp.entries, imp.hashes
      ensures Coherent() && Ordered() && (old(Valid()) ==> Valid())
      ensures erased <==> old(Has(data, k))
      ensures erased ==> exists i :: 0 <= i < |old(data)| && old(data)[i].key == k && data == Erased(old(data), i)
      ensures erased && old(Valid()) ==> data == Erased(old(data), old(KeyIndex(data, k)))
      ensures !erased ==> data == old(data)
    {
      var found, index, scan := Locate(k);
      if !found {
        return false;
      }
      ghost var d0 := data;
      assert Valid() ==> KeyIndex(data, k) == index;
      RemoveLocated(k, index, scan);
      assert 0 <= index < |d0| && d0[index].key == k && data == Erased(d0, index);
      return true;
    }

    /** The tail of `erase_key`: remove the element the search of k found, then its pair. */
    method RemoveLocated(k: Key, index: nat, scan: u32)
      requires Coherent() && Ordered() && index < |data| && data[index].key == k
      requires imp.Table() && 1 <= scan < imp.mask + 1 && Located(hash(k) % K, scan, index)
      modifies this, imp, imp.entries, imp.hashes
      ensures Coherent() && Ordered() && data == Erased(old(data), index)
      ensures old(Valid()) ==> Valid()
    {
      var h := hash(k);
      ghost var hs := HashesOf(hash, data);
      ghost var t := (h % K + scan - 1) % (imp.mask + 1);
      assert imp.Contents() == hs && Idx(imp.entries[t], imp.mask + 1) == index;
      var moved, dst, src := imp.Remove(h, scan, t);
      assert imp.Contents() == SwapRemove(hs, index) && imp.RobinHood();
      assert (moved <==> index < |data| - 1) && (moved ==> dst == index && src == |data| - 1);
      MovePair(index, moved, dst, src);
    }

    /** `erase(p)`: remove the pair at dense index `index`; the last pair moves into it. */
    method EraseAt(index: nat) returns (next: nat)
      requires Coherent() && Ordered() && index < |data|
      modifies this, imp, imp.entries, imp.hashes
      ensures Coherent() && Ordered() && data == Erased(old(data), index) && next == index
      ensures old(Valid()) ==> Valid()
    {
      var moved, dst, src := imp.RemoveIndex(index);
      MovePair(index, moved, dst, src);
      next := index;
    }
  }
}
