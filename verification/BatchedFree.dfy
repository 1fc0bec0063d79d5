/** Freeing many objects: one by one, or sorted and merged first. Both skip objects that are no
    longer valid, including repeats of one freed earlier in the same batch. */
module BatchedFree {
  import opened Basics
  import opened FreeList
  import opened AddressSpace
  import opened Coalescing
  import opened Lifetime
  import opened ObjectTable

  function Invalidated(t: Table, k: nat): Table
    requires k in t
  {
    t[k := t[k].(life := t[k].life.(live := false))]
  }

  // ----- one by one

  datatype Freed = Freed(blocks: seq<Block>, table: Table)

  function FreeOne(f: Freed, k: nat): Freed {
    if IsLive(f.table, k)
    then Freed(Release(f.blocks, f.table[k].address, f.table[k].phySize), Invalidated(f.table, k))
    else f
  }

  function FreeEach(f: Freed, ks: seq<nat>): Freed {
    if ks == [] then f else FreeOne(FreeEach(f, ks[..|ks| - 1]), ks[|ks| - 1])
  }

  // ----- merged

  datatype Batch = Batch(table: Table, pieces: seq<Block>, counts: seq<nat>)

  function MergeOne(b: Batch, k: nat): Batch
    requires |b.pieces| == |b.counts|
  {
    if IsLive(b.table, k)
    then Batch(Invalidated(b.table, k), Extend(b.pieces, b.table[k].Extent()), Tally(b.pieces, b.counts, b.table[k].Extent()))
    else b
  }

  function MergeEach(t: Table, ks: seq<nat>): (b: Batch)
    ensures |b.pieces| == |b.counts|
  {
    if ks == [] then Batch(t, [], []) else MergeOne(MergeEach(t, ks[..|ks| - 1]), ks[|ks| - 1])
  }

  // ----- what both do

  /** The bytes that belong to the objects in `ks`. */
  ghost function BytesOf(owner: map<int, nat>, ks: seq<nat>): set<int> {
    set x | x in owner && owner[x] in ks
  }

  /** The table after the objects in `ks` were freed. */
  ghost predicate Without(t: Table, t': Table, ks: seq<nat>) {
    && t'.Keys == t.Keys
    && (forall k :: k in t && k !in ks ==> t'[k] == t[k])
    && (forall k :: k in t && k in ks ==> t'[k] == t[k].(life := t[k].life.(live := false)))
  }

  lemma WithoutUnique(t: Table, t1: Table, t2: Table, ks: seq<nat>, ms: seq<nat>)
    requires Without(t, t1, ks) && Without(t, t2, ms) && forall k :: k in ks <==> k in ms
    ensures t1 == t2
  {
  }

  lemma WithoutStep(t: Table, t1: Table, ks: seq<nat>, k: nat)
    requires Without(t, t1, ks)
    ensures IsLive(t1, k) ==> Without(t, Invalidated(t1, k), ks + [k])
    ensures !IsLive(t1, k) ==> Without(t, t1, ks + [k])
    ensures IsLive(t1, k) ==> IsLive(t, k) && t1[k] == t[k] && k !in ks
  {
    var ms := ks + [k];
    assert forall m :: m in ms <==> m in ks || m == k;
  }

  /** A live object owns exactly its own bytes. */
  lemma OwnBytes(t: Table, used: set<int>, owner: map<int, nat>, ks: seq<nat>, k: nat)
    requires Shared(t, used, owner) && IsLive(t, k) && k !in ks
    ensures BytesOf(owner, ks + [k]) == BytesOf(owner, ks) + t[k].Span() && BytesOf(owner, ks) !! t[k].Span()
    ensures t[k].Span() <= used
  {
    var ms := ks + [k];
    assert forall m :: m in ms <==> m in ks || m == k;
  }

  lemma NoBytesOfDead(t: Table, used: set<int>, owner: map<int, nat>, ks: seq<nat>, k: nat)
    requires Shared(t, used, owner) && (!IsLive(t, k) || k in ks)
    ensures BytesOf(owner, ks + [k]) == BytesOf(owner, ks)
  {
    var ms := ks + [k];
    assert forall m :: m in ms <==> m in ks || m == k;
    forall x | x in owner && owner[x] in ms ensures owner[x] in ks { assert IsLive(t, owner[x]); }
  }

  /** `bs` is the free list of `h` with the bytes in `gone` free as well. */
  ghost predicate ListWith(h: Heap, bs: seq<Block>, gone: set<int>) {
    && Wf(bs, h.size) && Bytes(bs) == Bytes(h.blocks) + gone
    && (HasTail(bs) <==> HasTail(h.blocks) && h.size - 1 !in gone)
  }

  lemma {:induction false} FreeEachTable(f: Freed, ks: seq<nat>)
    ensures Without(f.table, FreeEach(f, ks).table, ks)
    decreases |ks|
  {
    if |ks| > 0 {
      FreeEachTable(f, ks[..|ks| - 1]);
      WithoutStep(f.table, FreeEach(f, ks[..|ks| - 1]).table, ks[..|ks| - 1], ks[|ks| - 1]);
      assert ks == ks[..|ks| - 1] + [ks[|ks| - 1]];
    }
  }

  lemma {:induction false} FreeEachList(h: Heap, t: Table, used: set<int>, owner: map<int, nat>, ks: seq<nat>)
    requires Sound(h) && used <= h.used && Shared(t, used, owner)
    ensures ListWith(h, FreeEach(Freed(h.blocks, t), ks).blocks, BytesOf(owner, ks))
    decreases |ks|
  {
    if |ks| == 0 {
      SoundIsInv(h);
    } else {
      var pre, k := ks[..|ks| - 1], ks[|ks| - 1];
      assert ks == pre + [k];
      FreeEachList(h, t, used, owner, pre);
      var f := FreeEach(Freed(h.blocks, t), pre);
      FreeEachTable(Freed(h.blocks, t), pre);
      WithoutStep(t, f.table, pre, k);
      if IsLive(f.table, k) {
        OwnBytes(t, used, owner, pre, k);
        FreeOneList(h, f.blocks, BytesOf(owner, pre), t[k].address, t[k].phySize);
      } else {
        NoBytesOfDead(t, used, owner, pre, k);
      }
    }
  }

  lemma FreeOneList(h: Heap, bs: seq<Block>, gone: set<int>, a: int, n: int)
    requires Sound(h) && ListWith(h, bs, gone) && n > 0 && Range(a, n) <= h.used && Range(a, n) !! gone
    ensures ListWith(h, Release(bs, a, n), gone + Range(a, n))
  {
    SoundIsInv(h);
    InUseRange(h, a, n);
    ReleaseEffect(bs, h.size, a, n);
  }

  // ----- the merge loop

  ghost predicate SortedByAddress(t: Table, ks: seq<nat>) {
    && (forall i :: 0 <= i < |ks| ==> ks[i] in t)
    && (forall i, j :: 0 <= i < j < |ks| ==> t[ks[i]].address <= t[ks[j]].address)
  }

  /** The last piece ends where one of the freed objects ends. */
  ghost predicate EndsAtFreed(t: Table, ks: seq<nat>, pieces: seq<Block>)
    requires forall i :: 0 <= i < |ks| ==> ks[i] in t
  {
    |pieces| > 0 ==> exists i :: 0 <= i < |ks| && IsLive(t, ks[i]) && pieces[|pieces| - 1].End() == t[ks[i]].Extent().End()
  }

  lemma {:induction false} MergeEachEffect(t: Table, used: set<int>, owner: map<int, nat>, ks: seq<nat>)
    requires Shared(t, used, owner) && SortedByAddress(t, ks)
    ensures var b := MergeEach(t, ks);
            && Without(t, b.table, ks) && Ordered(b.pieces) && Gapped(b.pieces) && Bytes(b.pieces) == BytesOf(owner, ks)
            && EndsAtFreed(t, ks, b.pieces)
    decreases |ks|
  {
    if |ks| > 0 {
      var pre, k := ks[..|ks| - 1], ks[|ks| - 1];
      assert ks == pre + [k];
      MergeEachEffect(t, used, owner, pre);
      var b := MergeEach(t, pre);
      WithoutStep(t, b.table, pre, k);
      if IsLive(b.table, k) {
        MergeLive(t, used, owner, ks, k, b.pieces);
      } else {
        NoBytesOfDead(t, used, owner, pre, k);
        KeepsEnd(t, ks, b.pieces);
      }
    }
  }

  lemma MergeLive(t: Table, used: set<int>, owner: map<int, nat>, ks: seq<nat>, k: nat, pieces: seq<Block>)
    requires Shared(t, used, owner) && SortedByAddress(t, ks) && |ks| > 0 && k == ks[|ks| - 1]
    requires IsLive(t, k) && k !in ks[..|ks| - 1]
    requires Ordered(pieces) && Gapped(pieces) && Bytes(pieces) == BytesOf(owner, ks[..|ks| - 1]) && EndsAtFreed(t, ks[..|ks| - 1], pieces)
    ensures var out := Extend(pieces, t[k].Extent());
            Ordered(out) && Gapped(out) && Bytes(out) == BytesOf(owner, ks) && EndsAtFreed(t, ks, out)
  {
    assert ks == ks[..|ks| - 1] + [k];
    OwnBytes(t, used, owner, ks[..|ks| - 1], k);
    LastPieceBelow(t, used, owner, ks, pieces);
    ExtendEffect(pieces, t[k].Extent());
  }

  lemma KeepsEnd(t: Table, ks: seq<nat>, pieces: seq<Block>)
    requires |ks| > 0 && (forall i :: 0 <= i < |ks| ==> ks[i] in t) && EndsAtFreed(t, ks[..|ks| - 1], pieces)
    ensures EndsAtFreed(t, ks, pieces)
  {
    var pre := ks[..|ks| - 1];
    if |pieces| > 0 {
      var i :| 0 <= i < |pre| && IsLive(t, pre[i]) && pieces[|pieces| - 1].End() == t[pre[i]].Extent().End();
      assert ks[i] == pre[i];
    }
  }

  lemma LastPieceBelow(t: Table, used: set<int>, owner: map<int, nat>, ks: seq<nat>, pieces: seq<Block>)
    requires Shared(t, used, owner) && SortedByAddress(t, ks) && |ks| > 0
    requires IsLive(t, ks[|ks| - 1]) && ks[|ks| - 1] !in ks[..|ks| - 1] && EndsAtFreed(t, ks[..|ks| - 1], pieces)
    ensures |pieces| > 0 ==> pieces[|pieces| - 1].End() <= t[ks[|ks| - 1]].address
  {
    if |pieces| > 0 {
      var pre, k := ks[..|ks| - 1], ks[|ks| - 1];
      var i :| 0 <= i < |pre| && IsLive(t, pre[i]) && pieces[|pieces| - 1].End() == t[pre[i]].Extent().End();
      assert ks[i] == pre[i] && t[ks[i]].address <= t[k].address;
      LiveObjectsDisjoint(t, used, owner, pre[i], k);
    }
  }

  // ----- counters

  lemma {:induction false} MergeEachCounts(t: Table, ks: seq<nat>)
    ensures Total(MergeEach(t, ks).counts) + |Live(MergeEach(t, ks).table)| == |Live(t)|
    decreases |ks|
  {
    if |ks| > 0 {
      var pre, k := ks[..|ks| - 1], ks[|ks| - 1];
      MergeEachCounts(t, pre);
      var b := MergeEach(t, pre);
      if IsLive(b.table, k) {
        TallyTotal(b.pieces, b.counts, b.table[k].Extent());
        OneLess(b.table, k);
      }
    }
  }

  lemma OneLess(t: Table, k: nat)
    requires IsLive(t, k)
    ensures |Live(Invalidated(t, k))| == |Live(t)| - 1
  {
    var t' := Invalidated(t, k);
    assert forall m :: IsLive(t', m) <==> IsLive(t, m) && m != k;
    assert Live(t') == Live(t) - {k};
  }

  lemma MergedList(h: Heap, rs: seq<Block>, bs: seq<Block>, gone: set<int>)
    requires Wf(h.blocks, h.size) && Releasable(h.blocks, h.size, rs) && gone == Bytes(rs) && bs == ReleaseAll(h.blocks, rs)
    ensures ListWith(h, bs, gone)
  {
    ReleaseAllEffect(h.blocks, h.size, rs);
  }

  lemma ListWithUnique(h: Heap, b1: seq<Block>, b2: seq<Block>, gone: set<int>)
    requires ListWith(h, b1, gone) && ListWith(h, b2, gone)
    ensures b1 == b2
  {
    Canonical(b1, b2, h.size);
  }

  /** Merging first and freeing one by one, in whatever order and with whatever repeats, end in the
      same free list and the same objects. */
  lemma MergedEqualsOneByOne(h: Heap, t: Table, used: set<int>, owner: map<int, nat>, ks: seq<nat>, ms: seq<nat>)
    requires Sound(h) && used <= h.used && Shared(t, used, owner) && SortedByAddress(t, ks)
    requires forall k :: k in ks <==> k in ms
    ensures FreeEach(Freed(h.blocks, t), ms) == Freed(ReleaseAll(h.blocks, MergeEach(t, ks).pieces), MergeEach(t, ks).table)
  {
    var b, f := MergeEach(t, ks), FreeEach(Freed(h.blocks, t), ms);
    MergeEachEffect(t, used, owner, ks);
    FreeEachTable(Freed(h.blocks, t), ms);
    FreeEachList(h, t, used, owner, ms);
    WithoutUnique(t, b.table, f.table, ks, ms);
    assert BytesOf(owner, ks) == BytesOf(owner, ms);
    var merged := ReleaseAll(h.blocks, b.pieces);
    SoundWf(h);
    OrderedReleasable(h, b.pieces);
    MergedList(h, b.pieces, merged, BytesOf(owner, ks));
    ListWithUnique(h, f.blocks, merged, BytesOf(owner, ks));
  }

  /** Freeing the same objects in any order, with any repeats, ends in the same state. */
  lemma FreeOrderIrrelevant(h: Heap, t: Table, used: set<int>, owner: map<int, nat>, ks: seq<nat>, ms: seq<nat>)
    requires Sound(h) && used <= h.used && Shared(t, used, owner) && forall k :: k in ks <==> k in ms
    ensures FreeEach(Freed(h.blocks, t), ks) == FreeEach(Freed(h.blocks, t), ms)
  {
    var f, g := FreeEach(Freed(h.blocks, t), ks), FreeEach(Freed(h.blocks, t), ms);
    FreeEachTable(Freed(h.blocks, t), ks);
    FreeEachTable(Freed(h.blocks, t), ms);
    WithoutUnique(t, f.table, g.table, ks, ms);
    FreeEachList(h, t, used, owner, ks);
    FreeEachList(h, t, used, owner, ms);
    assert BytesOf(owner, ks) == BytesOf(owner, ms);
    ListWithUnique(h, f.blocks, g.blocks, BytesOf(owner, ks));
  }

  /** What is left of the ledger after a batch. */
  lemma SharedWithout(t: Table, used: set<int>, owner: map<int, nat>, t': Table, ks: seq<nat>)
    requires Shared(t, used, owner) && Without(t, t', ks)
    ensures Shared(t', used - BytesOf(owner, ks), owner - BytesOf(owner, ks))
  {
    assert forall k :: IsLive(t', k) <==> IsLive(t, k) && k !in ks;
  }
}
