/** The allocator of a virtual address space that starts at 0: an explicit free list plus the
    counters kept beside it. */
module AddressSpace {
  import opened Basics
  import opened Alignment
  import opened FreeList

  /** Every free block starts at a multiple of `align`, and the last free block reaches the end of
      a heap whose size is not such a multiple. */
  ghost predicate AlignedList(bs: seq<Block>, heap: int, align: int)
    requires align > 0
  {
    && (forall i :: 0 <= i < |bs| ==> bs[i].start % align == 0)
    && (heap % align != 0 ==> |bs| > 0 && bs[|bs| - 1].End() == heap)
  }

  lemma AllocKeepsAligned(bs: seq<Block>, heap: int, align: int, n: int)
    requires Wf(bs, heap) && align > 0 && AlignedList(bs, heap, align) && n > 0 && n % align == 0 && Alloc(bs, n).Some?
    ensures Alloc(bs, n).value.0 % align == 0
    ensures AlignedList(Alloc(bs, n).value.1, heap, align)
  {
    var i := FirstFit(bs, n);
    var s := Alloc(bs, n).value.1;
    ModAdd(bs[i].start, n, align);
    if heap % align != 0 {
      var last := |bs| - 1;
      if i < last { assert s[|s| - 1] == bs[last]; }
      else { assert s[|s| - 1] == Block(bs[i].start + n, bs[i].size - n); }
    }
  }

  /** Releasing adds no block start but the released address. */
  lemma ReleaseStarts(bs: seq<Block>, heap: int, a: int, n: int, s: seq<Block>, k: nat)
    requires Wf(bs, heap) && InUse(bs, heap, a, n) && s == Release(bs, a, n) && k < |s|
    ensures s[k].start == a || exists j :: 0 <= j < |bs| && s[k].start == bs[j].start
  {
    ReleaseNeighbours(bs, heap, a, n);
    var i, c := Position(bs, a), Block(a, n);
    SpliceAt(bs, Lo(bs, i, c), Hi(bs, i, c), Merged(bs, i, c), k);
  }

  lemma ReleaseReaches(bs: seq<Block>, heap: int, a: int, n: int, s: seq<Block>)
    requires Wf(bs, heap) && InUse(bs, heap, a, n) && s == Release(bs, a, n)
    requires |bs| > 0 && bs[|bs| - 1].End() == heap
    ensures s[|s| - 1].End() == heap
  {
    ReleaseNeighbours(bs, heap, a, n);
    var i, c := Position(bs, a), Block(a, n);
    SpliceAt(bs, Lo(bs, i, c), Hi(bs, i, c), Merged(bs, i, c), |s| - 1);
  }

  lemma ReleaseKeepsAligned(bs: seq<Block>, heap: int, align: int, a: int, n: int)
    requires Wf(bs, heap) && align > 0 && AlignedList(bs, heap, align)
    requires InUse(bs, heap, a, n) && a % align == 0 && n % align == 0
    ensures AlignedList(Release(bs, a, n), heap, align)
  {
    var s := Release(bs, a, n);
    forall k | 0 <= k < |s| ensures s[k].start % align == 0 { ReleaseStarts(bs, heap, a, n, s, k); }
    if heap % align != 0 { ReleaseReaches(bs, heap, a, n, s); }
  }

  lemma GrowKeepsAligned(bs: seq<Block>, heap: int, align: int, n: int)
    requires Wf(bs, heap) && align > 0 && AlignedList(bs, heap, align) && n >= 0 && n % align == 0
    ensures AlignedList(Grow(bs, heap, n), heap + n, align)
  {
    if heap % align == 0 { ModAdd(heap, n, align); }
  }

  lemma {:induction false} RangeSize(a: int, n: nat)
    ensures |Range(a, n)| == n
    decreases n
  {
    if n == 0 {
      assert Range(a, 0) == {};
    } else {
      assert Range(a, n) == Range(a, n - 1) + {a + n - 1};
      RangeSize(a, n - 1);
    }
  }

  /** The state of an address space: its free list, its size, the bytes in use and their count. */
  datatype Heap = Heap(blocks: seq<Block>, size: int, used: set<int>, total: int)

  /** The free blocks and the bytes in use partition the heap, and the counter agrees. */
  ghost predicate Inv(h: Heap) {
    match h
    case Heap(bs, size, used, total) =>
      && size >= 0 && Wf(bs, size)
      && Bytes(bs) !! used && Bytes(bs) + used == Range(0, size)
      && total == |used| && Sum(bs) + total == size
  }

  /** `Inv` at the end of two recursive steps, so that proofs about the clients of an address
      space do not unfold it. */
  ghost predicate Sound(h: Heap, steps: nat := 2) {
    if steps > 0 then Sound(h, steps - 1) else Inv(h)
  }

  lemma SoundIsInv(h: Heap)
    ensures Sound(h) <==> Inv(h)
  {
    assert Sound(h, 1) <==> Sound(h, 0);
  }

  lemma SoundWf(h: Heap)
    requires Sound(h)
    ensures Wf(h.blocks, h.size)
  {
    SoundIsInv(h);
  }

  lemma InitSound(size: nat)
    ensures Sound(Heap([Block(0, size)], size, {}, 0))
  {
    var h := Heap([Block(0, size)], size, {}, 0);
    Single(Block(0, size));
    PartsInv(h, Range(0, size));
    SoundIsInv(h);
  }

  lemma AllocSound(h: Heap, n: int, a: int, bs': seq<Block>, h': Heap)
    requires Sound(h) && n > 0 && Alloc(h.blocks, n) == Some((a, bs'))
    requires h' == Heap(bs', h.size, h.used + Range(a, n), h.total + n)
    ensures Sound(h')
    ensures Range(a, n) !! h.used && 0 <= a && a + n <= h.size
  {
    SoundIsInv(h);
    SoundIsInv(h');
    AllocEffect(h.blocks, h.size, n, a, bs');
    RangeSize(a, n);
  }

  lemma InUseRange(h: Heap, a: int, n: int)
    requires Inv(h) && n > 0 && Range(a, n) <= h.used
    ensures InUse(h.blocks, h.size, a, n)
  {
    assert a in Range(a, n) && a + n - 1 in Range(a, n);
    assert a in Range(0, h.size) && a + n - 1 in Range(0, h.size);
  }

  lemma ReleaseSound(h: Heap, a: int, n: int, h': Heap)
    requires Sound(h) && n > 0 && Range(a, n) <= h.used
    requires h' == Heap(Release(h.blocks, a, n), h.size, h.used - Range(a, n), h.total - n)
    ensures InUse(h.blocks, h.size, a, n)
    ensures Sound(h')
  {
    SoundIsInv(h);
    SoundIsInv(h');
    InUseRange(h, a, n);
    ReleaseEffect(h.blocks, h.size, a, n);
    RangeSize(a, n);
  }

  lemma GrowSound(h: Heap, n: int, h': Heap)
    requires Sound(h) && n >= 0 && h' == Heap(Grow(h.blocks, h.size, n), h.size + n, h.used, h.total)
    ensures Sound(h')
  {
    SoundIsInv(h);
    var free := Bytes(h.blocks);
    GrowEffect(h.blocks, h.size, n);
    GrowPartition(free, h.used, h.size, n);
    PartsInv(h', free + Range(h.size, n));
    SoundIsInv(h');
  }

  lemma PartsInv(h: Heap, free: set<int>)
    requires h.size >= 0 && Wf(h.blocks, h.size) && Bytes(h.blocks) == free
    requires free !! h.used && free + h.used == Range(0, h.size)
    requires h.total == |h.used| && Sum(h.blocks) + h.total == h.size
    ensures Inv(h)
  {
  }

  lemma GrowPartition(free: set<int>, used: set<int>, size: nat, n: nat)
    requires free !! used && free + used == Range(0, size)
    ensures (free + Range(size, n)) !! used && free + Range(size, n) + used == Range(0, size + n)
  {
  }

  /** `SortedList.add` on a list ordered by start. */
  function Inserted(bs: seq<Block>, b: Block): seq<Block> {
    Splice(bs, Position(bs, b.start), Position(bs, b.start), [b])
  }

  /** `SortedList.remove` of the block at index `i`. */
  function Removed(bs: seq<Block>, i: nat): seq<Block>
    requires i < |bs|
  {
    bs[..i] + bs[i + 1..]
  }

  lemma InsertedAt(bs: seq<Block>, b: Block, k: nat)
    requires k <= |bs|
    requires forall i :: 0 <= i < k ==> bs[i].start < b.start
    requires forall i :: k <= i < |bs| ==> b.start < bs[i].start
    ensures Inserted(bs, b) == Splice(bs, k, k, [b])
  {
    var p := Position(bs, b.start);
    var atP := if p < |bs| then bs[p].start else b.start;
    var atK := if k < |bs| then bs[k].start else b.start;
    assert p == k;
  }

  lemma CutAndSplice(bs: seq<Block>, i: nat, b: Block)
    requires i < |bs|
    ensures Splice(Removed(bs, i), i, i, [b]) == Splice(bs, i, i + 1, [b])
  {
  }

  lemma RemoveThenAdd(bs: seq<Block>, heap: int, i: nat, b: Block)
    requires Wf(bs, heap) && i < |bs| && bs[i].start <= b.start <= bs[i].End()
    ensures Inserted(Removed(bs, i), b) == Splice(bs, i, i + 1, [b])
  {
    var without := Removed(bs, i);
    InsertedAt(without, b, i);
    CutAndSplice(bs, i, b);
  }

  /** Remove the block at index `i`; add what is left of it after its first `need` bytes. */
  method TakeFront(bs: seq<Block>, ghost heap: int, i: nat, need: int) returns (r: seq<Block>)
    requires Wf(bs, heap) && need > 0 && i == FirstFit(bs, need) < |bs|
    ensures Alloc(bs, need) == Some((bs[i].start, r))
  {
    r := Removed(bs, i);
    assert r == Splice(bs, i, i + 1, []);
    if bs[i].size > need {
      RemoveThenAdd(bs, heap, i, Block(bs[i].start + need, bs[i].size - need));
      r := Inserted(r, Block(bs[i].start + need, bs[i].size - need));
    }
  }

  lemma ReleaseRight(bs: seq<Block>, heap: int, a: int, n: int, i: nat)
    requires Wf(bs, heap) && InUse(bs, heap, a, n) && i == Position(bs, a)
    ensures forall j :: i < j < |bs| ==> a + n < bs[j].start
  {
    ReleaseNeighbours(bs, heap, a, n);
    forall j | i < j < |bs| ensures a + n < bs[j].start { assert bs[i].End() < bs[j].start; }
  }

  lemma ReleasePlace(bs: seq<Block>, heap: int, a: int, n: int)
    requires Wf(bs, heap) && InUse(bs, heap, a, n)
    ensures var i, c := Position(bs, a), Block(a, n);
            Lo(bs, i, c) == i == Hi(bs, i, c) ==> Inserted(bs, c) == Release(bs, a, n)
  {
    var i, c := Position(bs, a), Block(a, n);
    assert JoinAt(bs, i, c) == Release(bs, a, n);
    if Lo(bs, i, c) == i == Hi(bs, i, c) {
      assert JoinAt(bs, i, c) == Splice(bs, i, i, [c]);
    }
  }

  lemma BesideRemoved(bs: seq<Block>, i: nat, start: int)
    requires i < |bs|
    requires forall j :: 0 <= j < i ==> bs[j].start < start
    requires forall j :: i < j < |bs| ==> start < bs[j].start
    ensures forall j :: 0 <= j < i ==> Removed(bs, i)[j].start < start
    ensures forall j :: i <= j < |bs| - 1 ==> start < Removed(bs, i)[j].start
  {
    var r := Removed(bs, i);
    forall j | i <= j < |bs| - 1 ensures r[j] == bs[j + 1] {}
  }

  lemma JoinSucc(bs: seq<Block>, i: nat, c: Block, b: Block)
    requires i < |bs| && c.End() == bs[i].start && b == Block(c.start, bs[i].size + c.size)
    requires i > 0 ==> bs[i - 1].End() != c.start
    ensures JoinAt(bs, i, c) == Splice(bs, i, i + 1, [b])
  {
  }

  lemma RemoveInsert(bs: seq<Block>, i: nat, b: Block)
    requires i < |bs|
    requires forall j :: 0 <= j < i ==> bs[j].start < b.start
    requires forall j :: i < j < |bs| ==> b.start < bs[j].start
    ensures Inserted(Removed(bs, i), b) == Splice(bs, i, i + 1, [b])
  {
    BesideRemoved(bs, i, b.start);
    InsertedAt(Removed(bs, i), b, i);
    CutAndSplice(bs, i, b);
  }

  lemma MoveSuccDown(bs: seq<Block>, i: nat, c: Block, b: Block)
    requires i < |bs| && c.End() == bs[i].start && c.size >= 0 && b == Block(bs[i].start - c.size, bs[i].size + c.size)
    requires forall j :: 0 <= j < i ==> bs[j].start < c.start
    requires forall j :: i < j < |bs| ==> c.End() < bs[j].start
    requires i > 0 ==> bs[i - 1].End() != c.start
    ensures Inserted(Removed(bs, i), b) == JoinAt(bs, i, c)
  {
    RemoveInsert(bs, i, b);
    JoinSucc(bs, i, c, b);
  }

  lemma MergeBoth(bs: seq<Block>, i: nat, c: Block)
    requires 0 < i < |bs| && bs[i - 1].End() == c.start && c.End() == bs[i].start
    ensures Removed(bs[i - 1 := Block(bs[i - 1].start, bs[i - 1].size + c.size + bs[i].size)], i) == JoinAt(bs, i, c)
  {
  }

  lemma MergePrev(bs: seq<Block>, i: nat, c: Block)
    requires 0 < i <= |bs| && bs[i - 1].End() == c.start && (i < |bs| ==> c.End() != bs[i].start)
    ensures bs[i - 1 := Block(bs[i - 1].start, bs[i - 1].size + c.size)] == JoinAt(bs, i, c)
  {
  }

  lemma InsertedLast(bs: seq<Block>, heap: int, c: Block)
    requires Wf(bs, heap) && c.start == heap && (|bs| > 0 ==> bs[|bs| - 1].End() != heap)
    ensures Inserted(bs, c) == bs + [c]
  {
    assert forall i :: 0 <= i < |bs| ==> bs[i].start < heap;
    InsertedAt(bs, c, |bs|);
  }

  lemma GrowIsJoin(bs: seq<Block>, heap: int, n: int)
    requires Wf(bs, heap) && n >= 0
    ensures Lo(bs, |bs|, Block(heap, n)) < |bs| ==> JoinAt(bs, |bs|, Block(heap, n)) == Grow(bs, heap, n)
    ensures Lo(bs, |bs|, Block(heap, n)) == |bs| ==> Inserted(bs, Block(heap, n)) == Grow(bs, heap, n)
  {
    var c := Block(heap, n);
    if Lo(bs, |bs|, c) < |bs| {
      MergePrev(bs, |bs|, c);
    } else {
      InsertedLast(bs, heap, c);
    }
  }

  class AddressManager {
    const align: int
    var size: int
    var blocks: seq<Block>
    var totalAllocated: int
    /** The bytes handed out and not yet given back. */
    ghost var inUse: set<int>

    ghost predicate Valid()
      reads this
    {
      align > 0 && Sound(State())
    }

    ghost function State(): Heap
      reads this
    {
      Heap(blocks, size, inUse, totalAllocated)
    }

    constructor (size: nat, align: int)
      requires align > 0
      ensures Valid() && this.size == size && this.align == align && inUse == {}
    {
      this.size := size;
      this.align := align;
      blocks := [Block(0, size)];
      totalAllocated := 0;
      inUse := {};
      new;
      InitSound(size);
    }

    function ComputeAlignedSize(rawSize: int): (r: int)
      requires align > 0
      ensures rawSize <= r < rawSize + align
      ensures IsPow2(align) ==> r % align == 0
    {
      AlignToBounds(rawSize, align);
      assert IsPow2(align) ==> AlignTo(rawSize, align) % align == 0 by {
        if IsPow2(align) { AlignToLeast(rawSize, align); }
      }
      AlignTo(rawSize, align)
    }

    /** First fit. Fails, changing nothing, exactly when no run of `ComputeAlignedSize(n)` free
        bytes exists; otherwise hands out the lowest such run. */
    method Allocate(n: int) returns (r: Option<(int, int)>)
      requires Valid() && n > 0
      modifies this
      ensures Valid() && size == old(size)
      ensures r.None? <==> Alloc(old(blocks), ComputeAlignedSize(n)).None?
      ensures r.None? <==> !exists a :: FreeRun(old(blocks), a, ComputeAlignedSize(n))
      ensures r.None? ==> blocks == old(blocks) && inUse == old(inUse)
      ensures r.Some? ==>
                && Alloc(old(blocks), r.value.1) == Some((r.value.0, blocks))
                && r.value.1 == ComputeAlignedSize(n)
                && FreeRun(old(blocks), r.value.0, r.value.1)
                && (forall a :: FreeRun(old(blocks), a, r.value.1) ==> r.value.0 <= a)
                && Range(r.value.0, r.value.1) !! old(inUse)
                && inUse == old(inUse) + Range(r.value.0, r.value.1)
                && 0 <= r.value.0 && r.value.0 + r.value.1 <= size
    {
      var need := ComputeAlignedSize(n);
      SoundWf(State());
      AllocFindsLowestRun(blocks, size, need);
      var i := FindBlock(need);
      if i == |blocks| {
        return None;
      }
      var start := blocks[i].start;
      ghost var h := State();
      var left := TakeFront(blocks, size, i, need);
      ghost var h' := Heap(left, size, inUse + Range(start, need), totalAllocated + need);
      AllocSound(h, need, start, left, h');
      blocks := left;
      totalAllocated := totalAllocated + need;
      inUse := inUse + Range(start, need);
      assert State() == h';
      r := Some((start, need));
    }

    /** The scan for the first block that is large enough. */
    method FindBlock(need: int) returns (i: nat)
      ensures i == FirstFit(blocks, need)
    {
      i := 0;
      while i < |blocks| && blocks[i].size < need
        invariant i <= |blocks|
        invariant forall j :: 0 <= j < i ==> blocks[j].size < need
      {
        i := i + 1;
      }
    }

    /** Join `curr` with the block before index `i` and the block at `i` when it touches them. */
    method Coalesce(curr: Block, i: nat) returns (coalesced: bool)
      requires i <= |blocks| && curr.size >= 0
      requires i < |blocks| ==> forall j :: 0 <= j < i ==> blocks[j].start < curr.start
      requires forall j :: i < j < |blocks| ==> curr.End() < blocks[j].start
      modifies this`blocks
      ensures coalesced <==> Lo(old(blocks), i, curr) < i || i < Hi(old(blocks), i, curr)
      ensures blocks == if coalesced then JoinAt(old(blocks), i, curr) else old(blocks)
    {
      var bs := blocks;
      var mergePrev := i > 0 && bs[i - 1].End() == curr.start;
      var mergeSucc := i < |bs| && curr.End() == bs[i].start;
      if mergePrev && mergeSucc {
        MergeBoth(bs, i, curr);
        var prev := Block(bs[i - 1].start, bs[i - 1].size + curr.size + bs[i].size);
        bs := Removed(bs[i - 1 := prev], i);
      } else if mergePrev {
        MergePrev(bs, i, curr);
        var prev := Block(bs[i - 1].start, bs[i - 1].size + curr.size);
        bs := bs[i - 1 := prev];
      } else if mergeSucc {
        var succ := Block(bs[i].start - curr.size, bs[i].size + curr.size);
        MoveSuccDown(bs, i, curr, succ);
        bs := Inserted(Removed(bs, i), succ);
      }
      blocks := bs;
      return mergePrev || mergeSucc;
    }

    /** Give back bytes in use; neighbours are joined. */
    method Free(address: int, n: int)
      requires Valid() && n > 0 && Range(address, n) <= inUse
      modifies this
      ensures Valid() && size == old(size)
      ensures blocks == Release(old(blocks), address, n)
      ensures inUse == old(inUse) - Range(address, n)
      ensures totalAllocated == old(totalAllocated) - n
    {
      SoundWf(State());
      ghost var released := Release(blocks, address, n);
      ghost var h' := Heap(released, size, inUse - Range(address, n), totalAllocated - n);
      ReleaseSound(State(), address, n, h');
      ReleasePlace(blocks, size, address, n);
      ReleaseRight(blocks, size, address, n, Position(blocks, address));
      var curr := Block(address, n);
      var index := Position(blocks, address);
      var coalesced := Coalesce(curr, index);
      if !coalesced {
        blocks := Inserted(blocks, curr);
      }
      totalAllocated := totalAllocated - n;
      inUse := inUse - Range(address, n);
      assert State() == h';
    }

    /** Extend the heap; the new bytes are free. */
    method Sbrk(n: nat)
      requires Valid()
      modifies this
      ensures Valid() && size == old(size) + ComputeAlignedSize(n)
      ensures blocks == Grow(old(blocks), old(size), ComputeAlignedSize(n))
      ensures inUse == old(inUse) && totalAllocated == old(totalAllocated)
    {
      var more := ComputeAlignedSize(n);
      var newBlock := Block(size, more);
      SoundWf(State());
      GrowIsJoin(blocks, size, more);
      var coalesced := Coalesce(newBlock, |blocks|);
      if !coalesced {
        blocks := Inserted(blocks, newBlock);
      }
      size := size + more;
      GrowSound(old(State()), more, State());
    }

    /** The counters give the size of the free list. */
    function GetFreeSize(): (r: int)
      requires Valid()
      reads this
      ensures r == Sum(blocks)
    {
      SoundIsInv(State());
      size - totalAllocated
    }

    /** The source's self check: no two neighbours could be coalesced, and the sizes add up. */
    method CheckConsistency() returns (ok: bool)
      requires Valid()
      ensures ok
    {
      SoundIsInv(State());
      var i := 0;
      while i + 1 < |blocks|
        invariant 0 <= i <= |blocks|
      {
        if blocks[i].End() == blocks[i + 1].start { return false; }
        i := i + 1;
      }
      var totalFree := 0;
      i := 0;
      while i < |blocks|
        invariant 0 <= i <= |blocks| && totalFree == Sum(blocks[..i])
      {
        assert blocks[..i + 1] == blocks[..i] + [blocks[i]];
        SumAppend(blocks[..i], [blocks[i]]);
        totalFree := totalFree + blocks[i].size;
        i := i + 1;
      }
      assert blocks[..i] == blocks;
      return totalFree + totalAllocated == size;
    }
  }
}
