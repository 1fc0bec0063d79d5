/** Whole runs of an address space: any sequence of allocations, releases and growth. */
module HeapRuns {
  import opened Basics
  import opened Alignment
  import opened FreeList
  import opened AddressSpace

  datatype Action = Allocate(n: int) | Free(a: int, n: int) | Sbrk(n: int)

  /** A new address space of `size` bytes. */
  function Fresh(size: nat): Heap { Heap([Block(0, size)], size, {}, 0) }

  ghost function Allocated(h: Heap, need: int): Heap {
    match Alloc(h.blocks, need)
    case None => h
    case Some((a, bs)) => Heap(bs, h.size, h.used + Range(a, need), h.total + need)
  }

  ghost function Freed(h: Heap, a: int, n: int): Heap {
    Heap(Release(h.blocks, a, n), h.size, h.used - Range(a, n), h.total - n)
  }

  function Grown(h: Heap, n: int): Heap { Heap(Grow(h.blocks, h.size, n), h.size + n, h.used, h.total) }

  ghost function Apply(h: Heap, align: int, act: Action): Heap {
    match act
    case Allocate(n) => Allocated(h, AlignTo(n, align))
    case Free(a, n) => Freed(h, a, n)
    case Sbrk(n) => Grown(h, AlignTo(n, align))
  }

  /** Requests are positive, only bytes in use are given back, and growth is not negative. */
  ghost predicate Enabled(h: Heap, act: Action) {
    match act
    case Allocate(n) => n > 0
    case Free(a, n) => n > 0 && Range(a, n) <= h.used
    case Sbrk(n) => n >= 0
  }

  ghost function Run(h: Heap, align: int, acts: seq<Action>): Heap {
    if acts == [] then h else Apply(Run(h, align, acts[..|acts| - 1]), align, acts[|acts| - 1])
  }

  ghost predicate Legal(h: Heap, align: int, acts: seq<Action>) {
    acts == [] ||
    (Legal(h, align, acts[..|acts| - 1]) && Enabled(Run(h, align, acts[..|acts| - 1]), acts[|acts| - 1]))
  }

  lemma AllocatedSound(h: Heap, need: int)
    requires Sound(h) && need > 0
    ensures Sound(Allocated(h, need))
  {
    if Alloc(h.blocks, need).Some? {
      var (a, bs) := Alloc(h.blocks, need).value;
      AllocSound(h, need, a, bs, Allocated(h, need));
    }
  }

  lemma GrownSound(h: Heap, n: int)
    requires Sound(h) && n >= 0
    ensures Sound(Grown(h, n))
  {
    GrowSound(h, n, Grown(h, n));
  }

  lemma ApplySound(h: Heap, align: int, act: Action)
    requires Sound(h) && align > 0 && Enabled(h, act)
    ensures Sound(Apply(h, align, act))
  {
    if !act.Free? { AlignToBounds(act.n, align); }
    match act
    case Allocate(n) => AllocatedSound(h, AlignTo(n, align));
    case Free(a, n) => ReleaseSound(h, a, n, Freed(h, a, n));
    case Sbrk(n) => GrownSound(h, AlignTo(n, align));
  }

  /** Whatever is done to a new address space, its free list stays sorted, coalesced and free of
      empty blocks inside the heap, and together with the bytes in use partitions it. */
  lemma {:induction false} RunSound(size: nat, align: int, acts: seq<Action>)
    requires align > 0 && Legal(Fresh(size), align, acts)
    ensures Sound(Run(Fresh(size), align, acts)) && Inv(Run(Fresh(size), align, acts))
    decreases |acts|
  {
    if acts == [] {
      InitSound(size);
    } else {
      RunSound(size, align, acts[..|acts| - 1]);
      ApplySound(Run(Fresh(size), align, acts[..|acts| - 1]), align, acts[|acts| - 1]);
    }
    SoundIsInv(Run(Fresh(size), align, acts));
  }

  // ----- no empty blocks

  /** The heap is only ever grown by a positive size. */
  predicate Grows(acts: seq<Action>) {
    acts == [] || (Grows(acts[..|acts| - 1]) && (acts[|acts| - 1].Sbrk? ==> acts[|acts| - 1].n > 0))
  }

  lemma ApplyNoTail(h: Heap, align: int, act: Action)
    requires Sound(h) && align > 0 && Enabled(h, act) && !HasTail(h.blocks) && (act.Sbrk? ==> act.n > 0)
    ensures !HasTail(Apply(h, align, act).blocks)
  {
    SoundIsInv(h);
    if !act.Free? { AlignToBounds(act.n, align); }
    match act
    case Allocate(n) =>
      var need := AlignTo(n, align);
      if Alloc(h.blocks, need).Some? {
        AllocEffect(h.blocks, h.size, need, Alloc(h.blocks, need).value.0, Alloc(h.blocks, need).value.1);
      }
    case Free(a, n) =>
      InUseRange(h, a, n);
      ReleaseEffect(h.blocks, h.size, a, n);
    case Sbrk(_) =>
  }

  /** With positive sizes throughout, no block of the free list is ever empty. */
  lemma {:induction false} RunNoEmptyBlock(size: nat, align: int, acts: seq<Action>)
    requires size > 0 && align > 0 && Legal(Fresh(size), align, acts) && Grows(acts)
    ensures !HasTail(Run(Fresh(size), align, acts).blocks)
    ensures forall i :: 0 <= i < |Run(Fresh(size), align, acts).blocks| ==> Run(Fresh(size), align, acts).blocks[i].size > 0
    decreases |acts|
  {
    if acts != [] {
      var pre := acts[..|acts| - 1];
      RunNoEmptyBlock(size, align, pre);
      RunSound(size, align, pre);
      ApplyNoTail(Run(Fresh(size), align, pre), align, acts[|acts| - 1]);
    }
    RunSound(size, align, acts);
    NoTailNoEmpty(Run(Fresh(size), align, acts).blocks, Run(Fresh(size), align, acts).size);
  }

  lemma NoTailNoEmpty(bs: seq<Block>, heap: int)
    requires Wf(bs, heap) && !HasTail(bs)
    ensures forall i :: 0 <= i < |bs| ==> bs[i].size > 0
  {
    assert forall i :: 0 <= i < |bs| - 1 ==> bs[i].End() < bs[|bs| - 1].start;
  }

  // ----- alignment

  /** Only whole aligned pieces are given back. */
  predicate AlignedPieces(align: int, acts: seq<Action>)
    requires align > 0
  {
    acts == [] || (AlignedPieces(align, acts[..|acts| - 1]) && AlignedPiece(align, acts[|acts| - 1]))
  }

  predicate AlignedPiece(align: int, act: Action)
    requires align > 0
  {
    act.Free? ==> act.a % align == 0 && act.n % align == 0
  }

  lemma ApplyAligned(h: Heap, align: int, act: Action)
    requires Sound(h) && align > 0 && IsPow2(align) && Enabled(h, act) && AlignedList(h.blocks, h.size, align)
    requires AlignedPiece(align, act)
    ensures AlignedList(Apply(h, align, act).blocks, Apply(h, align, act).size, align)
  {
    SoundWf(h);
    match act
    case Allocate(n) =>
      AlignToLeast(n, align);
      if Alloc(h.blocks, AlignTo(n, align)).Some? { AllocKeepsAligned(h.blocks, h.size, align, AlignTo(n, align)); }
    case Free(a, n) =>
      ReleaseSound(h, a, n, Freed(h, a, n));
      ReleaseKeepsAligned(h.blocks, h.size, align, a, n);
    case Sbrk(n) =>
      AlignToLeast(n, align);
      GrowKeepsAligned(h.blocks, h.size, align, AlignTo(n, align));
  }

  lemma {:induction false} RunAligned(size: nat, align: int, acts: seq<Action>)
    requires align > 0 && IsPow2(align) && Legal(Fresh(size), align, acts) && AlignedPieces(align, acts)
    ensures AlignedList(Run(Fresh(size), align, acts).blocks, Run(Fresh(size), align, acts).size, align)
    decreases |acts|
  {
    if acts == [] {
      ModUnique(0, align, 0, 0);
    } else {
      var pre := acts[..|acts| - 1];
      RunAligned(size, align, pre);
      RunSound(size, align, pre);
      ApplyAligned(Run(Fresh(size), align, pre), align, acts[|acts| - 1]);
    }
  }

  /** Every address handed out is aligned, whatever the initial size was and however often the heap
      grew in between. */
  lemma HandedOutAligned(size: nat, align: int, acts: seq<Action>, n: int)
    requires align > 0 && IsPow2(align) && Legal(Fresh(size), align, acts) && AlignedPieces(align, acts) && n > 0
    ensures var got := Alloc(Run(Fresh(size), align, acts).blocks, AlignTo(n, align));
            got.Some? ==> got.value.0 % align == 0
  {
    RunAligned(size, align, acts);
    RunSound(size, align, acts);
    var h := Run(Fresh(size), align, acts);
    SoundWf(h);
    AlignToLeast(n, align);
    if Alloc(h.blocks, AlignTo(n, align)).Some? { AllocKeepsAligned(h.blocks, h.size, align, AlignTo(n, align)); }
  }
}
