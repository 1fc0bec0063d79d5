/** Whole runs of the object allocator and its pin monitor: allocations, batches, frees, reference and
    pin operations, growth and timeout sweeps, interleaved in any order. */
module ObjectRuns {
  import opened Basics
  import opened Alignment
  import opened FreeList
  import opened AddressSpace
  import opened Lifetime
  import opened ObjectTable
  import opened TensorMemory
  import BatchedFree
  import HeapRuns

  datatype Config = Config(align: int, timeout: real)

  /** An object a sweep has collected: when it had last been pinned, and when it was collected. */
  datatype Entry = Entry(k: nat, since: real, at: real)

  /** The address space, the objects ever made, the bytes that belong to live ones and to which, the
      number of live objects, the next identity; the pin registry, its gauge, the clock, and the objects
      the sweep in progress still has to unpin. */
  datatype State = State(heap: Heap, table: Table, held: set<int>, owner: map<int, nat>, active: int, next: nat,
                         pinned: map<nat, real>, gauge: int, now: real, sweep: seq<Entry>)

  /** A single allocation is a batch of one (`Alignment.AlignToTwice`), and a batched free a sequence of
      frees (`BatchedFree.MergedEqualsOneByOne`). `Collect` starts a sweep with the expired objects in
      some order, `Force` is one turn of its unpin loop. */
  datatype Act =
    | Allocate(raw: int, batch: nat)
    | Free(k: nat)
    | Use(k: nat, op: Op)
    | Sbrk(n: int)
    | Tick(d: real)
    | Collect(ks: seq<nat>)
    | Force

  function Start(size: nat): State {
    State(HeapRuns.Fresh(size), map[], {}, map[], 0, 0, map[], 0, 0.0, [])
  }

  /** A run of `n` units cut into objects, or nothing when there is none. */
  ghost function Taken(s: State, unit: nat, n: nat, need: int): State {
    match Alloc(s.heap.blocks, need)
    case None => s
    case Some((a, _)) =>
      s.(heap := HeapRuns.Allocated(s.heap, need), table := AddedUnits(s.table, s.next, a, unit, n),
         held := s.held + Range(a, Times(unit, n)), owner := OwnerUnits(s.owner, s.next, a, unit, n),
         active := s.active + n, next := s.next + n)
  }

  /** Object `k` gets the life `l`; if that ends it, its bytes are given back. */
  ghost function Living(s: State, k: nat, l: Life): State
    requires k in s.table
  {
    var o, t := s.table[k], s.table[k := s.table[k].(life := l)];
    if o.life.live && !l.live
    then s.(heap := HeapRuns.Freed(s.heap, o.address, o.phySize), table := t,
            held := s.held - o.Span(), owner := s.owner - o.Span(), active := s.active - 1)
    else s.(table := t)
  }

  /** A reference or pin operation, with what it does to the registry. */
  ghost function Using(s: State, k: nat, op: Op): State
    requires k in s.table
  {
    var pins, s' := s.table[k].life.pins, Living(s, k, Step(s.table[k].life, op));
    match op
    case RefUp => s'
    case RefDown => s'
    case Pin => s'.(pinned := s.pinned[k := s.now], gauge := if pins == 0 then s.gauge + 1 else s.gauge)
    case Unpin => if pins == 1 then s'.(pinned := s.pinned - {k}, gauge := s.gauge - 1) else s'
  }

  /** The objects registered for longer than the timeout. */
  ghost function Expired(s: State, timeout: real): set<nat> {
    set k | k in s.pinned && s.now - s.pinned[k] > timeout
  }

  ghost function Collected(s: State, ks: seq<nat>): seq<Entry>
    requires forall i :: 0 <= i < |ks| ==> ks[i] in s.pinned
  {
    seq(|ks|, i requires 0 <= i < |ks| => Entry(ks[i], s.pinned[ks[i]], s.now))
  }

  /** Sizes are positive, growth and time are not negative, objects are objects of this allocator, and
      one sweep ends before the next begins. */
  ghost predicate Enabled(c: Config, s: State, act: Act) {
    match act
    case Allocate(raw, batch) => raw > 0 && batch > 0
    case Free(k) => k in s.table
    case Use(k, _) => k in s.table
    case Sbrk(n) => n >= 0
    case Tick(d) => d >= 0.0
    case Collect(ks) => s.sweep == [] && Distinct(ks) && Elems(ks) == Expired(s, c.timeout)
    case Force => s.sweep != [] && s.sweep[0].k in s.table
  }

  ghost function Unit(c: Config, raw: int): nat
    requires c.align > 0 && raw > 0
  {
    AlignToBounds(raw, c.align);
    AlignTo(raw, c.align)
  }

  ghost function Apply(c: Config, s: State, act: Act): State
    requires c.align > 0
  {
    if !Enabled(c, s, act) then s
    else
      match act
      case Allocate(raw, batch) =>
        Taken(s, Unit(c, raw), batch, AlignTo(Times(Unit(c, raw), batch), c.align))
      case Free(k) => Living(s, k, s.table[k].life.(live := false))
      case Use(k, op) => Using(s, k, op)
      case Sbrk(n) => s.(heap := HeapRuns.Grown(s.heap, AlignTo(n, c.align)))
      case Tick(d) => s.(now := s.now + d)
      case Collect(ks) =>
        assert forall i :: 0 <= i < |ks| ==> ks[i] in Elems(ks);
        s.(sweep := Collected(s, ks))
      case Force =>
        if s.table[s.sweep[0].k].life.pins > 0 then Using(s, s.sweep[0].k, Op.Unpin) else s.(sweep := s.sweep[1..])
  }

  ghost function Reached(c: Config, size: nat, acts: seq<Act>): State
    requires c.align > 0
  {
    if acts == [] then Start(size) else Apply(c, Reached(c, size, acts[..|acts| - 1]), acts[|acts| - 1])
  }

  // ----- the steps and the methods

  /** Frees and count changes act on free list and table as the methods of the allocator do. */
  lemma ActsAsMethods(c: Config, s: State, k: nat, op: Op)
    requires c.align > 0 && k in s.table
    ensures var f, s' := BatchedFree.Freed(s.heap.blocks, s.table), Apply(c, s, Free(k));
            BatchedFree.Freed(s'.heap.blocks, s'.table) == BatchedFree.FreeOne(f, k)
    ensures var f, s' := BatchedFree.Freed(s.heap.blocks, s.table), Apply(c, s, Use(k, op));
            && BatchedFree.Freed(s'.heap.blocks, s'.table) == Used(f, k, op)
            && (op == Op.Pin ==> s'.pinned == s.pinned[k := s.now])
            && (op == Op.Unpin ==> s'.pinned == if s.table[k].life.pins == 1 then s.pinned - {k} else s.pinned)
  {
    if !IsLive(s.table, k) {
      assert s.table[k := s.table[k].(life := s.table[k].life.(live := false))] == s.table;
    }
  }

  /** So do allocation, single and batched, and growth. */
  lemma AllocatesAsMethods(c: Config, s: State, raw: int, batch: nat)
    requires c.align > 0 && raw > 0 && batch > 0
    ensures AlignTo(Times(Unit(c, raw), 1), c.align) == AlignTo(raw, c.align)
    ensures var s' := Apply(c, s, Allocate(raw, batch));
            var got := Alloc(s.heap.blocks, AlignTo(Times(Unit(c, raw), batch), c.align));
            && (got.None? ==> s' == s)
            && (got.Some? ==>
                  && s'.heap.blocks == got.value.1 && s'.next == s.next + batch && s'.active == s.active + batch
                  && s'.table == AddedUnits(s.table, s.next, got.value.0, Unit(c, raw), batch))
    ensures var s' := Apply(c, s, Sbrk(raw));
            s'.heap.blocks == Grow(s.heap.blocks, s.heap.size, AlignTo(raw, c.align)) && s'.table == s.table
  {
    AlignToTwice(raw, c.align);
    assert Times(Unit(c, raw), 1) == Times(Unit(c, raw), 0) + Unit(c, raw);
  }

  // ----- bytes

  ghost predicate Good(s: State) {
    Sound(s.heap) && s.held <= s.heap.used && Tabled(s.table, s.held, s.owner, s.active, s.next)
  }

  /** The bytes in use that belong to no object, so that nothing will give them back. */
  ghost function Lost(s: State): set<int> { s.heap.used - s.held }

  /** What the allocation step adds to them: the rounding of the total of a batch. */
  ghost function Rounding(c: Config, s: State, act: Act): set<int>
    requires c.align > 0
  {
    if !act.Allocate? || !Enabled(c, s, act) then {}
    else
      var total := Times(Unit(c, act.raw), act.batch);
      match Alloc(s.heap.blocks, AlignTo(total, c.align))
      case None => {}
      case Some((a, _)) => Range(a + total, AlignTo(total, c.align) - total)
  }

  lemma StartGood(size: nat)
    ensures Good(Start(size))
  {
    InitSound(size);
    assert Live(map[]) == {};
    TabledIsConsistent(map[], {}, map[], 0, 0);
  }

  lemma TakenGood(s: State, unit: nat, n: nat, need: int)
    requires Good(s) && unit > 0 && n > 0 && need >= Times(unit, n)
    ensures Good(Taken(s, unit, n, need))
    ensures match Alloc(s.heap.blocks, need)
            case None => Lost(Taken(s, unit, n, need)) == Lost(s)
            case Some((a, _)) => Lost(Taken(s, unit, n, need)) == Lost(s) + Range(a + Times(unit, n), need - Times(unit, n))
  {
    var total := Times(unit, n);
    if Alloc(s.heap.blocks, need).Some? {
      var (a, bs) := Alloc(s.heap.blocks, need).value;
      var h, s' := HeapRuns.Allocated(s.heap, need), Taken(s, unit, n, need);
      AllocSound(s.heap, need, a, bs, h);
      FrontOf(a, total, need);
      TakeBoth(s.heap.used, s.held, Range(a, need), Range(a, total));
      TabledUnits(s.table, s.held, s.owner, s.active, s.next, a, unit, n, s'.table, s'.held, s'.owner, s'.active, s'.next);
    }
  }

  lemma LivingGood(s: State, k: nat, l: Life)
    requires Good(s) && k in s.table && (l.live ==> s.table[k].life.live)
    ensures Good(Living(s, k, l)) && Lost(Living(s, k, l)) == Lost(s)
  {
    var o := s.table[k];
    TabledLife(s.table, s.held, s.owner, s.active, s.next, k, l);
    if o.life.live && !l.live {
      ReleaseSound(s.heap, o.address, o.phySize, HeapRuns.Freed(s.heap, o.address, o.phySize));
      GiveBoth(s.heap.used, s.held, o.Span());
    }
  }

  lemma AllocateGood(c: Config, s: State, raw: int, batch: nat)
    requires c.align > 0 && Good(s) && raw > 0 && batch > 0
    ensures var s' := Apply(c, s, Allocate(raw, batch));
            Good(s') && Lost(s') == Lost(s) + Rounding(c, s, Allocate(raw, batch))
  {
    var unit := Unit(c, raw);
    var total := Times(unit, batch);
    AlignToBounds(raw, c.align);
    AlignToBounds(total, c.align);
    TakenGood(s, unit, batch, AlignTo(total, c.align));
  }

  /** Every step keeps the ledger; only an allocation can lose bytes, and only those of the rounding. */
  lemma ApplyGood(c: Config, s: State, act: Act)
    requires c.align > 0 && Good(s)
    ensures Good(Apply(c, s, act)) && Lost(Apply(c, s, act)) == Lost(s) + Rounding(c, s, act)
  {
    if Enabled(c, s, act) {
      match act
      case Allocate(raw, batch) => AllocateGood(c, s, raw, batch);
      case Free(k) => LivingGood(s, k, s.table[k].life.(live := false));
      case Use(k, op) => LivingGood(s, k, Step(s.table[k].life, op));
      case Sbrk(n) => AlignToBounds(n, c.align); HeapRuns.GrownSound(s.heap, AlignTo(n, c.align));
      case Tick(_) =>
      case Collect(_) =>
      case Force => LivingGood(s, s.sweep[0].k, Step(s.table[s.sweep[0].k].life, Op.Unpin));
    }
  }

  lemma {:induction false} ReachedGood(c: Config, size: nat, acts: seq<Act>)
    requires c.align > 0
    ensures Good(Reached(c, size, acts))
    decreases |acts|
  {
    if acts == [] {
      StartGood(size);
    } else {
      ReachedGood(c, size, acts[..|acts| - 1]);
      ApplyGood(c, Reached(c, size, acts[..|acts| - 1]), acts[|acts| - 1]);
    }
  }

  /** In every state of every run a live object lies inside the heap and none of its bytes is free. */
  lemma LiveObjectSafe(c: Config, size: nat, acts: seq<Act>, k: nat)
    requires c.align > 0 && IsLive(Reached(c, size, acts).table, k)
    ensures var s := Reached(c, size, acts);
            && 0 <= s.table[k].address && s.table[k].phySize > 0 && s.table[k].Extent().End() <= s.heap.size
            && s.table[k].Span() !! Bytes(s.heap.blocks)
  {
    ReachedGood(c, size, acts);
    var s := Reached(c, size, acts);
    SoundIsInv(s.heap);
    TabledIsConsistent(s.table, s.held, s.owner, s.active, s.next);
    SpanHeld(s.table, s.held, s.owner, k);
    InUseRange(s.heap, s.table[k].address, s.table[k].phySize);
  }

  lemma SpanHeld(t: Table, held: set<int>, owner: map<int, nat>, k: nat)
    requires Shared(t, held, owner) && IsLive(t, k)
    ensures t[k].Span() <= held
  {
    forall x | x in t[k].Span() ensures x in held { assert x in owner; }
  }

  /** No two live objects share a byte. */
  lemma LiveObjectsApart(c: Config, size: nat, acts: seq<Act>, k: nat, m: nat)
    requires c.align > 0 && k != m
    requires var t := Reached(c, size, acts).table; IsLive(t, k) && IsLive(t, m)
    ensures var t := Reached(c, size, acts).table; t[k].Span() !! t[m].Span()
  {
    ReachedGood(c, size, acts);
    var s := Reached(c, size, acts);
    TabledIsConsistent(s.table, s.held, s.owner, s.active, s.next);
    LiveObjectsDisjoint(s.table, s.held, s.owner, k, m);
  }

  /** Every byte of the heap is free, or inside a live object, or lost, and no two of these; the two
      counters count the live objects and the bytes that are not free. */
  lemma EveryByteAccounted(c: Config, size: nat, acts: seq<Act>, x: int)
    requires c.align > 0
    ensures var s := Reached(c, size, acts);
            && s.active == |Live(s.table)| && s.heap.total == s.heap.size - Sum(s.heap.blocks)
            && (0 <= x < s.heap.size ==>
                  && (x !in Bytes(s.heap.blocks) <==> x in Lost(s) || exists k :: IsLive(s.table, k) && x in s.table[k].Span())
                  && (x in Lost(s) ==> !exists k :: IsLive(s.table, k) && x in s.table[k].Span()))
  {
    ReachedGood(c, size, acts);
    var s := Reached(c, size, acts);
    SoundIsInv(s.heap);
    TabledIsConsistent(s.table, s.held, s.owner, s.active, s.next);
    HeldByLive(s.table, s.held, s.owner, x);
    if 0 <= x < s.heap.size {
      assert x in Range(0, s.heap.size);
    }
  }

  lemma HeldByLive(t: Table, held: set<int>, owner: map<int, nat>, x: int)
    requires Shared(t, held, owner)
    ensures x in held <==> exists k :: IsLive(t, k) && x in t[k].Span()
  {
    if x in held {
      assert x in owner && IsLive(t, owner[x]) && x in t[owner[x]].Span();
    }
  }

  // ----- leaks

  /** Every batch taken during the run has a total that rounding leaves alone. */
  ghost predicate WholeTotals(c: Config, size: nat, acts: seq<Act>)
    requires c.align > 0
  {
    acts == [] ||
    (WholeTotals(c, size, acts[..|acts| - 1]) && Rounding(c, Reached(c, size, acts[..|acts| - 1]), acts[|acts| - 1]) == {})
  }

  /** A run loses bytes exactly when it takes a batch whose total is rounded up. */
  lemma {:induction false} LostIffRounded(c: Config, size: nat, acts: seq<Act>)
    requires c.align > 0
    ensures Lost(Reached(c, size, acts)) == {} <==> WholeTotals(c, size, acts)
    decreases |acts|
  {
    if acts != [] {
      var pre := acts[..|acts| - 1];
      LostIffRounded(c, size, pre);
      ReachedGood(c, size, pre);
      ApplyGood(c, Reached(c, size, pre), acts[|acts| - 1]);
    }
  }

  /** Whenever no object is live, the bytes allocated are the lost ones, and the heap is one free block
      again exactly when every batch total was left alone by the rounding. */
  lemma NothingLeaksIffWhole(c: Config, size: nat, acts: seq<Act>)
    requires c.align > 0
    ensures var s := Reached(c, size, acts);
            s.active == 0 && s.heap.size > 0 ==>
              && s.heap.total == |Lost(s)|
              && (s.heap.blocks == [Block(0, s.heap.size)] <==> WholeTotals(c, size, acts))
  {
    ReachedGood(c, size, acts);
    LostIffRounded(c, size, acts);
    var s := Reached(c, size, acts);
    SoundIsInv(s.heap);
    TabledIsConsistent(s.table, s.held, s.owner, s.active, s.next);
    if s.active == 0 && s.heap.size > 0 {
      HeldWhenNoneLive(s.table, s.held, s.owner);
      assert Lost(s) == s.heap.used;
      WholeHeap(s.heap.blocks, s.heap.size, s.heap.used);
    }
  }

  lemma HeldWhenNoneLive(t: Table, held: set<int>, owner: map<int, nat>)
    requires Shared(t, held, owner) && |Live(t)| == 0
    ensures held == {}
  {
    LiveHolders(t, held, owner);
    assert held == {};
  }

  lemma LiveHolders(t: Table, held: set<int>, owner: map<int, nat>)
    requires Shared(t, held, owner)
    ensures held == set x | x in owner && owner[x] in Live(t)
  {
    assert forall x :: x in owner ==> owner[x] in Live(t);
  }

  /** The list of a heap is a single block spanning it exactly when no byte is in use. */
  lemma WholeHeap(bs: seq<Block>, size: int, used: set<int>)
    requires Wf(bs, size) && size > 0 && Bytes(bs) !! used && Bytes(bs) + used == Range(0, size)
    ensures bs == [Block(0, size)] <==> used == {}
  {
    Single(Block(0, size));
    if used == {} {
      assert size - 1 in Range(0, size);
      if HasTail(bs) { TailByte(bs, size); }
      Canonical(bs, [Block(0, size)], size);
    }
  }

  /** No run with any initial size loses a byte exactly when the alignment is a power of two. */
  lemma LeakFreeIffPow2(c: Config)
    requires c.align > 0
    ensures (forall size: nat, acts: seq<Act> :: Lost(Reached(c, size, acts)) == {}) <==> IsPow2(c.align)
  {
    if IsPow2(c.align) {
      forall size: nat, acts: seq<Act> ensures Lost(Reached(c, size, acts)) == {} {
        Pow2Whole(c, size, acts);
        LostIffRounded(c, size, acts);
      }
    } else {
      var size, acts := SomeRunLeaks(c);
      assert Lost(Reached(c, size, acts)) != {};
    }
  }

  lemma {:induction false} Pow2Whole(c: Config, size: nat, acts: seq<Act>)
    requires c.align > 0 && IsPow2(c.align)
    ensures WholeTotals(c, size, acts)
    decreases |acts|
  {
    if acts != [] {
      var s, act := Reached(c, size, acts[..|acts| - 1]), acts[|acts| - 1];
      Pow2Whole(c, size, acts[..|acts| - 1]);
      if act.Allocate? && Enabled(c, s, act) {
        AlignToLeast(act.raw, c.align);
        WholeUnits(Unit(c, act.raw), act.batch, c.align);
      }
    }
  }

  /** One batch in a fresh heap: what it loses. */
  lemma FirstBatch(c: Config, size: nat, raw: int, batch: nat, total: nat, need: nat)
    requires c.align > 0 && raw > 0 && batch > 0 && total == Times(Unit(c, raw), batch)
    requires need == AlignTo(total, c.align) && 0 < need <= size
    ensures Lost(Reached(c, size, [Allocate(raw, batch)])) == Range(total, need - total)
  {
    var s, act := Start(size), Allocate(raw, batch);
    ReachedFirst(c, size, act);
    StartGood(size);
    AllocateGood(c, s, raw, batch);
    FirstAlloc(size, need);
  }

  lemma ReachedFirst(c: Config, size: nat, act: Act)
    requires c.align > 0
    ensures Reached(c, size, [act]) == Apply(c, Start(size), act)
  {
    assert [act][..0] == [];
  }

  lemma FirstAlloc(size: nat, need: nat)
    requires 0 < need <= size
    ensures Alloc([Block(0, size)], need).Some? && Alloc([Block(0, size)], need).value.0 == 0
  {
    assert FirstFit([Block(0, size)], need) == 0;
  }

  lemma UnitsMakeOne(c: Config, n: nat)
    requires c.align > 0 && AlignTo(1, c.align) * n == c.align
    ensures Times(Unit(c, 1), n) == c.align
  {
    TimesIsProduct(Unit(c, 1), n);
  }

  lemma SomeRunLeaks(c: Config) returns (size: nat, acts: seq<Act>)
    requires c.align > 0 && !IsPow2(c.align)
    ensures Lost(Reached(c, size, acts)) != {}
  {
    var n := UnitsRoundedAgain(c.align);
    UnitsMakeOne(c, n);
    size, acts := AlignTo(c.align, c.align), [Allocate(1, n)];
    FirstBatch(c, size, 1, n, c.align, size);
    assert c.align in Range(c.align, size - c.align);
  }

  /** With alignment 3, two units of one byte take four bytes and give back two. */
  lemma AlignmentThreeLeaks(size: nat, timeout: real)
    requires size >= 4
    ensures Lost(Reached(Config(3, timeout), size, [Allocate(1, 2)])) == {2, 3}
  {
    RoundingByThree();
    FirstBatch(Config(3, timeout), size, 1, 2, 2, 4);
    assert Range(2, 2) == {2, 3};
  }

  lemma RoundingByThree()
    ensures AlignTo(1, 3) == 1 && Times(1, 2) == 2 && AlignTo(2, 3) == 4
  {
    assert And(3, -3) == 1 && And(4, -3) == 4;
    assert Times(1, 1) == 1;
  }

  // ----- alignment

  ghost predicate AlignedTable(t: Table, align: int)
    requires align > 0
  {
    forall k :: k in t ==> t[k].address % align == 0 && t[k].phySize % align == 0
  }

  lemma {:induction false} UnitsAligned(t: Table, next: nat, start: int, unit: nat, n: nat, align: int)
    requires align > 0 && AlignedTable(t, align) && start % align == 0 && unit % align == 0
    ensures AlignedTable(AddedUnits(t, next, start, unit, n), align)
    decreases n
  {
    if n > 0 {
      ModAdd(start, unit, align);
      UnitsAligned(Added(t, next, Block(start, unit)), next + 1, start + unit, unit, n - 1, align);
    }
  }

  ghost predicate Aligned(s: State, align: int)
    requires align > 0
  {
    AlignedList(s.heap.blocks, s.heap.size, align) && AlignedTable(s.table, align)
  }

  lemma TakenAligned(s: State, unit: nat, n: nat, align: int)
    requires Good(s) && align > 0 && IsPow2(align) && Aligned(s, align) && unit > 0 && unit % align == 0 && n > 0
    ensures Aligned(Taken(s, unit, n, AlignTo(Times(unit, n), align)), align)
  {
    var total := Times(unit, n);
    WholeUnits(unit, n, align);
    TimesAligned(unit, n, align);
    SoundWf(s.heap);
    if Alloc(s.heap.blocks, total).Some? {
      AllocKeepsAligned(s.heap.blocks, s.heap.size, align, total);
      UnitsAligned(s.table, s.next, Alloc(s.heap.blocks, total).value.0, unit, n, align);
    }
  }

  lemma LivingAligned(s: State, k: nat, l: Life, align: int)
    requires Good(s) && align > 0 && Aligned(s, align) && k in s.table && (l.live ==> s.table[k].life.live)
    ensures Aligned(Living(s, k, l), align)
  {
    var o := s.table[k];
    TabledLife(s.table, s.held, s.owner, s.active, s.next, k, l);
    SoundWf(s.heap);
    if o.life.live && !l.live {
      ReleaseSound(s.heap, o.address, o.phySize, HeapRuns.Freed(s.heap, o.address, o.phySize));
      ReleaseKeepsAligned(s.heap.blocks, s.heap.size, align, o.address, o.phySize);
    }
  }

  lemma AllocateAligned(c: Config, s: State, raw: int, batch: nat)
    requires Good(s) && c.align > 0 && IsPow2(c.align) && Aligned(s, c.align) && raw > 0 && batch > 0
    ensures Aligned(Apply(c, s, Allocate(raw, batch)), c.align)
  {
    AlignToLeast(raw, c.align);
    TakenAligned(s, Unit(c, raw), batch, c.align);
  }

  lemma ApplyAligned(c: Config, s: State, act: Act)
    requires Good(s) && c.align > 0 && IsPow2(c.align) && Aligned(s, c.align)
    ensures Aligned(Apply(c, s, act), c.align)
  {
    if Enabled(c, s, act) {
      match act
      case Allocate(raw, batch) => AllocateAligned(c, s, raw, batch);
      case Free(k) => LivingAligned(s, k, s.table[k].life.(live := false), c.align);
      case Use(k, op) => LivingAligned(s, k, Step(s.table[k].life, op), c.align);
      case Sbrk(n) =>
        AlignToLeast(n, c.align);
        SoundWf(s.heap);
        GrowKeepsAligned(s.heap.blocks, s.heap.size, c.align, AlignTo(n, c.align));
      case Tick(_) =>
      case Collect(_) =>
      case Force => LivingAligned(s, s.sweep[0].k, Step(s.table[s.sweep[0].k].life, Op.Unpin), c.align);
    }
  }

  /** In every run every object, whether allocated alone or cut from a batch, starts at a multiple of
      the power-of-two alignment and has a multiple of it as its size, whatever the initial heap size
      was. */
  lemma {:induction false} ObjectsAligned(c: Config, size: nat, acts: seq<Act>)
    requires c.align > 0 && IsPow2(c.align)
    ensures Aligned(Reached(c, size, acts), c.align)
    decreases |acts|
  {
    if acts == [] {
      ModUnique(0, c.align, 0, 0);
    } else {
      var pre := acts[..|acts| - 1];
      ObjectsAligned(c, size, pre);
      ReachedGood(c, size, pre);
      ApplyAligned(c, Reached(c, size, pre), acts[|acts| - 1]);
    }
  }

  // ----- the pin registry

  /** The sweep in progress only lists objects that had expired when it collected them. */
  ghost predicate Sweeping(c: Config, s: State) {
    forall i :: 0 <= i < |s.sweep| ==>
      s.sweep[i].k in s.table && s.sweep[i].at - s.sweep[i].since > c.timeout && s.sweep[i].at <= s.now
  }

  ghost predicate Watched(c: Config, s: State) {
    Watches(s.table, s.pinned, s.gauge) && Sweeping(c, s)
  }

  /** A step that drops no object, keeps the sweep and does not turn the clock back. */
  lemma SweepingKept(c: Config, s: State, s': State)
    requires Sweeping(c, s) && s'.sweep == s.sweep && s.table.Keys <= s'.table.Keys && s.now <= s'.now
    ensures Sweeping(c, s')
  {
  }

  lemma TakenWatched(c: Config, s: State, unit: nat, n: nat, need: int)
    requires Good(s) && Watched(c, s)
    ensures Watched(c, Taken(s, unit, n, need))
  {
    var s' := Taken(s, unit, n, need);
    TabledIsConsistent(s.table, s.held, s.owner, s.active, s.next);
    if Alloc(s.heap.blocks, need).Some? {
      UnitsUnpinned(s.table, s.next, Alloc(s.heap.blocks, need).value.0, unit, n, s'.table);
      WatchesOther(s.table, s'.table, s.pinned, s.gauge);
      SweepingKept(c, s, s');
    }
  }

  lemma UnitsUnpinned(t: Table, next: nat, start: int, unit: nat, n: nat, t': Table)
    requires (forall m :: m in t ==> m < next) && t' == AddedUnits(t, next, start, unit, n)
    ensures t.Keys <= t'.Keys
    ensures forall k :: k in t' ==> t'[k].life.pins == if k in t then t[k].life.pins else 0
  {
    forall k: nat
      ensures k in t ==> k in t'
      ensures k in t' ==> t'[k].life.pins == if k in t then t[k].life.pins else 0
    {
      UnitsAt(t, next, start, unit, n, k);
    }
  }

  lemma FreeWatched(c: Config, s: State, k: nat, s': State)
    requires Watched(c, s) && k in s.table && s' == Living(s, k, s.table[k].life.(live := false))
    ensures Watched(c, s')
  {
    assert s'.table == s.table[k := s.table[k].(life := s.table[k].life.(live := false))];
    WatchesOther(s.table, s'.table, s.pinned, s.gauge);
    SweepingKept(c, s, s');
  }

  lemma UsingFields(s: State, k: nat, op: Op, s': State)
    requires k in s.table && s' == Using(s, k, op)
    ensures s'.table == s.table[k := s.table[k].(life := Step(s.table[k].life, op))]
    ensures s'.sweep == s.sweep && s'.now == s.now
    ensures s'.pinned == (match op
                          case Pin => s.pinned[k := s.now]
                          case Unpin => if s.table[k].life.pins == 1 then s.pinned - {k} else s.pinned
                          case _ => s.pinned)
    ensures s'.gauge == (match op
                         case Pin => if s.table[k].life.pins == 0 then s.gauge + 1 else s.gauge
                         case Unpin => if s.table[k].life.pins == 1 then s.gauge - 1 else s.gauge
                         case _ => s.gauge)
  {
  }

  lemma UsedWatches(t: Table, pinned: map<nat, real>, gauge: int, k: nat, op: Op, now: real, t': Table)
    requires Watches(t, pinned, gauge) && k in t && t' == t[k := t[k].(life := Step(t[k].life, op))]
    ensures match op
            case Pin => Watches(t', pinned[k := now], if t[k].life.pins == 0 then gauge + 1 else gauge)
            case Unpin => if t[k].life.pins == 1 then Watches(t', pinned - {k}, gauge - 1) else Watches(t', pinned, gauge)
            case _ => Watches(t', pinned, gauge)
  {
    match op
    case RefUp => WatchesOther(t, t', pinned, gauge);
    case RefDown => WatchesOther(t, t', pinned, gauge);
    case Pin => WatchesPin(t, pinned, gauge, k, now, t');
    case Unpin => WatchesUnpin(t, pinned, gauge, k, t');
  }

  lemma UsingWatched(c: Config, s: State, k: nat, op: Op, s': State)
    requires Watched(c, s) && k in s.table && s' == Using(s, k, op)
    ensures Watched(c, s')
  {
    UsingFields(s, k, op, s');
    UsedWatches(s.table, s.pinned, s.gauge, k, op, s.now, s'.table);
    SweepingKept(c, s, s');
  }

  lemma CollectWatched(c: Config, s: State, ks: seq<nat>)
    requires c.align > 0 && Watched(c, s) && Enabled(c, s, Collect(ks))
    ensures Watched(c, Apply(c, s, Collect(ks)))
  {
    assert forall i :: 0 <= i < |ks| ==> ks[i] in Elems(ks);
  }

  lemma ForceWatched(c: Config, s: State)
    requires c.align > 0 && Watched(c, s) && Enabled(c, s, Force)
    ensures Watched(c, Apply(c, s, Force))
  {
    if s.table[s.sweep[0].k].life.pins > 0 {
      UsingWatched(c, s, s.sweep[0].k, Op.Unpin, Apply(c, s, Force));
    }
  }

  lemma ApplyWatched(c: Config, s: State, act: Act)
    requires c.align > 0 && Good(s) && Watched(c, s)
    ensures Watched(c, Apply(c, s, act))
  {
    if Enabled(c, s, act) {
      var s' := Apply(c, s, act);
      match act
      case Allocate(raw, batch) => TakenWatched(c, s, Unit(c, raw), batch, AlignTo(Times(Unit(c, raw), batch), c.align));
      case Free(k) => FreeWatched(c, s, k, s');
      case Use(k, op) => UsingWatched(c, s, k, op, s');
      case Sbrk(_) => SweepingKept(c, s, s');
      case Tick(_) => SweepingKept(c, s, s');
      case Collect(ks) => CollectWatched(c, s, ks);
      case Force => ForceWatched(c, s);
    }
  }

  /** In every state of every run, also in the middle of a sweep that other operations interleave with,
      the registry holds exactly the objects with a positive pin count and the gauge is its size. */
  lemma {:induction false} RegistryRight(c: Config, size: nat, acts: seq<Act>)
    requires c.align > 0
    ensures Watched(c, Reached(c, size, acts))
    decreases |acts|
  {
    if acts != [] {
      var pre := acts[..|acts| - 1];
      RegistryRight(c, size, pre);
      ReachedGood(c, size, pre);
      ApplyWatched(c, Reached(c, size, pre), acts[|acts| - 1]);
    }
  }

  /** A sweep drops a pin of an object that has not expired only if that object was pinned again after
      the sweep collected it. */
  lemma SweepHitsExpired(c: Config, size: nat, acts: seq<Act>)
    requires c.align > 0 && Reached(c, size, acts).sweep != []
    ensures var s := Reached(c, size, acts);
            var e := s.sweep[0];
            && e.k in s.table
            && (e.k in s.pinned && s.pinned[e.k] == e.since ==> e.k in Expired(s, c.timeout))
  {
    RegistryRight(c, size, acts);
  }

  /** Object `k` loses a pin in this turn of a sweep. */
  ghost predicate LosesPin(c: Config, s: State, k: nat)
    requires c.align > 0
  {
    k in s.table && k in Apply(c, s, Force).table && Apply(c, s, Force).table[k].life.pins < s.table[k].life.pins
  }

  lemma OnlyHeadLoses(c: Config, s: State, k: nat)
    requires c.align > 0 && Enabled(c, s, Force)
    ensures LosesPin(c, s, k) <==> k == s.sweep[0].k && s.table[k].life.pins > 0
  {
  }

  /** A turn of a sweep takes a pin from an object that has not expired exactly when the object it is at
      was pinned again, within the timeout, after it was collected. */
  lemma SweepHitsYoungIffRepinned(c: Config, size: nat, acts: seq<Act>)
    requires c.align > 0 && Reached(c, size, acts).sweep != []
    ensures var s := Reached(c, size, acts);
            var e := s.sweep[0];
            (exists k :: LosesPin(c, s, k) && k !in Expired(s, c.timeout))
            <==> e.k in s.pinned && s.pinned[e.k] != e.since && s.now - s.pinned[e.k] <= c.timeout
  {
    SweepHitsExpired(c, size, acts);
    RegistryRight(c, size, acts);
    var s := Reached(c, size, acts);
    var e := s.sweep[0];
    OnlyHeadLoses(c, s, e.k);
    forall k | LosesPin(c, s, k) ensures k == e.k { OnlyHeadLoses(c, s, k); }
    assert LosesPin(c, s, e.k) <==> e.k in s.pinned;
  }

  lemma ReachedSnoc(c: Config, size: nat, acts: seq<Act>, act: Act)
    requires c.align > 0
    ensures Reached(c, size, acts + [act]) == Apply(c, Reached(c, size, acts), act)
  {
    assert (acts + [act])[..|acts|] == acts;
  }

  /** What a state shows of object 0 and the monitor. */
  ghost predicate Shows(s: State, l: Life, pinned: map<nat, real>, now: real, sweep: seq<Entry>) {
    0 in s.table && s.table[0].life == l && s.pinned == pinned && s.now == now && s.sweep == sweep
  }

  lemma ShowsPin(c: Config, s: State, l: Life, pinned: map<nat, real>, now: real, sweep: seq<Entry>)
    requires c.align > 0 && Shows(s, l, pinned, now, sweep)
    ensures Shows(Apply(c, s, Use(0, Op.Pin)), l.(pins := l.pins + 1), pinned[0 := now], now, sweep)
  {
  }

  lemma ShowsForce(c: Config, s: State, l: Life, pinned: map<nat, real>, now: real, sweep: seq<Entry>)
    requires c.align > 0 && Shows(s, l, pinned, now, sweep) && sweep != [] && sweep[0].k == 0 && l.pins > 0 && l.refs > 0
    ensures Shows(Apply(c, s, Force), l.(pins := l.pins - 1), if l.pins == 1 then pinned - {0} else pinned, now, sweep)
  {
  }

  lemma ShowsCollect(c: Config, s: State, l: Life, since: real, now: real)
    requires c.align > 0 && Shows(s, l, map[0 := since], now, []) && now - since > c.timeout
    ensures Shows(Apply(c, s, Collect([0])), l, map[0 := since], now, [Entry(0, since, now)])
  {
    OnlyExpired(s, c.timeout);
  }

  /** Object 0 was pinned once, at time 0, and a sweep has just collected it. */
  lemma PinnedAndCollected(c: Config, size: nat, late: real) returns (acts: seq<Act>)
    requires c.align == 1 && size > 0 && late >= 0.0 && late > c.timeout
    ensures Shows(Reached(c, size, acts), Life(1, 1, true), map[0 := 0.0], late, [Entry(0, 0.0, late)])
  {
    acts := [Allocate(1, 1)];
    ReachedFirst(c, size, acts[0]);
    FirstObject(c, size);
    ShowsPin(c, Reached(c, size, acts), FRESH, map[], 0.0, []);
    ReachedSnoc(c, size, acts, Use(0, Op.Pin));
    acts := acts + [Use(0, Op.Pin)];
    ShowsTick(c, Reached(c, size, acts), Life(1, 1, true), map[0 := 0.0], late);
    ReachedSnoc(c, size, acts, Tick(late));
    acts := acts + [Tick(late)];
    ShowsCollect(c, Reached(c, size, acts), Life(1, 1, true), 0.0, late);
    ReachedSnoc(c, size, acts, Collect([0]));
    acts := acts + [Collect([0])];
  }

  /** Between collecting and unpinning the sweep holds no lock: an object pinned again in between loses
      the new pin together with the old one. */
  lemma YoungPinDropped(size: nat, timeout: real) returns (acts: seq<Act>, k: nat)
    requires size > 0 && timeout >= 0.0
    ensures var c := Config(1, timeout);
            var s := Reached(c, size, acts);
            var s' := Apply(c, Apply(c, s, Force), Force);
            && k in s.table && k in s.pinned && s.pinned[k] == s.now && s.table[k].life.pins == 2
            && k in s'.table && s'.table[k].life.pins == 0 && k !in s'.pinned && s'.now == s.now
  {
    var c, late := Config(1, timeout), timeout + 1.0;
    var sweep := [Entry(0, 0.0, late)];
    k := 0;
    acts := PinnedAndCollected(c, size, late);
    ShowsPin(c, Reached(c, size, acts), Life(1, 1, true), map[0 := 0.0], late, sweep);
    ReachedSnoc(c, size, acts, Use(0, Op.Pin));
    acts := acts + [Use(0, Op.Pin)];
    assert map[0 := 0.0][0 := late] == map[0 := late];
    var s := Reached(c, size, acts);
    ShowsForce(c, s, Life(1, 2, true), map[0 := late], late, sweep);
    ShowsForce(c, Apply(c, s, Force), Life(1, 1, true), map[0 := late], late, sweep);
  }

  lemma ShowsTick(c: Config, s: State, l: Life, pinned: map<nat, real>, late: real)
    requires c.align > 0 && Shows(s, l, pinned, 0.0, []) && late >= 0.0
    ensures Shows(Apply(c, s, Tick(late)), l, pinned, late, [])
  {
  }

  lemma FirstObject(c: Config, size: nat)
    requires c.align == 1 && size > 0
    ensures var s := Apply(c, Start(size), Allocate(1, 1));
            Shows(s, FRESH, map[], 0.0, [])
  {
    var s := Start(size);
    AlignToBounds(1, 1);
    assert Times(1, 1) == 1;
    FirstAlloc(size, 1);
    assert AddedUnits(map[], 0, 0, 1, 1) == AddedUnits(Added(map[], 0, Block(0, 1)), 1, 1, 1, 0);
  }

  lemma OnlyExpired(s: State, timeout: real)
    requires s.pinned.Keys == {0} && s.now - s.pinned[0] > timeout
    ensures Expired(s, timeout) == Elems([0]) && Distinct([0])
  {
  }
}
