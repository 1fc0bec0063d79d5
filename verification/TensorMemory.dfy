/** The allocator of reference-counted memory objects over an address space. An object is an entry
    of the table `objs`; its key stands for its identity. */
module TensorMemory {
  import opened Basics
  import opened Alignment
  import opened FreeList
  import opened AddressSpace
  import opened Coalescing
  import opened Lifetime
  import opened ObjectTable
  import opened BatchedFree

  /** The table shares out exactly the bytes in use, the counter counts the live objects, and
      identities below `next` are taken. */
  ghost predicate Consistent(t: Table, used: set<int>, owner: map<int, nat>, active: int, next: nat) {
    && Shared(t, used, owner) && active == |Live(t)|
    && forall k :: k in t ==> k < next
  }

  /** `Consistent` at the end of two recursive steps, so that proofs about the allocator's clients do
      not unfold it. */
  ghost predicate Tabled(t: Table, used: set<int>, owner: map<int, nat>, active: int, next: nat, steps: nat := 2) {
    if steps > 0 then Tabled(t, used, owner, active, next, steps - 1) else Consistent(t, used, owner, active, next)
  }

  lemma TabledIsConsistent(t: Table, used: set<int>, owner: map<int, nat>, active: int, next: nat)
    ensures Tabled(t, used, owner, active, next) <==> Consistent(t, used, owner, active, next)
  {
    assert Tabled(t, used, owner, active, next, 1) <==> Tabled(t, used, owner, active, next, 0);
  }

  lemma TabledAdd(t: Table, used: set<int>, owner: map<int, nat>, active: int, next: nat, b: Block)
    requires Tabled(t, used, owner, active, next) && b.size > 0 && Range(b.start, b.size) !! used
    ensures next !in t
    ensures Tabled(Added(t, next, b), used + Range(b.start, b.size), OwnerAdded(owner, next, b), active + 1, next + 1)
  {
    TabledIsConsistent(t, used, owner, active, next);
    AddedShared(t, used, owner, next, b);
    TabledIsConsistent(Added(t, next, b), used + Range(b.start, b.size), OwnerAdded(owner, next, b), active + 1, next + 1);
  }

  /** Changing the counts of an object: a live object that dies gives its bytes back. */
  lemma TabledLife(t: Table, used: set<int>, owner: map<int, nat>, active: int, next: nat, k: nat, l: Life)
    requires Tabled(t, used, owner, active, next) && k in t && (l.live ==> t[k].life.live)
    ensures l.live == t[k].life.live ==> Tabled(t[k := t[k].(life := l)], used, owner, active, next)
    ensures l.live != t[k].life.live ==>
              && t[k].Span() <= used && t[k].phySize > 0
              && Tabled(t[k := t[k].(life := l)], used - t[k].Span(), owner - t[k].Span(), active - 1, next)
  {
    var t' := t[k := t[k].(life := l)];
    TabledIsConsistent(t, used, owner, active, next);
    if l.live == t[k].life.live {
      SameLiveShared(t, used, owner, k, l);
      TabledIsConsistent(t', used, owner, active, next);
    } else {
      DeadShared(t, used, owner, k, l);
      TabledIsConsistent(t', used - t[k].Span(), owner - t[k].Span(), active - 1, next);
    }
  }

  lemma TabledBatch(h: Heap, t: Table, held: set<int>, owner: map<int, nat>, active: int, next: nat,
                    ks: seq<nat>, ids: seq<nat>, t': Table, pieces: seq<Block>, counts: seq<nat>,
                    held': set<int>, owner': map<int, nat>, active': int)
    requires Sound(h) && held <= h.used && Tabled(t, held, owner, active, next) && SortedByAddress(t, ks)
    requires (forall k :: k in ks <==> k in ids) && Batch(t', pieces, counts) == MergeEach(t, ks)
    requires held' == held - Bytes(pieces) && owner' == owner - Bytes(pieces) && active' == active - Total(counts)
    ensures Ordered(pieces) && Bytes(pieces) <= held
    ensures FreeEach(Freed(h.blocks, t), ids) == Freed(ReleaseAll(h.blocks, pieces), t')
    ensures Tabled(t', held', owner', active', next)
  {
    TabledIsConsistent(t, held, owner, active, next);
    MergeEachEffect(t, held, owner, ks);
    MergeEachCounts(t, ks);
    SharedWithout(t, held, owner, t', ks);
    MergedEqualsOneByOne(h, t, held, owner, ks, ids);
    TabledIsConsistent(t', held', owner', active', next);
  }

  // ----- bytes in use that belong to no object

  lemma TakeBoth(used: set<int>, held: set<int>, more: set<int>, r: set<int>)
    requires held <= used && more !! used && r <= more
    ensures (used + more) - (held + r) == (used - held) + (more - r)
  {
  }

  lemma GiveBoth(used: set<int>, held: set<int>, r: set<int>)
    requires held <= used && r <= held
    ensures held - r <= used - r && (used - r) - (held - r) == used - held
  {
  }

  lemma FrontOf(a: int, n: nat, m: nat)
    requires n <= m
    ensures Range(a, n) <= Range(a, m) && Range(a, m) - Range(a, n) == Range(a + n, m - n)
  {
  }

  /** The front of a run goes to objects, the rest of it to nobody. */
  lemma RunHeld(used: set<int>, held: set<int>, a: int, n: nat, m: nat, used': set<int>, held': set<int>, lost: set<int>)
    requires held <= used && Range(a, m) !! used && n <= m
    requires used' == used + Range(a, m) && held' == held + Range(a, n) && lost == (used - held) + Range(a + n, m - n)
    ensures Range(a, n) !! held && held' <= used' && used' - held' == lost
  {
    FrontOf(a, n, m);
    TakeBoth(used, held, Range(a, m), Range(a, n));
  }

  // ----- batches of equal units

  /** `unit * n`, as repeated addition. */
  function Times(unit: nat, n: nat): (t: nat)
    ensures n > 0 ==> unit <= t
  {
    if n == 0 then 0 else Times(unit, n - 1) + unit
  }

  lemma {:induction false} TimesIsProduct(unit: nat, n: nat)
    ensures Times(unit, n) == unit * n
  {
    if n > 0 { TimesIsProduct(unit, n - 1); }
  }

  lemma {:induction false} TimesAligned(unit: nat, n: nat, align: int)
    requires align > 0 && unit % align == 0
    ensures Times(unit, n) % align == 0
  {
    if n > 0 {
      TimesAligned(unit, n - 1, align);
      ModAdd(Times(unit, n - 1), unit, align);
    }
  }

  /** A whole number of aligned units is itself aligned. */
  lemma WholeUnits(unit: nat, batch: nat, align: int)
    requires align > 0 && IsPow2(align) && unit % align == 0
    ensures AlignTo(Times(unit, batch), align) == Times(unit, batch)
  {
    TimesAligned(unit, batch, align);
    AlignToMultiple(Times(unit, batch), align);
  }

  /** The table with `n` consecutive units from `start` on, under the identities from `next` on. */
  function AddedUnits(t: Table, next: nat, start: int, unit: nat, n: nat): Table
    decreases n
  {
    if n == 0 then t else AddedUnits(Added(t, next, Block(start, unit)), next + 1, start + unit, unit, n - 1)
  }

  ghost function OwnerUnits(owner: map<int, nat>, next: nat, start: int, unit: nat, n: nat): map<int, nat>
    decreases n
  {
    if n == 0 then owner
    else OwnerUnits(OwnerAdded(owner, next, Block(start, unit)), next + 1, start + unit, unit, n - 1)
  }

  lemma {:induction false} TabledUnits(t: Table, used: set<int>, owner: map<int, nat>, active: int, next: nat,
                                       start: int, unit: nat, n: nat,
                                       t': Table, used': set<int>, owner': map<int, nat>, active': int, next': nat)
    requires Tabled(t, used, owner, active, next) && unit > 0 && Range(start, Times(unit, n)) !! used
    requires used' == used + Range(start, Times(unit, n)) && active' == active + n && next' == next + n
    requires t' == AddedUnits(t, next, start, unit, n) && owner' == OwnerUnits(owner, next, start, unit, n)
    ensures Tabled(t', used', owner', active', next')
    decreases n
  {
    if n == 0 {
      assert used' == used;
    } else {
      UnitFits(start, unit, n - 1, used);
      var b := Block(start, unit);
      TabledAdd(t, used, owner, active, next, b);
      TabledUnits(Added(t, next, b), used + Range(start, unit), OwnerAdded(owner, next, b), active + 1, next + 1,
                  start + unit, unit, n - 1, t', used', owner', active', next');
    }
  }

  lemma UnitFits(start: int, unit: nat, i: nat, used: set<int>)
    requires unit > 0 && Range(start, Times(unit, i + 1)) !! used
    ensures Range(start, unit) !! used && Range(start + unit, Times(unit, i)) !! used + Range(start, unit)
    ensures used + Range(start, Times(unit, i + 1)) == used + Range(start, unit) + Range(start + unit, Times(unit, i))
  {
    assert Range(start, unit) <= Range(start, Times(unit, i + 1));
    assert Range(start + unit, Times(unit, i)) <= Range(start, Times(unit, i + 1));
  }

  /** The units are new, live, and lie one after the other; nothing else changes. */
  lemma {:induction false} UnitsAt(t: Table, next: nat, start: int, unit: nat, n: nat, k: nat)
    requires forall m :: m in t ==> m < next
    ensures k in AddedUnits(t, next, start, unit, n) <==> k in t || next <= k < next + n
    ensures k in t ==> AddedUnits(t, next, start, unit, n)[k] == t[k]
    ensures next <= k < next + n ==>
              AddedUnits(t, next, start, unit, n)[k] == Obj(start + Times(unit, k - next), unit, FRESH)
    decreases n
  {
    if n > 0 {
      var t1 := Added(t, next, Block(start, unit));
      UnitsAt(t1, next + 1, start + unit, unit, n - 1, k);
    }
  }

  // ----- sorting a batch by address

  function Insert(t: Table, ks: seq<nat>, k: nat): seq<nat>
    requires k in t && forall i :: 0 <= i < |ks| ==> ks[i] in t
  {
    if ks == [] || t[k].address <= t[ks[0]].address then [k] + ks else [ks[0]] + Insert(t, ks[1..], k)
  }

  function SortByAddress(t: Table, ks: seq<nat>): (r: seq<nat>)
    requires forall i :: 0 <= i < |ks| ==> ks[i] in t
    ensures forall k :: k in r <==> k in ks
  {
    if ks == [] then []
    else
      var rest := SortByAddress(t, ks[1..]);
      assert forall i :: 0 <= i < |rest| ==> rest[i] in ks[1..];
      InsertMembers(t, rest, ks[0]);
      assert forall k :: k in ks <==> k == ks[0] || k in ks[1..];
      Insert(t, rest, ks[0])
  }

  lemma {:induction false} InsertMembers(t: Table, ks: seq<nat>, k: nat)
    requires k in t && forall i :: 0 <= i < |ks| ==> ks[i] in t
    ensures forall m :: m in Insert(t, ks, k) <==> m == k || m in ks
  {
    if ks != [] && t[k].address > t[ks[0]].address {
      InsertMembers(t, ks[1..], k);
      assert forall m :: m in ks <==> m == ks[0] || m in ks[1..];
    }
  }

  lemma {:induction false} InsertSorted(t: Table, ks: seq<nat>, k: nat)
    requires k in t && SortedByAddress(t, ks)
    ensures SortedByAddress(t, Insert(t, ks, k))
  {
    InsertMembers(t, ks, k);
    if ks != [] && t[k].address > t[ks[0]].address {
      InsertSorted(t, ks[1..], k);
      var r := Insert(t, ks[1..], k);
      InsertMembers(t, ks[1..], k);
      forall i | 0 <= i < |r| ensures t[ks[0]].address <= t[r[i]].address { assert r[i] in r; }
    }
  }

  lemma {:induction false} SortSorted(t: Table, ks: seq<nat>)
    requires forall i :: 0 <= i < |ks| ==> ks[i] in t
    ensures SortedByAddress(t, SortByAddress(t, ks))
  {
    if ks != [] {
      SortSorted(t, ks[1..]);
      InsertSorted(t, SortByAddress(t, ks[1..]), ks[0]);
    }
  }

  lemma {:induction false} InsertOnce(t: Table, ks: seq<nat>, k: nat)
    requires k in t && forall i :: 0 <= i < |ks| ==> ks[i] in t
    ensures multiset(Insert(t, ks, k)) == multiset(ks) + multiset{k}
  {
    if ks != [] && t[k].address > t[ks[0]].address {
      InsertOnce(t, ks[1..], k);
      assert ks == [ks[0]] + ks[1..];
    }
  }

  lemma {:induction false} SortPermutes(t: Table, ks: seq<nat>)
    requires forall i :: 0 <= i < |ks| ==> ks[i] in t
    ensures multiset(SortByAddress(t, ks)) == multiset(ks)
  {
    if ks != [] {
      var rest := SortByAddress(t, ks[1..]);
      SortPermutes(t, ks[1..]);
      assert forall i :: 0 <= i < |rest| ==> rest[i] in ks[1..];
      InsertOnce(t, rest, ks[0]);
      assert ks == [ks[0]] + ks[1..];
    }
  }

  method SortBatch(t: Table, ids: seq<nat>) returns (sorted: seq<nat>)
    requires forall i :: 0 <= i < |ids| ==> ids[i] in t
    ensures SortedByAddress(t, sorted) && multiset(sorted) == multiset(ids)
    ensures forall k :: k in sorted <==> k in ids
  {
    SortSorted(t, ids);
    SortPermutes(t, ids);
    sorted := SortByAddress(t, ids);
  }

  // ----- counts and pins

  /** One reference or pin operation on object `k`: the counts change as `Step` says, and an object
      that dies gives its bytes back. */
  function Used(f: Freed, k: nat, op: Op): Freed
    requires k in f.table
  {
    var l, l' := f.table[k].life, Step(f.table[k].life, op);
    Freed(if l.live && !l'.live then Release(f.blocks, f.table[k].address, f.table[k].phySize) else f.blocks,
          f.table[k := f.table[k].(life := l')])
  }

  /** A script of operations on objects of the table, in order. */
  function Play(f: Freed, script: seq<(nat, Op)>): (r: Freed)
    requires forall i :: 0 <= i < |script| ==> script[i].0 in f.table
    ensures r.table.Keys == f.table.Keys
  {
    if script == [] then f
    else
      var n := |script| - 1;
      Used(Play(f, script[..n]), script[n].0, script[n].1)
  }

  /** The operations of the script that concern object `k`. */
  function OpsOn(script: seq<(nat, Op)>, k: nat): seq<Op> {
    if script == [] then []
    else OpsOn(script[..|script| - 1], k) + if script[|script| - 1].0 == k then [script[|script| - 1].1] else []
  }

  /** However operations on many objects are interleaved, an object allocated before them lives the
      life its own operations give it: it is live while it was held at every moment so far. */
  lemma {:induction false} ScriptLife(f: Freed, script: seq<(nat, Op)>, k: nat)
    requires forall i :: 0 <= i < |script| ==> script[i].0 in f.table
    requires k in f.table && f.table[k].life == FRESH
    ensures Play(f, script).table[k] == f.table[k].(life := Run(OpsOn(script, k)))
    ensures Play(f, script).table[k].life.live <==>
            var ops := OpsOn(script, k); forall j :: 0 <= j <= |ops| ==> !Unheld(ops, j)
    decreases |script|
  {
    if script != [] {
      var n := |script| - 1;
      ScriptLife(f, script[..n], k);
      var ops := OpsOn(script[..n], k);
      assert (ops + [script[n].1])[..|ops|] == ops;
      assert ops + [] == ops;
    }
    LiveWhileHeld(OpsOn(script, k));
  }

  /** Lowering a reference count is a change of the count, then possibly a free. */
  lemma RefDownThenFree(f: Freed, k: nat, refs: int)
    requires k in f.table && refs == if f.table[k].life.refs - 1 < 0 then 0 else f.table[k].life.refs - 1
    ensures var f' := Freed(f.blocks, f.table[k := f.table[k].(life := f.table[k].life.(refs := refs))]);
            Used(f, k, RefDown) == if refs == 0 && f.table[k].life.pins == 0 then FreeOne(f', k) else f'
  {
  }

  /** The counts of an object after all its pins were dropped. */
  function AllPinsDropped(l: Life): Life { Life(l.refs, 0, l.live && l.refs > 0) }

  /** Exactly the objects in `ks` had all their pins dropped and left the registry. */
  ghost predicate Swept(t: Table, p: map<nat, real>, t': Table, p': map<nat, real>, ks: set<nat>) {
    && t'.Keys == t.Keys && p'.Keys == p.Keys - ks
    && (forall k :: k in t ==> t'[k] == if k in ks then t[k].(life := AllPinsDropped(t[k].life)) else t[k])
    && (forall k :: k in p' ==> p'[k] == p[k])
  }

  lemma SweptMore(t: Table, p: map<nat, real>, t1: Table, p1: map<nat, real>, t2: Table, p2: map<nat, real>,
                  ks: set<nat>, k: nat, ks': set<nat>)
    requires Swept(t, p, t1, p1, ks) && k !in ks && Swept(t1, p1, t2, p2, {k}) && ks' == ks + {k}
    ensures Swept(t, p, t2, p2, ks')
  {
  }

  lemma SweptStill(t: Table, p: map<nat, real>, t': Table, p': map<nat, real>, ks: set<nat>, all: set<nat>, k: nat)
    requires Swept(t, p, t', p', ks) && all <= p.Keys && k in all && k !in ks
    ensures k in p'
  {
  }

  /** Object `k` has lost some of its pins, or all, and nothing else changed. */
  ghost predicate Dropping(t: Table, p: map<nat, real>, t': Table, p': map<nat, real>, k: nat) {
    && k in t && t'.Keys == t.Keys && t[k].life.pins > 0
    && (forall m :: m in t && m != k ==> t'[m] == t[m])
    && (if t'[k].life.pins > 0 then t'[k] == t[k].(life := t[k].life.(pins := t'[k].life.pins)) && p' == p
        else t'[k] == t[k].(life := AllPinsDropped(t[k].life)) && p' == p - {k})
  }

  lemma DroppingMore(t: Table, p: map<nat, real>, t1: Table, p1: map<nat, real>, k: nat)
    requires Dropping(t, p, t1, p1, k) && t1[k].life.pins > 0
    ensures Dropping(t, p, t1[k := t1[k].(life := Step(t1[k].life, Op.Unpin))], if t1[k].life.pins == 1 then p1 - {k} else p1, k)
  {
  }

  lemma DroppedIsSwept(t: Table, p: map<nat, real>, t': Table, p': map<nat, real>, k: nat)
    requires Dropping(t, p, t', p', k) && t'[k].life.pins <= 0
    ensures Swept(t, p, t', p', {k})
  {
  }

  ghost function Elems(s: seq<nat>): set<nat> { set k | k in s }

  lemma ElemsSnoc(s: seq<nat>, k: nat)
    ensures Elems(s + [k]) == Elems(s) + {k}
    ensures Distinct(s) && k !in Elems(s) ==> Distinct(s + [k])
  {
    assert forall m :: m in s + [k] <==> m in s || m == k;
  }

  lemma OneFewer(all: set<nat>, rest: set<nat>, k: nat)
    requires k in rest
    ensures all - (rest - {k}) == if k in all then all - rest + {k} else all - rest
  {
  }

  lemma {:induction false} DistinctSize(s: seq<nat>)
    requires Distinct(s)
    ensures |Elems(s)| == |s|
  {
    if s != [] {
      var pre, k := s[..|s| - 1], s[|s| - 1];
      DistinctSize(pre);
      assert Elems(s) == Elems(pre) + {k};
    }
  }

  lemma ElemsPrefix(s: seq<nat>, i: nat)
    requires Distinct(s) && i < |s|
    ensures s[i] !in Elems(s[..i]) && Elems(s[..i + 1]) == Elems(s[..i]) + {s[i]} && Elems(s[..i + 1]) <= Elems(s)
  {
    assert s[..i + 1] == s[..i] + [s[i]];
    ElemsSnoc(s[..i], s[i]);
  }

  /** The registry holds exactly the objects with a positive pin count, and the gauge its size. */
  ghost predicate Watches(t: Table, pinned: map<nat, real>, gauge: int) {
    && (forall k :: k in t ==> t[k].life.pins >= 0)
    && (forall k :: k in pinned <==> k in t && t[k].life.pins > 0)
    && gauge == |pinned|
  }

  /** Operations that leave every pin count alone leave the registry right. */
  lemma WatchesOther(t: Table, t': Table, pinned: map<nat, real>, gauge: int)
    requires Watches(t, pinned, gauge) && t.Keys <= t'.Keys
    requires forall k :: k in t' ==> t'[k].life.pins == if k in t then t[k].life.pins else 0
    ensures Watches(t', pinned, gauge)
  {
  }

  lemma WatchesPin(t: Table, pinned: map<nat, real>, gauge: int, k: nat, now: real, t': Table)
    requires Watches(t, pinned, gauge) && k in t && t' == t[k := t[k].(life := Step(t[k].life, Op.Pin))]
    ensures Watches(t', pinned[k := now], if t[k].life.pins == 0 then gauge + 1 else gauge)
  {
    assert pinned[k := now].Keys == pinned.Keys + {k};
  }

  lemma WatchesUnpin(t: Table, pinned: map<nat, real>, gauge: int, k: nat, t': Table)
    requires Watches(t, pinned, gauge) && k in t && t' == t[k := t[k].(life := Step(t[k].life, Op.Unpin))]
    ensures if t[k].life.pins == 1 then Watches(t', pinned - {k}, gauge - 1) else Watches(t', pinned, gauge)
  {
    assert (pinned - {k}).Keys == pinned.Keys - {k};
  }

  class TensorMemoryAllocator {
    const manager: AddressManager
    var objs: Table
    var next: nat
    var numActive: int
    /** The bytes that belong to live objects, and the object each belongs to. */
    ghost var held: set<int>
    ghost var owner: map<int, nat>

    ghost predicate Valid()
      reads this, manager
    {
      manager.Valid() && held <= manager.inUse && Tabled(objs, held, owner, numActive, next)
    }

    /** The bytes in use that no object will ever give back. */
    ghost function Lost(): set<int>
      reads this, manager
    {
      manager.inUse - held
    }

    constructor (bufferSize: nat, align: int)
      requires align > 0
      ensures Valid() && fresh(manager) && manager.size == bufferSize && manager.align == align
      ensures objs == map[] && Lost() == {}
    {
      manager := new AddressManager(bufferSize, align);
      objs, next, numActive, held, owner := map[], 0, 0, {}, map[];
      new;
      assert Live(objs) == {};
      TabledIsConsistent(objs, held, owner, numActive, next);
    }

    /** One new object over the lowest free run that can hold it. */
    method Allocate(rawSize: int) returns (r: Option<nat>)
      requires Valid() && rawSize > 0
      modifies this, manager
      ensures Valid() && manager.size == old(manager.size) && Lost() == old(Lost())
      ensures r.None? <==> !exists a :: FreeRun(old(manager.blocks), a, manager.ComputeAlignedSize(rawSize))
      ensures r.None? ==> objs == old(objs) && manager.blocks == old(manager.blocks)
      ensures r.Some? ==>
                && r.value !in old(objs) && r.value in objs
                && objs == old(objs)[r.value := objs[r.value]] && objs[r.value].life == FRESH
                && objs[r.value].phySize == manager.ComputeAlignedSize(rawSize)
                && Alloc(old(manager.blocks), objs[r.value].phySize) == Some((objs[r.value].address, manager.blocks))
    {
      var got := manager.Allocate(rawSize);
      if got.None? {
        return None;
      }
      var b := Block(got.value.0, got.value.1);
      ghost var span := Range(b.start, b.size);
      TakeBoth(old(manager.inUse), held, span, span);
      TabledAdd(objs, held, owner, numActive, next, b);
      r := Some(next);
      objs := Added(objs, next, b);
      held, owner := held + span, OwnerAdded(owner, next, b);
      next, numActive := next + 1, numActive + 1;
    }

    /** One run cut into `batch` objects of equal size, which are freed separately. */
    method BatchedAllocate(unitRawSize: int, batch: nat) returns (r: Option<seq<nat>>)
      requires Valid() && unitRawSize > 0 && batch > 0
      modifies this, manager
      ensures Valid() && manager.size == old(manager.size)
      ensures var need := manager.ComputeAlignedSize(Times(manager.ComputeAlignedSize(unitRawSize), batch));
              r.None? <==> Alloc(old(manager.blocks), need).None?
      ensures r.None? ==> objs == old(objs) && manager.blocks == old(manager.blocks) && Lost() == old(Lost())
      ensures r.Some? ==>
                var unit := manager.ComputeAlignedSize(unitRawSize);
                var total := Times(unit, batch);
                var need := manager.ComputeAlignedSize(total);
                && |r.value| == batch && (forall i :: 0 <= i < batch ==> r.value[i] == old(next) + i)
                && var (start, rest) := Alloc(old(manager.blocks), need).value;
                   && manager.blocks == rest && objs == AddedUnits(old(objs), old(next), start, unit, batch)
                   && Lost() == old(Lost()) + Range(start + total, need - total)
    {
      var unit := manager.ComputeAlignedSize(unitRawSize);
      var got := TakeRun(unit, batch);
      if got.None? {
        return None;
      }
      r := Some(got.value.1);
    }

    /** Allocate the run of a batch, whose length is rounded once more, and cut it. */
    method TakeRun(unit: nat, batch: nat) returns (r: Option<(int, seq<nat>)>)
      requires Valid() && unit > 0 && batch > 0
      modifies this, manager
      ensures Valid() && manager.size == old(manager.size)
      ensures r.None? <==> Alloc(old(manager.blocks), manager.ComputeAlignedSize(Times(unit, batch))).None?
      ensures r.None? ==> objs == old(objs) && manager.blocks == old(manager.blocks) && Lost() == old(Lost())
      ensures r.Some? ==>
                var (start, ids) := r.value;
                var total, need := Times(unit, batch), manager.ComputeAlignedSize(Times(unit, batch));
                && Alloc(old(manager.blocks), need) == Some((start, manager.blocks))
                && |ids| == batch && (forall i :: 0 <= i < batch ==> ids[i] == old(next) + i)
                && objs == AddedUnits(old(objs), old(next), start, unit, batch)
                && Lost() == old(Lost()) + Range(start + total, need - total)
    {
      var total := Times(unit, batch);
      var got := manager.Allocate(total);
      if got.None? {
        return None;
      }
      var ids := CutRun(old(manager.inUse), got.value.0, unit, batch, got.value.1);
      r := Some((got.value.0, ids));
    }

    /** Make objects of the front of a run of `need` bytes that was just taken. */
    method CutRun(ghost used: set<int>, start: int, unit: nat, batch: nat, ghost need: nat) returns (ids: seq<nat>)
      requires unit > 0 && batch > 0 && Times(unit, batch) <= need
      requires manager.Valid() && held <= used && Tabled(objs, held, owner, numActive, next)
      requires Range(start, need) !! used && manager.inUse == used + Range(start, need)
      modifies this
      ensures Valid() && Lost() == (used - old(held)) + Range(start + Times(unit, batch), need - Times(unit, batch))
      ensures objs == AddedUnits(old(objs), old(next), start, unit, batch)
      ensures |ids| == batch && forall i :: 0 <= i < batch ==> ids[i] == old(next) + i
    {
      ghost var total := Times(unit, batch);
      ghost var lost := (used - held) + Range(start + total, need - total);
      ghost var t' := AddedUnits(objs, next, start, unit, batch);
      ghost var held', owner' := held + Range(start, total), OwnerUnits(owner, next, start, unit, batch);
      RunHeld(used, held, start, total, need, manager.inUse, held', lost);
      TabledUnits(objs, held, owner, numActive, next, start, unit, batch, t', held', owner', numActive + batch, next + batch);
      held, owner := held', owner';
      ids := CutUnits(start, unit, batch);
      numActive := numActive + batch;
    }

    /** The loop that makes an object of each unit of a run. */
    method CutUnits(start: int, unit: nat, batch: nat) returns (ids: seq<nat>)
      modifies this`objs, this`next
      ensures objs == AddedUnits(old(objs), old(next), start, unit, batch) && next == old(next) + batch
      ensures |ids| == batch && forall i :: 0 <= i < batch ==> ids[i] == old(next) + i
    {
      ids := [];
      var at := start;
      for i := 0 to batch
        invariant next == old(next) + i && |ids| == i && forall j :: 0 <= j < i ==> ids[j] == old(next) + j
        invariant AddedUnits(objs, next, at, unit, batch - i) == AddedUnits(old(objs), old(next), start, unit, batch)
      {
        objs := Added(objs, next, Block(at, unit));
        ids := ids + [next];
        next, at := next + 1, at + unit;
      }
    }

    /** Give an object's bytes back, unless that already happened. */
    method Free(k: nat)
      requires Valid() && k in objs
      modifies this, manager
      ensures Valid() && manager.size == old(manager.size) && next == old(next) && Lost() == old(Lost())
      ensures Freed(manager.blocks, objs) == FreeOne(Freed(old(manager.blocks), old(objs)), k)
    {
      if !objs[k].life.live {
        return;
      }
      ghost var span := objs[k].Span();
      TabledLife(objs, held, owner, numActive, next, k, objs[k].life.(live := false));
      GiveBoth(manager.inUse, held, span);
      manager.Free(objs[k].address, objs[k].phySize);
      held, owner := held - span, owner - span;
      objs := Invalidated(objs, k);
      numActive := numActive - 1;
    }

    /** Sort the batch by address, invalidate and merge, then release the merged pieces. The result
        is what freeing the objects one by one would give. */
    method BatchedFree(ids: seq<nat>)
      requires Valid() && forall i :: 0 <= i < |ids| ==> ids[i] in objs
      modifies this, manager
      ensures Valid() && manager.size == old(manager.size) && next == old(next) && Lost() == old(Lost())
      ensures Freed(manager.blocks, objs) == FreeEach(Freed(old(manager.blocks), old(objs)), ids)
    {
      ghost var h, t := manager.State(), objs;
      var sorted := SortBatch(objs, ids);
      var pieces, counts := InvalidateAndMerge(sorted);
      ghost var held', owner' := held - Bytes(pieces), owner - Bytes(pieces);
      TabledBatch(h, t, held, owner, numActive, next, sorted, ids, objs, pieces, counts, held', owner', numActive - Total(counts));
      Settle(pieces, Total(counts), held', owner');
    }

    /** Give the merged pieces back and count the objects off. */
    method Settle(pieces: seq<Block>, count: nat, ghost held': set<int>, ghost owner': map<int, nat>)
      requires manager.Valid() && held <= manager.inUse && Ordered(pieces) && Bytes(pieces) <= held
      requires held' == held - Bytes(pieces) && Tabled(objs, held', owner', numActive - count, next)
      modifies this, manager
      ensures Valid() && manager.size == old(manager.size) && next == old(next) && objs == old(objs) && Lost() == old(Lost())
      ensures manager.blocks == ReleaseAll(old(manager.blocks), pieces)
    {
      GiveBoth(manager.inUse, held, Bytes(pieces));
      ReleasePieces(manager, pieces);
      held, owner := held', owner';
      numActive := numActive - count;
    }

    method InvalidateAndMerge(sorted: seq<nat>) returns (pieces: seq<Block>, counts: seq<nat>)
      modifies this`objs
      ensures Batch(objs, pieces, counts) == MergeEach(old(objs), sorted)
    {
      pieces, counts := [], [];
      for i := 0 to |sorted|
        invariant Batch(objs, pieces, counts) == MergeEach(old(objs), sorted[..i])
      {
        assert sorted[..i + 1][..i] == sorted[..i];
        var k := sorted[i];
        if IsLive(objs, k) {
          var b := objs[k].Extent();
          objs := Invalidated(objs, k);
          counts := Tally(pieces, counts, b);
          pieces := Extend(pieces, b);
        }
      }
      assert sorted[..|sorted|] == sorted;
    }

    method SetLife(k: nat, l: Life)
      requires Valid() && k in objs && l.live == objs[k].life.live
      modifies this`objs
      ensures Valid() && Lost() == old(Lost()) && objs == old(objs)[k := old(objs)[k].(life := l)]
    {
      TabledLife(objs, held, owner, numActive, next, k, l);
      objs := objs[k := objs[k].(life := l)];
    }

    method RefCountUp(k: nat)
      requires Valid() && k in objs
      modifies this, manager
      ensures Valid() && Lost() == old(Lost())
      ensures Freed(manager.blocks, objs) == Used(Freed(old(manager.blocks), old(objs)), k, RefUp)
    {
      SetLife(k, objs[k].life.(refs := objs[k].life.refs + 1));
    }

    method RefCountDown(k: nat)
      requires Valid() && k in objs
      modifies this, manager
      ensures Valid() && manager.size == old(manager.size) && next == old(next) && Lost() == old(Lost())
      ensures Freed(manager.blocks, objs) == Used(Freed(old(manager.blocks), old(objs)), k, RefDown)
    {
      var refs := objs[k].life.refs - 1;
      if refs < 0 {
        refs := 0;
      }
      RefDownThenFree(Freed(manager.blocks, objs), k, refs);
      SetLife(k, objs[k].life.(refs := refs));
      if refs == 0 && objs[k].life.pins == 0 {
        Free(k);
      }
    }

    method Pin(k: nat, monitor: PinMonitor, now: real)
      requires Valid() && k in objs && Watches(objs, monitor.pinned, monitor.gauge)
      modifies this, manager, monitor
      ensures Valid() && Watches(objs, monitor.pinned, monitor.gauge) && Lost() == old(Lost())
      ensures Freed(manager.blocks, objs) == Used(Freed(old(manager.blocks), old(objs)), k, Op.Pin)
      ensures monitor.pinned == old(monitor.pinned)[k := now]
    {
      var life := objs[k].life;
      if life.pins == 0 {
        monitor.gauge := monitor.gauge + 1;
      }
      WatchesPin(objs, monitor.pinned, old(monitor.gauge), k, now, objs[k := objs[k].(life := life.(pins := life.pins + 1))]);
      SetLife(k, life.(pins := life.pins + 1));
      monitor.OnPin(k, now);
    }

    method Unpin(k: nat, monitor: PinMonitor)
      requires Valid() && k in objs && Watches(objs, monitor.pinned, monitor.gauge)
      modifies this, manager, monitor
      ensures Valid() && Watches(objs, monitor.pinned, monitor.gauge) && Lost() == old(Lost())
      ensures manager.size == old(manager.size) && next == old(next)
      ensures Freed(manager.blocks, objs) == Used(Freed(old(manager.blocks), old(objs)), k, Op.Unpin)
      ensures monitor.pinned == if old(objs)[k].life.pins == 1 then old(monitor.pinned) - {k} else old(monitor.pinned)
    {
      var last := objs[k].life.pins == 1;
      DropPin(k);
      if last {
        monitor.gauge := monitor.gauge - 1;
        monitor.OnUnpin(k);
      }
    }

    /** The part of `Unpin` that concerns the object alone. */
    method DropPin(k: nat)
      requires Valid() && k in objs
      modifies this, manager
      ensures Valid() && manager.size == old(manager.size) && next == old(next) && Lost() == old(Lost())
      ensures Freed(manager.blocks, objs) == Used(Freed(old(manager.blocks), old(objs)), k, Op.Unpin)
    {
      var pins := objs[k].life.pins - 1;
      SetLife(k, objs[k].life.(pins := pins));
      if pins <= 0 && objs[k].life.refs <= 0 {
        Free(k);
      }
      if pins < 0 {
        SetLife(k, objs[k].life.(pins := 0));
      }
    }
  }

  class PinMonitor {
    const timeout: real
    /** Registration time of every pinned object. */
    var pinned: map<nat, real>
    var gauge: int

    constructor (timeout: real)
      ensures this.timeout == timeout && pinned == map[] && Watches(map[], pinned, gauge)
    {
      this.timeout := timeout;
      pinned, gauge := map[], 0;
    }

    method OnPin(k: nat, now: real)
      modifies this`pinned
      ensures pinned == old(pinned)[k := now]
    {
      pinned := pinned[k := now];
    }

    method OnUnpin(k: nat)
      modifies this`pinned
      ensures pinned == old(pinned) - {k}
    {
      if k in pinned {
        pinned := pinned - {k};
      }
    }

    /** Objects registered for longer than the timeout. */
    ghost function Expired(now: real): set<nat>
      reads this
    {
      set k | k in pinned && now - pinned[k] > timeout
    }

    /** One sweep: every object pinned for longer than the timeout loses all its pins, and is
        returned when it has no reference left; all others keep theirs. */
    method CheckTimeouts(a: TensorMemoryAllocator, now: real) returns (pinnedCount: nat, timeoutCount: nat, unpinned: nat)
      requires a.Valid() && Watches(a.objs, pinned, gauge)
      modifies this, a, a.manager
      ensures a.Valid() && Watches(a.objs, pinned, gauge) && a.Lost() == old(a.Lost())
      ensures Swept(old(a.objs), old(pinned), a.objs, pinned, old(Expired(now))) && Expired(now) == {}
      ensures pinnedCount == |old(pinned)| && timeoutCount == unpinned == |old(Expired(now))|
    {
      pinnedCount := |pinned|;
      var expired := CollectExpired(a.objs, now);
      DistinctSize(expired);
      timeoutCount := |expired|;
      ForceUnpinAll(a, expired);
      unpinned := |expired|;
    }

    method ForceUnpinAll(a: TensorMemoryAllocator, expired: seq<nat>)
      requires a.Valid() && Watches(a.objs, pinned, gauge) && Elems(expired) <= pinned.Keys && Distinct(expired)
      modifies this, a, a.manager
      ensures a.Valid() && Watches(a.objs, pinned, gauge) && a.Lost() == old(a.Lost())
      ensures Swept(old(a.objs), old(pinned), a.objs, pinned, Elems(expired))
    {
      ghost var t0, p0 := a.objs, pinned;
      assert Swept(t0, p0, t0, p0, Elems(expired[..0]));
      for i := 0 to |expired|
        invariant a.Valid() && Watches(a.objs, pinned, gauge) && a.Lost() == old(a.Lost())
        invariant Swept(t0, p0, a.objs, pinned, Elems(expired[..i]))
      {
        ghost var t, p, ks, ks' := a.objs, pinned, Elems(expired[..i]), Elems(expired[..i + 1]);
        ElemsPrefix(expired, i);
        SweptStill(t0, p0, t, p, ks, Elems(expired), expired[i]);
        ForceUnpin(a, expired[i]);
        SweptMore(t0, p0, t, p, a.objs, pinned, ks, expired[i], ks');
      }
      assert expired[..|expired|] == expired;
    }

    /** The list of objects whose time is up. */
    method CollectExpired(objs: Table, now: real) returns (expired: seq<nat>)
      requires Watches(objs, pinned, gauge)
      ensures Elems(expired) == Expired(now) && Distinct(expired)
    {
      expired := [];
      var rest := pinned.Keys;
      ghost var all := Expired(now);
      while rest != {}
        invariant rest <= pinned.Keys && Elems(expired) == all - rest && Distinct(expired)
        decreases |rest|
      {
        var k :| k in rest;
        ElemsSnoc(expired, k);
        OneFewer(all, rest, k);
        if objs[k].life.pins > 0 && now - pinned[k] > timeout {
          expired := expired + [k];
        }
        rest := rest - {k};
      }
    }

    /** Unpin until no pin is left. */
    method ForceUnpin(a: TensorMemoryAllocator, k: nat)
      requires a.Valid() && Watches(a.objs, pinned, gauge) && k in pinned
      modifies this, a, a.manager
      ensures a.Valid() && Watches(a.objs, pinned, gauge) && a.Lost() == old(a.Lost())
      ensures Swept(old(a.objs), old(pinned), a.objs, pinned, {k})
    {
      ghost var t, p := a.objs, pinned;
      while a.objs[k].life.pins > 0
        invariant a.Valid() && a.Lost() == old(a.Lost()) && Watches(a.objs, pinned, gauge) && Dropping(t, p, a.objs, pinned, k)
        decreases a.objs[k].life.pins
      {
        DroppingMore(t, p, a.objs, pinned, k);
        a.Unpin(k, this);
      }
      DroppedIsSwept(t, p, a.objs, pinned, k);
    }
  }

  /** Release ordered pieces one after the other. */
  method ReleasePieces(m: AddressManager, pieces: seq<Block>)
    requires m.Valid() && Ordered(pieces) && Bytes(pieces) <= m.inUse
    modifies m
    ensures m.Valid() && m.size == old(m.size)
    ensures m.blocks == ReleaseAll(old(m.blocks), pieces) && m.inUse == old(m.inUse) - Bytes(pieces)
  {
    for i := 0 to |pieces|
      invariant m.Valid() && m.size == old(m.size)
      invariant Ordered(pieces[i..]) && Bytes(pieces[i..]) <= m.inUse
      invariant ReleaseAll(m.blocks, pieces[i..]) == ReleaseAll(old(m.blocks), pieces)
      invariant m.inUse - Bytes(pieces[i..]) == old(m.inUse) - Bytes(pieces)
    {
      var rest := pieces[i..];
      OrderedFirst(rest);
      assert rest[0] == pieces[i] && rest[1..] == pieces[i + 1..];
      m.Free(pieces[i].start, pieces[i].size);
    }
  }
}
