/** The explicit free list as a value: first fit, release with two-sided coalescing and heap
    growth, each characterised by the bytes it covers. */
module FreeList {
  import opened Basics

  datatype Block = Block(start: int, size: int) {
    function End(): int { start + size }

    predicate Has(x: int) { start <= x < End() }
  }

  /** The bytes [a, a + n). */
  ghost function Range(a: int, n: int): set<int> { set x | a <= x < a + n && IsIn(x, a, n) }

  predicate IsIn(x: int, a: int, n: int) { a <= x < a + n }

  /** The bytes the blocks cover. */
  ghost function Bytes(bs: seq<Block>): set<int> {
    if bs == [] then {} else Range(bs[0].start, bs[0].size) + Bytes(bs[1..])
  }

  /** Sorted, inside the heap, and fully coalesced: a gap of at least one byte between any two
      blocks. The one empty block the source can create sits at the very end of the heap (a heap
      created with size 0, or grown by 0 bytes when its last byte is in use). */
  ghost predicate Wf(bs: seq<Block>, heap: int) {
    && (forall i :: 0 <= i < |bs| ==>
          && 0 <= bs[i].start && 0 <= bs[i].size && bs[i].End() <= heap
          && (bs[i].size == 0 ==> bs[i].start == heap))
    && (forall i, j :: 0 <= i < j < |bs| ==> bs[i].End() < bs[j].start)
  }

  /** The list ends in the empty marker block. */
  ghost predicate HasTail(bs: seq<Block>) { |bs| > 0 && bs[|bs| - 1].size == 0 }

  function Sum(bs: seq<Block>): int {
    if bs == [] then 0 else bs[0].size + Sum(bs[1..])
  }

  /** Every byte of [a, a + n) is free. */
  ghost predicate FreeRun(bs: seq<Block>, a: int, n: int) { Range(a, n) <= Bytes(bs) }

  /** [a, a + n) is a non-empty part of the heap none of whose bytes is free. */
  ghost predicate InUse(bs: seq<Block>, heap: int, a: int, n: int) {
    0 <= a && 0 < n && a + n <= heap && Range(a, n) !! Bytes(bs)
  }

  // ----- operations

  /** Index of the first block that starts at or after `start`. */
  function Position(bs: seq<Block>, start: int): (p: nat)
    ensures p <= |bs|
    ensures forall i :: 0 <= i < p ==> bs[i].start < start
    ensures p < |bs| ==> start <= bs[p].start
  {
    if bs == [] || start <= bs[0].start then 0 else 1 + Position(bs[1..], start)
  }

  /** Index of the first block of at least `n` bytes, or the length of the list. */
  function FirstFit(bs: seq<Block>, n: int): (p: nat)
    ensures p <= |bs|
    ensures forall i :: 0 <= i < p ==> bs[i].size < n
    ensures p < |bs| ==> n <= bs[p].size
  {
    if bs == [] || n <= bs[0].size then 0 else 1 + FirstFit(bs[1..], n)
  }

  function Splice(bs: seq<Block>, lo: nat, hi: nat, mid: seq<Block>): seq<Block>
    requires lo <= hi <= |bs|
  {
    bs[..lo] + mid + bs[hi..]
  }

  lemma SpliceAt(bs: seq<Block>, lo: nat, hi: nat, b: Block, k: nat)
    requires lo <= hi <= |bs| && k < lo + 1 + |bs| - hi
    ensures Splice(bs, lo, hi, [b])[k] == if k < lo then bs[k] else if k == lo then b else bs[k - lo - 1 + hi]
  {
  }

  /** First fit: the address handed out and the list that remains. */
  function Alloc(bs: seq<Block>, n: int): Option<(int, seq<Block>)> {
    var i := FirstFit(bs, n);
    if i == |bs| then None
    else
      Some((bs[i].start, Splice(bs, i, i + 1, Rest(Block(bs[i].start + n, bs[i].size - n)))))
  }

  /** What is left of a block after its front was taken: nothing when it fitted exactly. */
  function Rest(b: Block): seq<Block> { if b.size > 0 then [b] else [] }

  /** Put [a, a + n) back, joined with the neighbours it touches. */
  function Release(bs: seq<Block>, a: int, n: int): seq<Block> {
    JoinAt(bs, Position(bs, a), Block(a, n))
  }

  /** `c` put between the blocks before index `i` and those from `i` on, joined with whichever of
      its two neighbours it touches. */
  function JoinAt(bs: seq<Block>, i: nat, c: Block): seq<Block>
    requires i <= |bs|
  {
    Splice(bs, Lo(bs, i, c), Hi(bs, i, c), [Merged(bs, i, c)])
  }

  function Lo(bs: seq<Block>, i: nat, c: Block): (lo: nat)
    requires i <= |bs|
    ensures lo <= i
  {
    if i > 0 && bs[i - 1].End() == c.start then i - 1 else i
  }

  function Hi(bs: seq<Block>, i: nat, c: Block): (hi: nat)
    requires i <= |bs|
    ensures i <= hi <= |bs|
  {
    if i < |bs| && c.End() == bs[i].start then i + 1 else i
  }

  function Merged(bs: seq<Block>, i: nat, c: Block): Block
    requires i <= |bs|
  {
    var start := if Lo(bs, i, c) < i then bs[i - 1].start else c.start;
    var end := if i < Hi(bs, i, c) then bs[i].End() else c.End();
    Block(start, end - start)
  }

  /** Grow a heap of `heap` bytes by `n` bytes. */
  function Grow(bs: seq<Block>, heap: int, n: int): seq<Block> {
    if |bs| > 0 && bs[|bs| - 1].End() == heap
    then bs[|bs| - 1 := Block(bs[|bs| - 1].start, bs[|bs| - 1].size + n)]
    else bs + [Block(heap, n)]
  }

  function ReleaseAll(bs: seq<Block>, rs: seq<Block>): seq<Block>
    decreases |rs|
  {
    if rs == [] then bs else ReleaseAll(Release(bs, rs[0].start, rs[0].size), rs[1..])
  }

  // ----- splicing

  lemma {:induction false} BytesAppend(a: seq<Block>, b: seq<Block>)
    ensures Bytes(a + b) == Bytes(a) + Bytes(b)
  {
    if a == [] {
      assert a + b == b;
    } else {
      assert (a + b)[1..] == a[1..] + b;
      BytesAppend(a[1..], b);
    }
  }

  lemma {:induction false} SumAppend(a: seq<Block>, b: seq<Block>)
    ensures Sum(a + b) == Sum(a) + Sum(b)
  {
    if a == [] {
      assert a + b == b;
    } else {
      assert (a + b)[1..] == a[1..] + b;
      SumAppend(a[1..], b);
    }
  }

  lemma SpliceBytes(bs: seq<Block>, lo: nat, hi: nat, mid: seq<Block>)
    requires lo <= hi <= |bs|
    ensures Bytes(Splice(bs, lo, hi, mid)) == Bytes(bs[..lo]) + Bytes(mid) + Bytes(bs[hi..])
  {
    BytesAppend(bs[..lo] + mid, bs[hi..]);
    BytesAppend(bs[..lo], mid);
  }

  lemma SpliceSum(bs: seq<Block>, lo: nat, hi: nat, mid: seq<Block>)
    requires lo <= hi <= |bs|
    ensures Sum(Splice(bs, lo, hi, mid)) == Sum(bs[..lo]) + Sum(mid) + Sum(bs[hi..])
  {
    SumAppend(bs[..lo] + mid, bs[hi..]);
    SumAppend(bs[..lo], mid);
  }

  /** Cutting a stretch out and putting it back. */
  lemma SpliceSelf(bs: seq<Block>, lo: nat, hi: nat)
    requires lo <= hi <= |bs|
    ensures Bytes(bs) == Bytes(bs[..lo]) + Bytes(bs[lo..hi]) + Bytes(bs[hi..])
    ensures Sum(bs) == Sum(bs[..lo]) + Sum(bs[lo..hi]) + Sum(bs[hi..])
  {
    assert bs == Splice(bs, lo, hi, bs[lo..hi]);
    SpliceBytes(bs, lo, hi, bs[lo..hi]);
    SpliceSum(bs, lo, hi, bs[lo..hi]);
  }

  lemma Single(b: Block)
    ensures Bytes([b]) == Range(b.start, b.size) && Sum([b]) == b.size
  {
    assert [b][1..] == [];
  }

  /** A block that keeps its distance from both neighbours can replace a stretch of the list. */
  lemma SpliceWf(bs: seq<Block>, heap: int, lo: nat, hi: nat, b: Block)
    requires Wf(bs, heap) && lo <= hi <= |bs|
    requires 0 <= b.start && 0 <= b.size && b.End() <= heap && (b.size == 0 ==> b.start == heap)
    requires lo > 0 ==> bs[lo - 1].End() < b.start
    requires hi < |bs| ==> b.End() < bs[hi].start
    ensures Wf(Splice(bs, lo, hi, [b]), heap)
  {
    WfAppend(bs[..lo], [b], heap);
    WfAppend(bs[..lo] + [b], bs[hi..], heap);
  }

  lemma WfAppend(p: seq<Block>, q: seq<Block>, heap: int)
    requires Wf(p, heap) && Wf(q, heap)
    requires |p| > 0 && |q| > 0 ==> p[|p| - 1].End() < q[0].start
    ensures Wf(p + q, heap)
  {
    var s := p + q;
    forall i, j | 0 <= i < j < |s| ensures s[i].End() < s[j].start {
      if i < |p| <= j {
        assert i == |p| - 1 || p[i].End() < p[|p| - 1].start;
        assert j == |p| || q[0].End() < q[j - |p|].start;
      }
    }
  }

  lemma CutWf(bs: seq<Block>, heap: int, i: nat)
    requires Wf(bs, heap) && i < |bs|
    ensures Wf(Splice(bs, i, i + 1, []), heap)
  {
    var s := Splice(bs, i, i + 1, []);
    forall k | 0 <= k < |s| ensures s[k] == if k < i then bs[k] else bs[k + 1] {}
  }

  lemma {:induction false} BytesBelow(bs: seq<Block>, hi: int)
    requires forall i :: 0 <= i < |bs| ==> bs[i].End() <= hi
    ensures forall x :: x in Bytes(bs) ==> x < hi
  {
    if bs != [] { BytesBelow(bs[1..], hi); }
  }

  lemma {:induction false} BytesAbove(bs: seq<Block>, lo: int)
    requires forall i :: 0 <= i < |bs| ==> lo <= bs[i].start
    ensures forall x :: x in Bytes(bs) ==> lo <= x
  {
    if bs != [] { BytesAbove(bs[1..], lo); }
  }

  lemma BlockInBytes(bs: seq<Block>, i: nat)
    requires i < |bs|
    ensures Range(bs[i].start, bs[i].size) <= Bytes(bs)
  {
    SpliceSelf(bs, i, i + 1);
    assert bs[i..i + 1] == [bs[i]];
    Single(bs[i]);
  }

  lemma {:induction false} ByteInBlock(bs: seq<Block>, x: int) returns (i: nat)
    requires x in Bytes(bs)
    ensures i < |bs| && bs[i].Has(x)
  {
    if bs[0].Has(x) { i := 0; } else { i := ByteInBlock(bs[1..], x); i := i + 1; }
  }

  // ----- allocate

  /** Full coalescing: a run of free bytes lies inside a single block. */
  lemma {:induction false} RunInOneBlock(bs: seq<Block>, heap: int, a: int, n: int) returns (i: nat)
    requires Wf(bs, heap) && n > 0 && FreeRun(bs, a, n)
    ensures i < |bs| && bs[i].start <= a && a + n <= bs[i].End()
    decreases n
  {
    assert a + n - 1 in Range(a, n);
    var j := ByteInBlock(bs, a + n - 1);
    if n == 1 {
      i := j;
    } else {
      assert Range(a, n - 1) <= Range(a, n);
      i := RunInOneBlock(bs, heap, a, n - 1);
      assert !(i < j) && !(j < i);
    }
  }

  /** Allocation fails exactly when the heap holds no run of `n` free bytes anywhere, and
      otherwise hands out the lowest address at which one starts. */
  lemma AllocFindsLowestRun(bs: seq<Block>, heap: int, n: int)
    requires Wf(bs, heap) && n > 0
    ensures Alloc(bs, n).None? <==> !exists a :: FreeRun(bs, a, n)
    ensures Alloc(bs, n).Some? ==>
              && FreeRun(bs, Alloc(bs, n).value.0, n)
              && forall a :: FreeRun(bs, a, n) ==> Alloc(bs, n).value.0 <= a
  {
    var k := FirstFit(bs, n);
    if k < |bs| {
      BlockInBytes(bs, k);
      assert Range(bs[k].start, n) <= Range(bs[k].start, bs[k].size);
      assert FreeRun(bs, bs[k].start, n);
    }
    forall a | FreeRun(bs, a, n)
      ensures k < |bs| && bs[k].start <= a
    {
      var i := RunInOneBlock(bs, heap, a, n);
      assert k <= i && (k == i || bs[k].End() < bs[i].start);
    }
  }

  /** What allocation does to the free bytes. */
  lemma AllocEffect(bs: seq<Block>, heap: int, n: int, a: int, bs': seq<Block>)
    requires Wf(bs, heap) && n > 0 && Alloc(bs, n) == Some((a, bs'))
    ensures Wf(bs', heap) && 0 <= a && a + n <= heap && Sum(bs') == Sum(bs) - n
    ensures Range(a, n) <= Bytes(bs) && Bytes(bs') == Bytes(bs) - Range(a, n)
    ensures HasTail(bs') <==> HasTail(bs)
  {
    var i := FirstFit(bs, n);
    AllocAt(bs, heap, i, n, Block(bs[i].start + n, bs[i].size - n), bs');
  }

  lemma AllocAt(bs: seq<Block>, heap: int, i: nat, n: int, left: Block, bs': seq<Block>)
    requires Wf(bs, heap) && i < |bs| && 0 < n <= bs[i].size && left == Block(bs[i].start + n, bs[i].size - n)
    requires bs' == Splice(bs, i, i + 1, Rest(left))
    ensures Wf(bs', heap) && Sum(bs') == Sum(bs) - n
    ensures Range(bs[i].start, n) <= Bytes(bs) && Bytes(bs') == Bytes(bs) - Range(bs[i].start, n)
    ensures HasTail(bs') <==> HasTail(bs)
  {
    RestBytes(left);
    AllocBytes(bs, heap, i, n, Rest(left));
    AllocTail(bs, heap, i, n, Rest(left));
  }

  lemma RestBytes(b: Block)
    requires b.size >= 0
    ensures Bytes(Rest(b)) == Range(b.start, b.size) && Sum(Rest(b)) == b.size
  {
    Single(b);
  }

  lemma AllocTail(bs: seq<Block>, heap: int, i: nat, n: int, rest: seq<Block>)
    requires Wf(bs, heap) && i < |bs| && 0 < n <= bs[i].size
    requires rest == Rest(Block(bs[i].start + n, bs[i].size - n))
    ensures Wf(Splice(bs, i, i + 1, rest), heap)
    ensures HasTail(Splice(bs, i, i + 1, rest)) <==> HasTail(bs)
  {
    var s := Splice(bs, i, i + 1, rest);
    if rest != [] {
      SpliceWf(bs, heap, i, i + 1, rest[0]);
    } else {
      CutWf(bs, heap, i);
    }
    if i < |bs| - 1 {
      assert s[|s| - 1] == bs[|bs| - 1];
    } else if rest != [] {
      assert s[|s| - 1] == rest[0];
    } else if i > 0 {
      assert s[|s| - 1] == bs[i - 1] && bs[i - 1].End() < bs[i].start;
    }
  }

  lemma AllocBytes(bs: seq<Block>, heap: int, i: nat, n: int, rest: seq<Block>)
    requires Wf(bs, heap) && i < |bs| && 0 < n <= bs[i].size
    requires Bytes(rest) == Range(bs[i].start + n, bs[i].size - n) && Sum(rest) == bs[i].size - n
    ensures Range(bs[i].start, n) <= Bytes(bs)
    ensures Bytes(Splice(bs, i, i + 1, rest)) == Bytes(bs) - Range(bs[i].start, n)
    ensures Sum(Splice(bs, i, i + 1, rest)) == Sum(bs) - n
  {
    assert bs[i..i + 1] == [bs[i]];
    Single(bs[i]);
    SpliceSelf(bs, i, i + 1);
    SpliceBytes(bs, i, i + 1, rest);
    SpliceSum(bs, i, i + 1, rest);
    BlockInBytes(bs, i);
    BytesBelow(bs[..i], bs[i].start);
    BytesAbove(bs[i + 1..], bs[i].End());
    CarveFront(Bytes(bs[..i]), Bytes(bs[i + 1..]), bs[i].start, n, bs[i].size);
  }

  lemma CarveFront(below: set<int>, above: set<int>, s: int, n: int, size: int)
    requires 0 < n <= size
    requires (forall x :: x in below ==> x < s) && (forall x :: x in above ==> s + size <= x)
    ensures below + Range(s + n, size - n) + above == below + Range(s, size) + above - Range(s, n)
  {
  }

  // ----- release

  /** [a, a + n) lies between the two blocks around its position. */
  predicate Fits(bs: seq<Block>, a: int, n: int) {
    var i := Position(bs, a);
    && (i > 0 ==> bs[i - 1].End() <= a)
    && (i < |bs| ==> a + n <= bs[i].start)
  }

  lemma ReleaseNeighbours(bs: seq<Block>, heap: int, a: int, n: int)
    requires Wf(bs, heap) && InUse(bs, heap, a, n)
    ensures Fits(bs, a, n)
  {
    var i := Position(bs, a);
    if i > 0 {
      BlockInBytes(bs, i - 1);
      assert a in Range(a, n);
      assert a !in Range(bs[i - 1].start, bs[i - 1].size);
    }
    if i < |bs| {
      BlockInBytes(bs, i);
      var b := bs[i];
      assert b.start in Range(a, n) ==> b.start !in Range(b.start, b.size);
    }
  }

  /** What releasing bytes in use does to the free bytes: they are added, and the list stays sorted
      and coalesced. */
  lemma ReleaseEffect(bs: seq<Block>, heap: int, a: int, n: int)
    requires Wf(bs, heap) && InUse(bs, heap, a, n)
    ensures Wf(Release(bs, a, n), heap) && Sum(Release(bs, a, n)) == Sum(bs) + n
    ensures Bytes(Release(bs, a, n)) == Bytes(bs) + Range(a, n)
    ensures HasTail(Release(bs, a, n)) <==> HasTail(bs) && a + n != heap
  {
    ReleaseNeighbours(bs, heap, a, n);
    MergedWf(bs, heap, a, n);
    MergedBytes(bs, heap, a, n);
    MergedTail(bs, heap, a, n);
  }

  lemma MergedWf(bs: seq<Block>, heap: int, a: int, n: int)
    requires Wf(bs, heap) && 0 <= a && 0 < n && a + n <= heap && Fits(bs, a, n)
    ensures Wf(Release(bs, a, n), heap)
  {
    var i, c := Position(bs, a), Block(a, n);
    var lo, hi, b := Lo(bs, i, c), Hi(bs, i, c), Merged(bs, i, c);
    assert lo > 0 ==> bs[lo - 1].End() < b.start;
    assert hi < |bs| ==> b.End() < bs[hi].start;
    SpliceWf(bs, heap, lo, hi, b);
  }

  lemma MergedBytes(bs: seq<Block>, heap: int, a: int, n: int)
    requires Wf(bs, heap) && 0 <= a && 0 < n && a + n <= heap && Fits(bs, a, n)
    ensures Bytes(Release(bs, a, n)) == Bytes(bs) + Range(a, n)
    ensures Sum(Release(bs, a, n)) == Sum(bs) + n
  {
    var i, c := Position(bs, a), Block(a, n);
    var lo, hi, b := Lo(bs, i, c), Hi(bs, i, c), Merged(bs, i, c);
    SpliceSelf(bs, lo, hi);
    SpliceBytes(bs, lo, hi, [b]);
    SpliceSum(bs, lo, hi, [b]);
    Single(b);
    MergedStretch(bs, heap, a, n);
    Regroup(Bytes(bs[..lo]), Bytes(bs[lo..hi]), Bytes(bs[hi..]), Range(a, n));
  }

  lemma Regroup(p: set<int>, m: set<int>, s: set<int>, r: set<int>)
    ensures p + (m + r) + s == p + m + s + r
  {
  }

  lemma MergedStretch(bs: seq<Block>, heap: int, a: int, n: int)
    requires Wf(bs, heap) && 0 <= a && 0 < n && a + n <= heap && Fits(bs, a, n)
    ensures var i, c := Position(bs, a), Block(a, n);
            var b, s := Merged(bs, i, c), bs[Lo(bs, i, c)..Hi(bs, i, c)];
            Range(b.start, b.size) == Bytes(s) + Range(a, n) && b.size == Sum(s) + n
  {
    var i, c := Position(bs, a), Block(a, n);
    var lo, hi := Lo(bs, i, c), Hi(bs, i, c);
    var s := bs[lo..hi];
    if lo == hi {
      assert s == [];
    } else if hi == i {
      assert s == [bs[i - 1]];
    } else if lo == i {
      assert s == [bs[i]];
    } else {
      assert s == [bs[i - 1], bs[i]];
    }
    Joined(s, a, n, Merged(bs, i, c));
  }

  lemma Joined(s: seq<Block>, a: int, n: int, b: Block)
    requires |s| <= 2 && n > 0 && (forall k :: 0 <= k < |s| ==> s[k].size >= 0)
    requires s == [] ==> b == Block(a, n)
    requires |s| == 1 ==> if s[0].End() == a then b == Block(s[0].start, s[0].size + n)
                          else s[0].start == a + n && b == Block(a, n + s[0].size)
    requires |s| == 2 ==> s[0].End() == a && a + n == s[1].start && b == Block(s[0].start, s[0].size + n + s[1].size)
    ensures Range(b.start, b.size) == Bytes(s) + Range(a, n) && b.size == Sum(s) + n
  {
    if |s| == 1 { assert s == [s[0]]; Single(s[0]); }
    if |s| == 2 { assert s[1..] == [s[1]]; Single(s[1]); }
  }

  lemma SpliceTail(bs: seq<Block>, lo: nat, hi: nat, b: Block)
    requires lo <= hi <= |bs|
    ensures HasTail(Splice(bs, lo, hi, [b])) <==> if hi < |bs| then HasTail(bs) else b.size == 0
  {
    SpliceAt(bs, lo, hi, b, lo + |bs| - hi);
  }

  lemma MergedTail(bs: seq<Block>, heap: int, a: int, n: int)
    requires Wf(bs, heap) && 0 <= a && 0 < n && a + n <= heap && Fits(bs, a, n)
    ensures HasTail(Release(bs, a, n)) <==> HasTail(bs) && a + n != heap
  {
    var i, c, last := Position(bs, a), Block(a, n), |bs| - 1;
    var hi := Hi(bs, i, c);
    SpliceTail(bs, Lo(bs, i, c), hi, Merged(bs, i, c));
    assert i < hi < |bs| ==> bs[i].End() < bs[last].start;
  }

  // ----- grow

  lemma GrowEffect(bs: seq<Block>, heap: int, n: int)
    requires Wf(bs, heap) && n >= 0 && heap >= 0
    ensures Wf(Grow(bs, heap, n), heap + n) && Sum(Grow(bs, heap, n)) == Sum(bs) + n
    ensures Bytes(Grow(bs, heap, n)) == Bytes(bs) + Range(heap, n)
  {
    GrowWf(bs, heap, n);
    if |bs| > 0 && bs[|bs| - 1].End() == heap {
      GrowLast(bs, heap, n, Block(bs[|bs| - 1].start, bs[|bs| - 1].size + n));
    } else {
      SumAppend(bs, [Block(heap, n)]);
      BytesAppend(bs, [Block(heap, n)]);
      Single(Block(heap, n));
    }
  }

  lemma GrowLast(bs: seq<Block>, heap: int, n: int, b: Block)
    requires |bs| > 0 && n >= 0 && bs[|bs| - 1].size >= 0 && bs[|bs| - 1].End() == heap
    requires b == Block(bs[|bs| - 1].start, bs[|bs| - 1].size + n)
    ensures Sum(bs[|bs| - 1 := b]) == Sum(bs) + n && Bytes(bs[|bs| - 1 := b]) == Bytes(bs) + Range(heap, n)
  {
    var k := |bs| - 1;
    SumAppend(bs[..k], [bs[k]]);
    SumAppend(bs[..k], [b]);
    BytesAppend(bs[..k], [bs[k]]);
    BytesAppend(bs[..k], [b]);
    Single(bs[k]);
    Single(b);
    assert bs == bs[..k] + [bs[k]] && bs[k := b] == bs[..k] + [b];
    assert Range(b.start, b.size) == Range(bs[k].start, bs[k].size) + Range(heap, n);
  }

  lemma GrowWf(bs: seq<Block>, heap: int, n: int)
    requires Wf(bs, heap) && n >= 0 && heap >= 0
    ensures Wf(Grow(bs, heap, n), heap + n)
  {
    var s, k := Grow(bs, heap, n), |bs| - 1;
    assert forall i :: 0 <= i < k ==> s[i] == bs[i] && bs[i].End() < bs[k].start;
  }

  // ----- the list is a canonical form of its bytes

  lemma FirstBlock(bs: seq<Block>, heap: int)
    requires Wf(bs, heap) && |bs| > 0 && bs[0].size > 0
    ensures Range(bs[0].start, bs[0].size) <= Bytes(bs) && bs[0].End() !in Bytes(bs)
    ensures forall x :: x in Bytes(bs) ==> bs[0].start <= x
    ensures Bytes(bs[1..]) == Bytes(bs) - Range(bs[0].start, bs[0].size)
  {
    BytesAbove(bs[1..], bs[0].End() + 1);
  }

  lemma NoBytes(bs: seq<Block>, heap: int)
    requires Wf(bs, heap)
    ensures (|bs| == 0 || bs[0].size == 0) <==> Bytes(bs) == {}
    ensures (|bs| == 0 || bs[0].size == 0) ==> bs == if HasTail(bs) then [Block(heap, 0)] else []
  {
    if |bs| > 0 {
      if bs[0].size > 0 { assert bs[0].start in Range(bs[0].start, bs[0].size); }
      else {
        assert |bs| > 1 ==> bs[0].End() < bs[1].start;
        assert bs == [Block(heap, 0)];
        Single(bs[0]);
      }
    }
  }

  lemma SameFirstBlock(b1: seq<Block>, b2: seq<Block>, heap: int)
    requires Wf(b1, heap) && Wf(b2, heap) && Bytes(b1) == Bytes(b2)
    requires |b1| > 0 && b1[0].size > 0 && |b2| > 0 && b2[0].size > 0
    ensures b1[0] == b2[0] && Bytes(b1[1..]) == Bytes(b2[1..])
  {
    FirstBlock(b1, heap);
    FirstBlock(b2, heap);
    assert b1[0].start in Bytes(b1) && b2[0].start in Bytes(b2);
    assert b1[0].End() !in Range(b2[0].start, b2[0].size);
    assert b2[0].End() !in Range(b1[0].start, b1[0].size);
  }

  lemma WithoutFirst(bs: seq<Block>, heap: int)
    requires Wf(bs, heap) && |bs| > 0 && bs[0].size > 0
    ensures Wf(bs[1..], heap) && (HasTail(bs[1..]) <==> HasTail(bs))
  {
  }

  /** Two well-formed lists over the same heap with the same free bytes are the same list. */
  lemma {:induction false} Canonical(b1: seq<Block>, b2: seq<Block>, heap: int)
    requires Wf(b1, heap) && Wf(b2, heap) && (HasTail(b1) <==> HasTail(b2))
    requires Bytes(b1) == Bytes(b2)
    ensures b1 == b2
    decreases |b1|
  {
    NoBytes(b1, heap);
    NoBytes(b2, heap);
    if |b1| > 0 && b1[0].size > 0 {
      SameFirstBlock(b1, b2, heap);
      WithoutFirst(b1, heap);
      WithoutFirst(b2, heap);
      Canonical(b1[1..], b2[1..], heap);
      SameHeadAndTail(b1, b2);
    }
  }

  lemma SameHeadAndTail(b1: seq<Block>, b2: seq<Block>)
    requires |b1| > 0 && |b2| > 0 && b1[0] == b2[0] && b1[1..] == b2[1..]
    ensures b1 == b2
  {
    assert b1 == [b1[0]] + b1[1..];
  }

  lemma TailByte(bs: seq<Block>, heap: int)
    requires Wf(bs, heap) && HasTail(bs)
    ensures heap - 1 !in Bytes(bs)
  {
    var k := |bs| - 1;
    assert bs == bs[..k] + [bs[k]];
    BytesAppend(bs[..k], [bs[k]]);
    Single(bs[k]);
    BytesBelow(bs[..k], heap - 1);
  }

  /** Releasing what was just allocated restores the very same list. */
  lemma AllocThenRelease(bs: seq<Block>, heap: int, n: int, a: int, bs': seq<Block>)
    requires Wf(bs, heap) && n > 0 && Alloc(bs, n) == Some((a, bs'))
    ensures Release(bs', a, n) == bs
  {
    AllocEffect(bs, heap, n, a, bs');
    ReleasedBack(bs, heap, n, a, bs');
  }

  lemma ReleasedBack(bs: seq<Block>, heap: int, n: int, a: int, bs': seq<Block>)
    requires Wf(bs, heap) && Wf(bs', heap) && 0 < n && 0 <= a && a + n <= heap
    requires Range(a, n) <= Bytes(bs) && Bytes(bs') == Bytes(bs) - Range(a, n)
    requires HasTail(bs') <==> HasTail(bs)
    ensures Release(bs', a, n) == bs
  {
    PutBack(Bytes(bs), Bytes(bs'), Range(a, n));
    ReleaseEffect(bs', heap, a, n);
    if HasTail(bs) {
      TailByte(bs, heap);
      assert a + n - 1 in Range(a, n);
    }
    Canonical(Release(bs', a, n), bs, heap);
  }

  lemma PutBack(all: set<int>, rest: set<int>, part: set<int>)
    requires part <= all && rest == all - part
    ensures part !! rest && rest + part == all
  {
  }

  // ----- releasing many pieces

  /** Pieces that are in use and do not overlap one another. */
  ghost predicate Releasable(bs: seq<Block>, heap: int, rs: seq<Block>) {
    && (forall i :: 0 <= i < |rs| ==> InUse(bs, heap, rs[i].start, rs[i].size))
    && (forall i, j :: 0 <= i < j < |rs| ==> Apart(rs[i], rs[j]))
  }

  predicate Apart(a: Block, b: Block) { a.End() <= b.start || b.End() <= a.start }

  lemma ReleasableRest(bs: seq<Block>, heap: int, rs: seq<Block>)
    requires Wf(bs, heap) && Releasable(bs, heap, rs) && |rs| > 0
    ensures Releasable(Release(bs, rs[0].start, rs[0].size), heap, rs[1..])
  {
    var bs' := Release(bs, rs[0].start, rs[0].size);
    ReleaseEffect(bs, heap, rs[0].start, rs[0].size);
    forall i | 0 <= i < |rs[1..]| ensures InUse(bs', heap, rs[1..][i].start, rs[1..][i].size) {
      var r := rs[i + 1];
      assert InUse(bs, heap, r.start, r.size) && Apart(rs[0], r);
      assert Range(r.start, r.size) !! Range(rs[0].start, rs[0].size);
    }
  }

  lemma {:induction false} ReleaseAllEffect(bs: seq<Block>, heap: int, rs: seq<Block>)
    requires Wf(bs, heap) && Releasable(bs, heap, rs)
    ensures Wf(ReleaseAll(bs, rs), heap) && Sum(ReleaseAll(bs, rs)) == Sum(bs) + Sum(rs)
    ensures Bytes(ReleaseAll(bs, rs)) == Bytes(bs) + Bytes(rs)
    ensures HasTail(ReleaseAll(bs, rs)) <==> HasTail(bs) && heap - 1 !in Bytes(rs)
    decreases |rs|
  {
    if |rs| > 0 {
      var r := rs[0];
      assert InUse(bs, heap, r.start, r.size);
      ReleaseEffect(bs, heap, r.start, r.size);
      ReleasableRest(bs, heap, rs);
      ReleaseAllEffect(Release(bs, r.start, r.size), heap, rs[1..]);
      assert heap - 1 in Range(r.start, r.size) <==> r.End() == heap;
    }
  }

  /** Any two ways of cutting the same bytes into pieces, released in any order, merged or one by
      one, end in the same free list. */
  lemma ReleaseOrderIrrelevant(bs: seq<Block>, heap: int, rs: seq<Block>, ss: seq<Block>)
    requires Wf(bs, heap) && Releasable(bs, heap, rs) && Releasable(bs, heap, ss)
    requires Bytes(rs) == Bytes(ss)
    ensures ReleaseAll(bs, rs) == ReleaseAll(bs, ss)
  {
    ReleaseAllEffect(bs, heap, rs);
    ReleaseAllEffect(bs, heap, ss);
    Canonical(ReleaseAll(bs, rs), ReleaseAll(bs, ss), heap);
  }
}
