/** The allocator of equal pages: a queue of free page objects whose views are trimmed while a page is
    in use for a smaller tensor. */
module PagedAllocator {
  import opened Basics

  /** The object of one page: the shape it was last allocated for, the length of its view of the page,
      and its reference count. */
  datatype Page<+S> = Page(shape: S, length: int, refs: int)

  /** A page handed out for a tensor of `bytes` bytes. */
  function HandedOut<S(==)>(p: Page<S>, full: S, shape: S, bytes: nat): Page<S> {
    Page(shape, if shape != full then Min(bytes, p.length) else p.length, 1)
  }

  /** A page put back: a trimmed view spans the page again. */
  function PutBack<S(==)>(p: Page<S>, full: S, pageSize: nat): Page<S> {
    if p.shape != full then p.(length := pageSize) else p
  }

  /** A free page spans its whole page, and so does one in use for the full shape. */
  ghost predicate Spanning<S>(pages: seq<Page<S>>, free: seq<nat>, full: S, pageSize: nat) {
    && (forall k :: 0 <= k < |pages| ==> pages[k].length <= pageSize)
    && (forall k :: 0 <= k < |pages| && (k in free || pages[k].shape == full) ==> pages[k].length == pageSize)
  }

  /** Every entry of the queue is a page. */
  ghost predicate InRange(free: seq<nat>, count: nat) { forall i :: 0 <= i < |free| ==> free[i] < count }

  class PagedTensorMemoryAllocator<S(==)> {
    const pageSize: nat
    const full: S
    const bufferSize: nat
    var pages: seq<Page<S>>
    var free: seq<nat>
    var numActive: int
    var totalAllocated: int

    /** What every operation keeps, a second free of a page included. */
    ghost predicate Counted()
      reads this
    {
      && pageSize > 0 && bufferSize == |pages| * pageSize && InRange(free, |pages|)
      && numActive == |pages| - |free| && totalAllocated == numActive * pageSize
    }

    /** Every page is free once or in use, and every free page spans its whole page. */
    ghost predicate Valid()
      reads this
    {
      Counted() && Distinct(free) && Spanning(pages, free, full, pageSize)
    }

    constructor (count: nat, pageSize: nat, full: S)
      requires pageSize > 0
      ensures Valid() && this.pageSize == pageSize && this.full == full && |pages| == count
      ensures free == seq(count, i => i) && forall k :: 0 <= k < count ==> pages[k] == Page(full, pageSize, 1)
    {
      this.pageSize, this.full, bufferSize := pageSize, full, count * pageSize;
      pages := seq(count, i => Page(full, pageSize, 1));
      free := seq(count, i => i);
      numActive, totalAllocated := 0, 0;
    }

    /** The first free page, trimmed to the tensor it is for. */
    method Allocate(shape: S, bytes: nat) returns (r: Option<nat>)
      requires Counted()
      modifies this
      ensures Counted() && (old(Valid()) ==> Valid())
      ensures r.None? <==> old(free) == []
      ensures r.None? ==> free == old(free) && pages == old(pages)
      ensures r.Some? ==>
                && r.value == old(free)[0] && free == old(free)[1..] && |pages| == |old(pages)| && r.value < |pages|
                && pages == old(pages)[r.value := HandedOut(old(pages)[r.value], full, shape, bytes)]
                && pages[r.value].shape == shape && pages[r.value].refs == 1
      ensures old(Valid()) && r.Some? ==>
                r.value !in free && pages[r.value].length == if shape == full then pageSize else Min(bytes, pageSize)
    {
      if free == [] {
        return None;
      }
      var k := free[0];
      free := free[1..];
      pages := pages[k := HandedOut(pages[k], full, shape, bytes)];
      MulStep(numActive, pageSize);
      numActive := numActive + 1;
      totalAllocated := totalAllocated + pageSize;
      r := Some(k);
    }

    /** Put a page back. Nothing checks that it is in use: afterwards each page is still free at most once
        exactly when this one was not free already. */
    method Free(k: nat)
      requires Counted() && k < |pages|
      modifies this
      ensures Counted() && free == old(free) + [k]
      ensures pages == old(pages)[k := PutBack(old(pages)[k], full, pageSize)]
      ensures pages[k].shape == old(pages)[k].shape && pages[k].refs == old(pages)[k].refs
      ensures old(Valid()) ==> pages[k].length == pageSize && (Valid() <==> k !in old(free))
    {
      ghost var was := free;
      pages := pages[k := PutBack(pages[k], full, pageSize)];
      free := free + [k];
      DistinctSnoc(was, k);
      MulStep(numActive - 1, pageSize);
      totalAllocated := totalAllocated - pageSize;
      numActive := numActive - 1;
    }

    /** Several pages or none: a failing request puts back what it took, in the same order. */
    method BatchedAllocate(shape: S, bytes: nat, batch: nat) returns (r: Option<seq<nat>>)
      requires Counted()
      modifies this
      ensures Counted() && (old(Valid()) ==> Valid())
      ensures r.None? <==> |old(free)| < batch
      ensures r.None? ==> free == old(free) && |pages| == |old(pages)| && numActive == old(numActive)
      ensures r.None? ==> forall k :: 0 <= k < |pages| && k !in free ==> pages[k] == old(pages)[k]
      ensures r.Some? ==>
                && r.value == old(free)[..batch] && free == old(free)[batch..]
                && Changed(old(pages), pages, r.value, full, shape, bytes)
                && (forall k :: k in r.value ==> k < |pages| && pages[k].shape == shape && pages[k].refs == 1)
      ensures old(Valid()) && r.Some? ==>
                forall k :: k in r.value ==> k !in free && pages[k].length == if shape == full then pageSize else Min(bytes, pageSize)
    {
      var taken: seq<nat> := [];
      ghost var valid := Valid();
      for i := 0 to batch
        invariant i <= |old(free)| && taken == old(free)[..i] && free == old(free)[i..]
        invariant Changed(old(pages), pages, taken, full, shape, bytes)
        invariant valid ==> Distinct(old(free)) && Distinct(free) && Spanning(pages, free, full, pageSize)
        invariant numActive == old(numActive) && totalAllocated == old(totalAllocated)
      {
        if free == [] {
          assert taken == old(free);
          ReturnPages(taken);
          assert free == old(free);
          return None;
        }
        var k := free[0];
        ChangedMore(old(pages), pages, taken, k, full, shape, bytes);
        SpanningRest(pages, free, full, pageSize, shape, bytes);
        free := free[1..];
        pages := pages[k := HandedOut(pages[k], full, shape, bytes)];
        taken := taken + [k];
      }
      numActive := numActive + batch;
      totalAllocated := numActive * pageSize;
      r := Some(taken);
    }

    /** The loop of `batched_free`: every page spans its whole page again and joins the queue. */
    method ReturnPages(ks: seq<nat>)
      requires InRange(ks, |pages|)
      modifies this`free, this`pages
      ensures free == old(free) + ks && |pages| == |old(pages)|
      ensures forall k :: 0 <= k < |pages| ==> pages[k] == if k in ks then PutBack(old(pages)[k], full, pageSize) else old(pages)[k]
      ensures old(Spanning(pages, free, full, pageSize)) ==> Spanning(pages, free, full, pageSize)
    {
      for i := 0 to |ks|
        invariant free == old(free) + ks[..i] && |pages| == |old(pages)|
        invariant forall k :: 0 <= k < |pages| ==> pages[k] == if k in ks[..i] then PutBack(old(pages)[k], full, pageSize) else old(pages)[k]
      {
        var k := ks[i];
        assert ks[..i + 1] == ks[..i] + [k];
        pages := pages[k := PutBack(pages[k], full, pageSize)];
        free := free + [k];
      }
      assert ks[..|ks|] == ks;
    }

    /** Put several pages back. */
    method BatchedFree(ks: seq<nat>)
      requires Counted() && InRange(ks, |pages|)
      modifies this
      ensures Counted() && free == old(free) + ks && |pages| == |old(pages)|
      ensures forall k :: 0 <= k < |pages| ==> pages[k] == if k in ks then PutBack(old(pages)[k], full, pageSize) else old(pages)[k]
      ensures forall k :: 0 <= k < |pages| ==> pages[k].shape == old(pages)[k].shape && pages[k].refs == old(pages)[k].refs
      ensures old(Valid()) ==> forall k :: k in ks ==> pages[k].length == pageSize
      ensures old(Valid()) ==> (Valid() <==> Distinct(old(free) + ks))
    {
      ReturnPages(ks);
      MulSplit(numActive - |ks|, |ks|, pageSize);
      totalAllocated := totalAllocated - pageSize * |ks|;
      numActive := numActive - |ks|;
    }

    /** The self check of the source: free and allocated bytes add up to the buffer. It holds in every
        state, so it does not notice a page that was put back twice. */
    method Memcheck() returns (ok: bool)
      requires Counted()
      ensures ok
    {
      var totalFree := |free| * pageSize;
      MulSplit(|free|, numActive, pageSize);
      ok := totalFree + totalAllocated == bufferSize;
    }
  }

  /** A page put back twice is handed out twice, and the self check still passes. */
  method FreedTwiceHandedOutTwice<S(==)>(full: S, pageSize: nat) returns (first: Option<nat>, second: Option<nat>, ok: bool)
    requires pageSize > 0
    ensures first == second == Some(0) && ok
  {
    var a := new PagedTensorMemoryAllocator(1, pageSize, full);
    var page := a.Allocate(full, pageSize);
    a.Free(page.value);
    a.Free(page.value);
    first := a.Allocate(full, pageSize);
    second := a.Allocate(full, pageSize);
    ok := a.Memcheck();
  }

  /** Exactly the pages in `taken` were handed out. */
  ghost predicate Changed<S>(was: seq<Page<S>>, pages: seq<Page<S>>, taken: seq<nat>, full: S, shape: S, bytes: nat) {
    && |pages| == |was|
    && forall k :: 0 <= k < |pages| ==> pages[k] == if k in taken then HandedOut(was[k], full, shape, bytes) else was[k]
  }

  lemma SpanningRest<S>(pages: seq<Page<S>>, free: seq<nat>, full: S, pageSize: nat, shape: S, bytes: nat)
    requires free != [] && free[0] < |pages|
    ensures Distinct(free) && Spanning(pages, free, full, pageSize) ==>
              Spanning(pages[free[0] := HandedOut(pages[free[0]], full, shape, bytes)], free[1..], full, pageSize)
  {
  }

  lemma ChangedMore<S>(was: seq<Page<S>>, pages: seq<Page<S>>, taken: seq<nat>, k: nat, full: S, shape: S, bytes: nat)
    requires Changed(was, pages, taken, full, shape, bytes) && k < |pages|
    ensures Changed(was, pages[k := HandedOut(pages[k], full, shape, bytes)], taken + [k], full, shape, bytes)
  {
    assert forall m :: m in taken + [k] <==> m in taken || m == k;
  }

  lemma DistinctSnoc(s: seq<nat>, k: nat)
    ensures Distinct(s) ==> (Distinct(s + [k]) <==> k !in s)
  {
    if k in s {
      var i :| 0 <= i < |s| && s[i] == k;
      assert (s + [k])[i] == (s + [k])[|s|];
    }
  }

  lemma MulStep(n: int, p: int)
    ensures (n + 1) * p == n * p + p
  {
  }

  lemma MulSplit(m: int, n: int, p: int)
    ensures m * p + n * p == (m + n) * p
  {
  }
}
