/** Merging the sorted ranges of a batch into maximal pieces before they are released. */
module Coalescing {
  import opened Basics
  import opened FreeList
  import opened AddressSpace

  /** The range `b` starts where the last piece ends. */
  predicate Adjoins(out: seq<Block>, b: Block) { |out| > 0 && out[|out| - 1].End() == b.start }

  /** Add the next range: it extends the last piece when it touches it, and opens a new one when
      it does not. */
  function Extend(out: seq<Block>, b: Block): seq<Block> {
    if Adjoins(out, b)
    then out[..|out| - 1] + [Block(out[|out| - 1].start, out[|out| - 1].size + b.size)]
    else out + [b]
  }

  /** The number of objects in each piece, after the next range was added. */
  function Tally(out: seq<Block>, counts: seq<nat>, b: Block): seq<nat>
    requires |out| == |counts|
  {
    if Adjoins(out, b) then counts[..|out| - 1] + [counts[|out| - 1] + 1] else counts + [1]
  }

  ghost predicate Ordered(bs: seq<Block>) {
    && (forall i :: 0 <= i < |bs| ==> bs[i].size > 0)
    && (forall i, j :: 0 <= i < j < |bs| ==> bs[i].End() <= bs[j].start)
  }

  /** No piece touches the next: neighbours were merged. */
  ghost predicate Gapped(bs: seq<Block>) { forall i :: 0 < i < |bs| ==> bs[i - 1].End() < bs[i].start }

  lemma TallyTotal(out: seq<Block>, counts: seq<nat>, b: Block)
    requires |out| == |counts|
    ensures Total(Tally(out, counts, b)) == Total(counts) + 1 && |Tally(out, counts, b)| == |Extend(out, b)|
  {
    var t := Tally(out, counts, b);
    assert t[..|t| - 1] == if Adjoins(out, b) then counts[..|out| - 1] else counts;
  }

  /** Extending keeps the pieces ordered and adds exactly the bytes of the new range. */
  lemma ExtendEffect(out: seq<Block>, b: Block)
    requires Ordered(out) && b.size > 0 && (|out| > 0 ==> out[|out| - 1].End() <= b.start)
    ensures Ordered(Extend(out, b)) && Extend(out, b)[|Extend(out, b)| - 1].End() == b.End()
    ensures Bytes(Extend(out, b)) == Bytes(out) + Range(b.start, b.size)
    ensures Gapped(out) ==> Gapped(Extend(out, b))
  {
    if Adjoins(out, b) {
      MergeLastBytes(out, b);
      OrderedSnoc(out[..|out| - 1], Block(out[|out| - 1].start, out[|out| - 1].size + b.size));
    } else {
      BytesAppend(out, [b]);
      Single(b);
      OrderedSnoc(out, b);
    }
  }

  lemma OrderedSnoc(out: seq<Block>, b: Block)
    requires Ordered(out) && b.size > 0 && (|out| > 0 ==> out[|out| - 1].End() <= b.start)
    ensures Ordered(out + [b])
  {
    if |out| > 0 { assert forall i :: 0 <= i < |out| - 1 ==> out[i].End() <= out[|out| - 1].start; }
  }

  lemma {:induction false} MergeLastBytes(bs: seq<Block>, b: Block)
    requires Adjoins(bs, b) && bs[|bs| - 1].size > 0 && b.size > 0
    ensures Bytes(Extend(bs, b)) == Bytes(bs) + Range(b.start, b.size)
  {
    if |bs| == 1 {
      assert bs == [bs[0]] && Extend(bs, b) == [Block(bs[0].start, bs[0].size + b.size)];
      Single(bs[0]);
      Single(Block(bs[0].start, bs[0].size + b.size));
      RangeJoin(bs[0].start, bs[0].size, b.size);
    } else {
      MergeLastBytes(bs[1..], b);
      assert Extend(bs, b)[1..] == Extend(bs[1..], b);
    }
  }

  lemma RangeJoin(a: int, n: nat, m: nat)
    ensures Range(a, n + m) == Range(a, n) + Range(a + n, m)
  {
  }

  /** Ordered pieces of bytes in use can be released together. */
  lemma OrderedReleasable(h: Heap, rs: seq<Block>)
    requires Sound(h) && Ordered(rs) && Bytes(rs) <= h.used
    ensures Releasable(h.blocks, h.size, rs)
  {
    SoundIsInv(h);
    forall i | 0 <= i < |rs| ensures InUse(h.blocks, h.size, rs[i].start, rs[i].size) {
      BlockInBytes(rs, i);
      InUseRange(h, rs[i].start, rs[i].size);
    }
  }

  /** The bytes of the first piece are not covered by the others. */
  lemma OrderedFirst(rs: seq<Block>)
    requires Ordered(rs) && |rs| > 0
    ensures Ordered(rs[1..]) && Bytes(rs[1..]) == Bytes(rs) - Range(rs[0].start, rs[0].size)
    ensures Range(rs[0].start, rs[0].size) <= Bytes(rs)
  {
    BytesAbove(rs[1..], rs[0].End());
  }
}
