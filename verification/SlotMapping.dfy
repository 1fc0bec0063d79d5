/** Slot lists compressed into ranges. */
module SlotMapping {

  datatype Item = One(slot: int) | Range(lo: int, hi: int)

  /** The slots lo, lo + 1, ..., hi. */
  function Ints(lo: int, hi: int): seq<int>
    decreases hi - lo
  {
    if lo > hi then [] else [lo] + Ints(lo + 1, hi)
  }

  lemma {:induction false} IntsSnoc(lo: int, hi: int)
    requires lo <= hi
    ensures Ints(lo, hi) == Ints(lo, hi - 1) + [hi]
    decreases hi - lo
  {
    if lo < hi { IntsSnoc(lo + 1, hi); }
  }

  /** Exactly the slots from lo to hi, each once, in order. */
  lemma {:induction false} IntsMeaning(lo: int, hi: int, i: nat)
    ensures |Ints(lo, hi)| == if lo <= hi then hi - lo + 1 else 0
    ensures i < |Ints(lo, hi)| ==> Ints(lo, hi)[i] == lo + i
    decreases hi - lo
  {
    if lo <= hi { IntsMeaning(lo + 1, hi, if i > 0 then i - 1 else 0); }
  }

  function Singles(slots: seq<int>): seq<Item> {
    if slots == [] then [] else [One(slots[0])] + Singles(slots[1..])
  }

  /** A closed run: a range when it has three or more slots. */
  function Emit(lo: int, hi: int): seq<Item> {
    if hi - lo + 1 >= 3 then [Range(lo, hi)] else Singles(Ints(lo, hi))
  }

  /** The items of a run lo..hi that is still open, followed by the slots in `rest`. */
  function CompressFrom(rest: seq<int>, lo: int, hi: int): seq<Item> {
    if rest == [] then Emit(lo, hi)
    else if rest[0] == hi + 1 then CompressFrom(rest[1..], lo, rest[0])
    else Emit(lo, hi) + CompressFrom(rest[1..], rest[0], rest[0])
  }

  function Compress(slots: seq<int>): seq<Item> {
    if slots == [] then [] else CompressFrom(slots[1..], slots[0], slots[0])
  }

  function Slots(item: Item): seq<int> {
    match item
    case One(n) => [n]
    case Range(lo, hi) => Ints(lo, hi)
  }

  function Decompress(items: seq<Item>): seq<int> {
    if items == [] then [] else Slots(items[0]) + Decompress(items[1..])
  }

  lemma {:induction false} DecompressAppend(a: seq<Item>, b: seq<Item>)
    ensures Decompress(a + b) == Decompress(a) + Decompress(b)
  {
    if a == [] {
      assert a + b == b;
    } else {
      assert (a + b)[1..] == a[1..] + b;
      DecompressAppend(a[1..], b);
    }
  }

  lemma DecompressSnoc(a: seq<Item>, item: Item)
    ensures Decompress(a + [item]) == Decompress(a) + Slots(item)
  {
    DecompressAppend(a, [item]);
    assert Decompress([item]) == Slots(item) + Decompress([item][1..]);
  }

  /** A single slot stands for itself and a range for the slots from its start to its end, in their place. */
  lemma DecompressItem(a: seq<Item>, item: Item, b: seq<Item>)
    ensures Decompress([]) == []
    ensures item.One? ==> Decompress(a + [item] + b) == Decompress(a) + [item.slot] + Decompress(b)
    ensures item.Range? ==>
              Decompress(a + [item] + b)
              == Decompress(a) + seq(if item.lo <= item.hi then item.hi - item.lo + 1 else 0, i => item.lo + i) + Decompress(b)
  {
    DecompressAppend(a + [item], b);
    DecompressSnoc(a, item);
    if item.Range? {
      var s := seq(if item.lo <= item.hi then item.hi - item.lo + 1 else 0, i => item.lo + i);
      IntsMeaning(item.lo, item.hi, 0);
      forall i | 0 <= i < |s| ensures Ints(item.lo, item.hi)[i] == s[i] { IntsMeaning(item.lo, item.hi, i); }
      assert Ints(item.lo, item.hi) == s;
    }
  }

  lemma {:induction false} SinglesBack(slots: seq<int>)
    ensures Decompress(Singles(slots)) == slots
    ensures forall i :: 0 <= i < |Singles(slots)| ==> Singles(slots)[i].One?
  {
    if slots != [] {
      SinglesBack(slots[1..]);
      assert Singles(slots)[1..] == Singles(slots[1..]);
    }
  }

  /** Every range covers at least three slots. */
  predicate Long(items: seq<Item>) {
    forall i :: 0 <= i < |items| && items[i].Range? ==> items[i].lo + 2 <= items[i].hi
  }

  lemma EmitBack(lo: int, hi: int)
    ensures Decompress(Emit(lo, hi)) == Ints(lo, hi) && Long(Emit(lo, hi))
  {
    SinglesBack(Ints(lo, hi));
    assert Decompress([]) == [] && [Range(lo, hi)][1..] == [];
    assert Ints(lo, hi) + [] == Ints(lo, hi);
  }

  lemma {:induction false} CompressFromBack(rest: seq<int>, lo: int, hi: int)
    requires lo <= hi
    ensures Decompress(CompressFrom(rest, lo, hi)) == Ints(lo, hi) + rest && Long(CompressFrom(rest, lo, hi))
    decreases |rest|
  {
    EmitBack(lo, hi);
    if rest == [] {
      assert Ints(lo, hi) + rest == Ints(lo, hi);
    } else if rest[0] == hi + 1 {
      CompressFromBack(rest[1..], lo, rest[0]);
      OneFurther(rest, lo, hi);
    } else {
      CompressFromBack(rest[1..], rest[0], rest[0]);
      DecompressAppend(Emit(lo, hi), CompressFrom(rest[1..], rest[0], rest[0]));
      assert Ints(rest[0], rest[0]) == [rest[0]];
      assert rest == [rest[0]] + rest[1..];
    }
  }

  /** Decompressing gives back every list of slots, and only runs of three or more became ranges. */
  lemma CompressRoundTrip(slots: seq<int>)
    ensures Decompress(Compress(slots)) == slots && Long(Compress(slots))
  {
    if slots != [] {
      CompressFromBack(slots[1..], slots[0], slots[0]);
      assert Ints(slots[0], slots[0]) == [slots[0]];
      assert slots == [slots[0]] + slots[1..];
    }
  }

  // ----- what compression finds: the maximal runs

  datatype Stretch = Stretch(lo: int, hi: int)

  /** Non-empty stretches none of which continues the one before it. */
  predicate Separated(rs: seq<Stretch>) {
    && (forall i :: 0 <= i < |rs| ==> rs[i].lo <= rs[i].hi)
    && (forall i :: 0 < i < |rs| ==> rs[i].lo != rs[i - 1].hi + 1)
  }

  function Expand(rs: seq<Stretch>): seq<int> {
    if rs == [] then [] else Ints(rs[0].lo, rs[0].hi) + Expand(rs[1..])
  }

  function EmitAll(rs: seq<Stretch>): seq<Item> {
    if rs == [] then [] else Emit(rs[0].lo, rs[0].hi) + EmitAll(rs[1..])
  }

  lemma IntsFirst(lo: int, hi: int, rest: seq<int>)
    requires lo <= hi
    ensures (Ints(lo, hi) + rest)[0] == lo && (Ints(lo, hi) + rest)[1..] == Ints(lo + 1, hi) + rest
  {
  }

  lemma {:induction false} OpenRun(lo: int, mid: int, hi: int, rest: seq<int>, s: seq<int>)
    requires lo <= mid <= hi && s == Ints(mid + 1, hi) + rest
    ensures CompressFrom(s, lo, mid) == CompressFrom(rest, lo, hi)
    decreases hi - mid
  {
    if mid < hi {
      IntsFirst(mid + 1, hi, rest);
      OpenRun(lo, mid + 1, hi, rest, s[1..]);
    } else {
      assert s == rest;
    }
  }

  /** Whatever the maximal consecutive runs of a list are, compression emits exactly them, in order. */
  lemma {:induction false} CompressEmitsRuns(rs: seq<Stretch>)
    requires Separated(rs)
    ensures Compress(Expand(rs)) == EmitAll(rs)
    decreases |rs|
  {
    if rs != [] {
      var r, rest := rs[0], Expand(rs[1..]);
      CompressEmitsRuns(rs[1..]);
      IntsFirst(r.lo, r.hi, rest);
      OpenRun(r.lo, r.lo, r.hi, rest, Expand(rs)[1..]);
      if |rs| == 1 {
        assert Emit(r.lo, r.hi) + [] == Emit(r.lo, r.hi);
      } else {
        assert rs[1].lo != r.hi + 1 && rest[0] == rs[1].lo;
      }
    }
  }

  lemma {:induction false} SinglesMembers(slots: seq<int>, item: Item)
    ensures item in Singles(slots) <==> item.One? && item.slot in slots
  {
    if slots != [] { SinglesMembers(slots[1..], item); }
  }

  lemma {:induction false} IntsMembers(lo: int, hi: int, n: int)
    ensures n in Ints(lo, hi) <==> lo <= n <= hi
    decreases hi - lo
  {
    if lo <= hi { IntsMembers(lo + 1, hi, n); }
  }

  /** The run has three slots or more. */
  predicate IsLong(r: Stretch) { r.lo + 2 <= r.hi }

  /** The item stands for the run, or for one slot of a run too short for a range. */
  predicate StandsFor(item: Item, r: Stretch) {
    if item.Range? then r == Stretch(item.lo, item.hi) && IsLong(r) else !IsLong(r) && r.lo <= item.slot <= r.hi
  }

  lemma EmitMembers(r: Stretch, item: Item)
    requires r.lo <= r.hi
    ensures item in Emit(r.lo, r.hi) <==> StandsFor(item, r)
  {
    SinglesMembers(Ints(r.lo, r.hi), item);
    if item.One? { IntsMembers(r.lo, r.hi, item.slot); }
  }

  lemma {:induction false} EmitAllMembers(rs: seq<Stretch>, item: Item)
    requires forall i :: 0 <= i < |rs| ==> rs[i].lo <= rs[i].hi
    ensures item in EmitAll(rs) <==> exists i :: 0 <= i < |rs| && StandsFor(item, rs[i])
  {
    if rs != [] {
      EmitMembers(rs[0], item);
      EmitAllMembers(rs[1..], item);
      if item in EmitAll(rs[1..]) {
        var i :| 0 <= i < |rs[1..]| && StandsFor(item, rs[1..][i]);
        assert StandsFor(item, rs[i + 1]);
      }
      if i :| 0 <= i < |rs| && StandsFor(item, rs[i]) {
        assert i > 0 ==> rs[1..][i - 1] == rs[i];
      }
    }
  }

  /** A range is written for every maximal run of three slots or more and for nothing else, and single slots
      for the others. */
  lemma RangesAreLongRuns(rs: seq<Stretch>, item: Item)
    requires Separated(rs)
    ensures item in Compress(Expand(rs)) <==> exists i :: 0 <= i < |rs| && StandsFor(item, rs[i])
  {
    CompressEmitsRuns(rs);
    EmitAllMembers(rs, item);
  }

  /** Every list of slots has such runs. */
  lemma {:induction false} RunsExist(slots: seq<int>) returns (rs: seq<Stretch>)
    ensures Separated(rs) && Expand(rs) == slots
    decreases |slots|
  {
    if slots == [] {
      rs := [];
    } else {
      var tail := RunsExist(slots[1..]);
      assert slots == [slots[0]] + slots[1..];
      assert Ints(slots[0], slots[0]) == [slots[0]];
      if tail != [] && tail[0].lo == slots[0] + 1 {
        rs := [Stretch(slots[0], tail[0].hi)] + tail[1..];
        assert Expand(rs) == [slots[0]] + Ints(tail[0].lo, tail[0].hi) + Expand(tail[1..]);
      } else {
        rs := [Stretch(slots[0], slots[0])] + tail;
      }
    }
  }

  // ----- the loops of the source

  method AppendRangeOrElements(result: seq<Item>, start: int, end: int) returns (r: seq<Item>)
    ensures r == result + Emit(start, end)
  {
    var length := end - start + 1;
    if length >= 3 {
      return result + [Range(start, end)];
    }
    r := result;
    var i := start;
    while i < end + 1
      invariant r + Singles(Ints(i, end)) == result + Singles(Ints(start, end))
      decreases end + 1 - i
    {
      r := r + [One(i)];
      i := i + 1;
    }
  }

  method CompressSlotMapping(slots: seq<int>) returns (result: seq<Item>)
    ensures result == Compress(slots)
    ensures Decompress(result) == slots && Long(result)
  {
    CompressRoundTrip(slots);
    if slots == [] {
      return [];
    }
    result := [];
    var rangeStart, rangeEnd := slots[0], slots[0];
    for i := 1 to |slots|
      invariant result + CompressFrom(slots[i..], rangeStart, rangeEnd) == Compress(slots)
    {
      var slot := slots[i];
      assert slots[i..][1..] == slots[i + 1..];
      if slot == rangeEnd + 1 {
        rangeEnd := slot;
      } else {
        result := AppendRangeOrElements(result, rangeStart, rangeEnd);
        rangeStart, rangeEnd := slot, slot;
      }
    }
    result := AppendRangeOrElements(result, rangeStart, rangeEnd);
  }

  method DecompressSlotMapping(compressed: seq<Item>) returns (slots: seq<int>)
    ensures slots == Decompress(compressed)
  {
    slots := [];
    for i := 0 to |compressed|
      invariant slots == Decompress(compressed[..i])
    {
      DecompressSnoc(compressed[..i], compressed[i]);
      assert compressed[..i + 1] == compressed[..i] + [compressed[i]];
      match compressed[i]
      case One(n) => slots := slots + [n];
      case Range(lo, hi) => slots := slots + Ints(lo, hi);
    }
    assert compressed[..|compressed|] == compressed;
  }

  // ----- which texts the parser reads back

  /** No three consecutive ascending slots of which the first is negative. */
  predicate NoNegativeRun(slots: seq<int>) {
    |slots| >= 3 ==>
      && (slots[1] == slots[0] + 1 && slots[2] == slots[0] + 2 ==> slots[0] >= 0)
      && NoNegativeRun(slots[1..])
  }

  predicate NonNegativeRanges(items: seq<Item>) {
    forall i :: 0 <= i < |items| && items[i].Range? ==> items[i].lo >= 0
  }

  lemma {:induction false} ClosedRun(lo: int, hi: int, rest: seq<int>)
    requires lo <= hi && (rest == [] || rest[0] != hi + 1)
    ensures NoNegativeRun(Ints(lo, hi) + rest) <==> (hi - lo >= 2 ==> lo >= 0) && NoNegativeRun(rest)
    decreases hi - lo
  {
    var s := Ints(lo, hi) + rest;
    assert s[1..] == Ints(lo + 1, hi) + rest;
    if lo < hi {
      ClosedRun(lo + 1, hi, rest);
    } else {
      assert Ints(lo + 1, hi) + rest == rest;
    }
  }

  lemma EmitNonNegative(lo: int, hi: int)
    ensures NonNegativeRanges(Emit(lo, hi)) <==> (hi - lo >= 2 ==> lo >= 0)
  {
    SinglesBack(Ints(lo, hi));
    if hi - lo >= 2 {
      assert Emit(lo, hi)[0] == Range(lo, hi);
    }
  }

  lemma NonNegativeAppend(a: seq<Item>, b: seq<Item>)
    ensures NonNegativeRanges(a + b) <==> NonNegativeRanges(a) && NonNegativeRanges(b)
  {
    var s := a + b;
    forall i | 0 <= i < |a| ensures s[i] == a[i] {}
    forall i | 0 <= i < |b| ensures s[i + |a|] == b[i] {}
    forall i | 0 <= i < |s| ensures i < |a| || s[i] == b[i - |a|] {}
  }

  lemma FirstAlone(s: seq<int>)
    requires s != []
    ensures Ints(s[0], s[0]) + s[1..] == s
  {
    assert Ints(s[0], s[0]) == [s[0]];
  }

  lemma OneFurther(rest: seq<int>, lo: int, hi: int)
    requires lo <= hi && rest != [] && rest[0] == hi + 1
    ensures Ints(lo, hi) + rest == Ints(lo, rest[0]) + rest[1..]
  {
    IntsSnoc(lo, rest[0]);
    assert rest == [rest[0]] + rest[1..];
  }

  lemma {:induction false} NegativeRunsFrom(rest: seq<int>, lo: int, hi: int)
    requires lo <= hi
    ensures NonNegativeRanges(CompressFrom(rest, lo, hi)) <==> NoNegativeRun(Ints(lo, hi) + rest)
    decreases |rest|
  {
    EmitNonNegative(lo, hi);
    if rest == [] {
      ClosedRun(lo, hi, rest);
    } else if rest[0] == hi + 1 {
      NegativeRunsFrom(rest[1..], lo, rest[0]);
      OneFurther(rest, lo, hi);
    } else {
      NegativeRunsFrom(rest[1..], rest[0], rest[0]);
      ClosedRun(lo, hi, rest);
      FirstAlone(rest);
      NonNegativeAppend(Emit(lo, hi), CompressFrom(rest[1..], rest[0], rest[0]));
    }
  }

  /** Compression makes a range with a negative start exactly when the list holds such a run. */
  lemma NegativeRuns(slots: seq<int>)
    ensures NonNegativeRanges(Compress(slots)) <==> NoNegativeRun(slots)
  {
    if slots != [] {
      NegativeRunsFrom(slots[1..], slots[0], slots[0]);
      FirstAlone(slots);
    }
  }
}
