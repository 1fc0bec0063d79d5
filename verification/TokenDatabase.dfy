/** Token sequences cut into chunks, and the chained key of each chunk. */
module TokenDatabase {
  import opened Basics
  import opened Alignment

  type Token = int

  /** The settings of the database. `hash` takes the key of the previous chunk and the tokens of this
      one; `none` stands before the first chunk. */
  datatype Database<!H> = Database(chunkSize: nat, saveUnfull: bool, hash: (H, seq<Token>) -> H, none: H)

  datatype Span<+H> = Span(start: nat, end: nat, key: H)

  /** The hash tells all inputs apart, and never gives the key that stands before the first chunk. */
  ghost predicate Injective<H(!new)>(db: Database<H>) {
    && (forall p, q, x, y :: db.hash(p, x) == db.hash(q, y) ==> p == q && x == y)
    && (forall p, x :: db.hash(p, x) != db.none)
  }

  /** The list of the chunks so far, as a hash. */
  function Chained(chunkSize: nat, saveUnfull: bool): Database<seq<seq<Token>>> {
    Database(chunkSize, saveUnfull, (p: seq<seq<Token>>, x: seq<Token>) => p + [x], [])
  }

  /** There are hashes that tell all inputs apart. */
  lemma InjectiveExists(chunkSize: nat, saveUnfull: bool)
    ensures Injective(Chained(chunkSize, saveUnfull))
  {
    var db := Chained(chunkSize, saveUnfull);
    forall p, q, x, y | db.hash(p, x) == db.hash(q, y) ensures p == q && x == y {
      assert (p + [x])[|p|] == x && (p + [x])[..|p|] == p;
      assert (q + [y])[|q|] == y && (q + [y])[..|q|] == q;
    }
  }

  // ----- chunk boundaries

  /** `n` is a whole number of chunks. */
  predicate Whole(c: nat, n: nat)
    requires c > 0
  {
    n == 0 || (n >= c && Whole(c, n - c))
  }

  /** Length of the last chunk of a prefix of `n` tokens. */
  function LastLen(c: nat, n: nat): (l: nat)
    requires c > 0
    ensures l <= n && l <= c && (n > 0 ==> l > 0)
  {
    if n <= c then n else LastLen(c, n - c)
  }

  lemma {:induction false} LastLenOf(c: nat, at: nat, l: nat)
    requires c > 0 && Whole(c, at) && 0 < l <= c
    ensures LastLen(c, at + l) == l
    decreases at
  {
    if at > 0 { LastLenOf(c, at - c, l); }
  }

  lemma {:induction false} WholeMod(c: nat, n: nat)
    requires c > 0
    ensures Whole(c, n) <==> n % c == 0
    ensures n >= c ==> n % c == (n - c) % c
    decreases n
  {
    if n >= c {
      WholeMod(c, n - c);
      ModStep(c, n);
    } else {
      assert n % c == n;
    }
  }

  lemma ModStep(c: nat, n: nat)
    requires c > 0 && n >= c
    ensures n % c == (n - c) % c
  {
    assert n == n / c * c + n % c;
    ModUnique(n - c, c, n / c - 1, n % c);
  }

  // ----- keys

  /** The key of a prefix of a token sequence: its last chunk hashed onto the key of what precedes. */
  function Key<H>(db: Database<H>, x: seq<Token>): H
    requires db.chunkSize > 0
    decreases |x|
  {
    if x == [] then db.none
    else var k := |x| - LastLen(db.chunkSize, |x|); db.hash(Key(db, x[..k]), x[k..])
  }

  /** Two prefixes have the same key exactly when they are the same tokens. */
  lemma {:induction false} KeysAgree<H(!new)>(db: Database<H>, x: seq<Token>, y: seq<Token>)
    requires db.chunkSize > 0 && Injective(db)
    ensures Key(db, x) == Key(db, y) <==> x == y
    decreases |x|
  {
    if x != [] && y != [] && Key(db, x) == Key(db, y) {
      var j, k := |x| - LastLen(db.chunkSize, |x|), |y| - LastLen(db.chunkSize, |y|);
      KeysAgree(db, x[..j], y[..k]);
      assert x == x[..j] + x[j..] && y == y[..k] + y[k..];
    }
  }

  // ----- chunking

  /** One more chunk starts at `at`: anything left counts when unfull chunks are saved, a full chunk
      is needed when they are not. */
  predicate More<H>(db: Database<H>, n: nat, at: nat) {
    if db.saveUnfull then at < n else at + db.chunkSize <= n
  }

  function ChunkEnd<H>(db: Database<H>, n: nat, at: nat): (e: nat)
    requires db.chunkSize > 0 && More(db, n, at)
    ensures at < e <= n && e <= at + db.chunkSize
  {
    if at + db.chunkSize <= n then at + db.chunkSize else n
  }

  /** The chunks of `x` from position `at` on, `prev` being the key of what precedes. */
  function Cut<H>(db: Database<H>, x: seq<Token>, at: nat, prev: H): seq<Span<H>>
    requires db.chunkSize > 0 && at <= |x|
    decreases |x| - at
  {
    if !More(db, |x|, at) then []
    else
      var e := ChunkEnd(db, |x|, at);
      var key := db.hash(prev, x[at..e]);
      [Span(at, e, key)] + Cut(db, x, e, key)
  }

  function Spans<H>(db: Database<H>, x: seq<Token>): seq<Span<H>>
    requires db.chunkSize > 0
  {
    Cut(db, x, 0, db.none)
  }

  /** From `at` on the spans follow one another without a gap, all but the last full chunks, each with
      the key of the whole prefix up to its end, until no chunk is left. */
  predicate Tiles<H(==)>(db: Database<H>, x: seq<Token>, at: nat, spans: seq<Span<H>>)
    requires db.chunkSize > 0
    decreases |spans|
  {
    if spans == [] then !More(db, |x|, at)
    else
      && More(db, |x|, at) && spans[0].start == at && at < spans[0].end <= |x| && spans[0].key == Key(db, x[..spans[0].end])
      && (spans[0].end == at + db.chunkSize || (|spans| == 1 && spans[0].end == |x| < at + db.chunkSize))
      && Tiles(db, x, spans[0].end, spans[1..])
  }

  lemma {:induction false} CutTiles<H>(db: Database<H>, x: seq<Token>, at: nat)
    requires db.chunkSize > 0 && at <= |x| && (Whole(db.chunkSize, at) || at == |x|)
    ensures Tiles(db, x, at, Cut(db, x, at, Key(db, x[..at])))
    decreases |x| - at
  {
    if More(db, |x|, at) {
      var e := ChunkEnd(db, |x|, at);
      LastLenOf(db.chunkSize, at, e - at);
      assert x[..e][..at] == x[..at] && x[..e][at..] == x[at..e];
      assert Key(db, x[..e]) == db.hash(Key(db, x[..at]), x[at..e]);
      CutTiles(db, x, e);
    }
  }

  lemma SpansTile<H>(db: Database<H>, x: seq<Token>)
    requires db.chunkSize > 0
    ensures Tiles(db, x, 0, Spans(db, x))
  {
    assert x[..0] == [];
    CutTiles(db, x, 0);
  }

  /** Where the last of the spans ends. */
  function EndOfSpans<H>(spans: seq<Span<H>>, at: nat): nat { if spans == [] then at else spans[|spans| - 1].end }

  lemma {:induction false} TilesReach<H>(db: Database<H>, x: seq<Token>, at: nat, spans: seq<Span<H>>)
    requires db.chunkSize > 0 && Tiles(db, x, at, spans) && at <= |x|
    requires Whole(db.chunkSize, at) || (db.saveUnfull && at == |x|)
    ensures var e := EndOfSpans(spans, at);
            if db.saveUnfull then e == |x| else Whole(db.chunkSize, e) && e <= |x| < e + db.chunkSize
    decreases |spans|
  {
    if spans != [] {
      WholeNext(db.chunkSize, at);
      TilesReach(db, x, spans[0].end, spans[1..]);
    }
  }

  lemma {:induction false} LastWhole(c: nat, n: nat, e: nat)
    requires c > 0 && Whole(c, e) && e <= n < e + c
    ensures n - n % c == e
    decreases e
  {
    if e == 0 {
      ModUnique(n, c, 0, n);
    } else {
      ModStep(c, n);
      LastWhole(c, n - c, e - c);
    }
  }

  /** The spans cover all tokens when unfull chunks are saved, and all whole chunks otherwise. */
  lemma SpansReach<H>(db: Database<H>, x: seq<Token>)
    requires db.chunkSize > 0
    ensures EndOfSpans(Spans(db, x), 0) == if db.saveUnfull then |x| else |x| - |x| % db.chunkSize
  {
    SpansTile(db, x);
    TilesReach(db, x, 0, Spans(db, x));
    if !db.saveUnfull { LastWhole(db.chunkSize, |x|, EndOfSpans(Spans(db, x), 0)); }
  }

  // ----- the generator, with its mask

  function Falses(mask: seq<bool>): nat {
    if mask == [] then 0 else Falses(mask[..|mask| - 1]) + if mask[|mask| - 1] then 0 else 1
  }

  /** The masked positions. */
  ghost function FalseAt(mask: seq<bool>): set<int> { set i | 0 <= i < |mask| && !mask[i] }

  /** The count is the number of masked positions, wherever they are. */
  lemma {:induction false} FalsesCount(mask: seq<bool>)
    ensures Falses(mask) == |FalseAt(mask)|
  {
    if mask != [] {
      var n := |mask| - 1;
      FalsesCount(mask[..n]);
      assert FalseAt(mask) == FalseAt(mask[..n]) + if mask[n] then {} else {n};
    } else {
      assert FalseAt(mask) == {};
    }
  }

  /** A mask of `k` positions followed by unmasked ones. */
  predicate Masks(mask: seq<bool>, k: nat) {
    k <= |mask| && forall i :: 0 <= i < |mask| ==> (mask[i] <==> k <= i)
  }

  lemma {:induction false} MaskedPrefix(mask: seq<bool>, k: nat)
    requires Masks(mask, k)
    ensures Falses(mask) == k
    decreases |mask|
  {
    if mask != [] {
      var n := |mask| - 1;
      MaskedPrefix(mask[..n], if k <= n then k else n);
    }
  }

  function NumFalses(mask: Option<seq<bool>>): nat { if mask.Some? then Falses(mask.value) else 0 }

  /** The spans that start at or after `from`. */
  function From<H>(spans: seq<Span<H>>, from: nat): seq<Span<H>> {
    if spans == [] then []
    else if spans[0].start < from then From(spans[1..], from)
    else [spans[0]] + From(spans[1..], from)
  }

  /** The mask drops a prefix of the chunks, the ones that start under it, and keeps the rest; what it
      keeps starts exactly where a chunk-aligned mask ends. */
  lemma {:induction false} FromIsSuffix<H>(db: Database<H>, x: seq<Token>, at: nat, spans: seq<Span<H>>, from: nat) returns (k: nat)
    requires db.chunkSize > 0 && Tiles(db, x, at, spans)
    ensures k <= |spans| && From(spans, from) == spans[k..]
    ensures forall i :: 0 <= i < |spans| ==> at <= spans[i].start && (spans[i].start < from <==> i < k)
    ensures at <= from && Whole(db.chunkSize, from - at) && k < |spans| ==> spans[k].start == from
    decreases |spans|
  {
    if spans == [] {
      k := 0;
    } else {
      var rest := spans[1..];
      var j := FromIsSuffix(db, x, spans[0].end, rest, from);
      k := if spans[0].start < from then j + 1 else 0;
      assert forall i :: 1 <= i < |spans| ==> spans[i] == rest[i - 1];
      if spans[0].start < from {
        assert spans[k..] == rest[j..];
      } else {
        assert |rest| > 0 ==> (rest[0].start < from <==> 0 < j);
        assert spans == [spans[0]] + rest;
      }
    }
  }

  /** Where the chunking loop of the source stops. */
  lemma {:induction false} LoopEnd(c: nat, n: nat, at: nat)
    requires c > 0 && Whole(c, at)
    ensures at < n - n % c <==> at + c <= n
    decreases at
  {
    if n < c {
      ModUnique(n, c, 0, n);
    } else if at > 0 {
      ModStep(c, n);
      LoopEnd(c, n - c, at - c);
    }
  }

  lemma WholeNext(c: nat, at: nat)
    requires c > 0 && Whole(c, at)
    ensures Whole(c, at + c)
  {
  }

  lemma CutStep<H>(db: Database<H>, x: seq<Token>, at: nat, e: nat, prev: H, from: nat)
    requires db.chunkSize > 0 && at <= |x| && More(db, |x|, at) && e == ChunkEnd(db, |x|, at)
    ensures var key := db.hash(prev, x[at..e]);
            From(Cut(db, x, at, prev), from) == (if at >= from then [Span(at, e, key)] else []) + From(Cut(db, x, e, key), from)
  {
    var key := db.hash(prev, x[at..e]);
    assert Cut(db, x, at, prev)[1..] == Cut(db, x, e, key);
  }

  /** The positions below `end` at which the loop stands are those at which a chunk starts. */
  ghost predicate IsLoopEnd<H>(db: Database<H>, n: nat, end: nat)
    requires db.chunkSize > 0
  {
    forall at: nat :: Whole(db.chunkSize, at) ==> (at < end <==> More(db, n, at))
  }

  lemma LoopBody<H>(db: Database<H>, n: nat, end: nat, at: nat)
    requires db.chunkSize > 0 && IsLoopEnd(db, n, end) && Whole(db.chunkSize, at) && at < end
    ensures More(db, n, at) && at < n && Whole(db.chunkSize, at + db.chunkSize)
    ensures ChunkEnd(db, n, at) == if at + db.chunkSize < n then at + db.chunkSize else n
  {
    WholeNext(db.chunkSize, at);
  }

  lemma LoopEnds<H>(db: Database<H>, n: nat, end: nat)
    requires db.chunkSize > 0 && end == if db.saveUnfull then n else n - n % db.chunkSize
    ensures IsLoopEnd(db, n, end)
  {
    forall at: nat | Whole(db.chunkSize, at) ensures at < end <==> More(db, n, at) {
      LoopEnd(db.chunkSize, n, at);
    }
  }

  /** The chunks and their keys, from the first unmasked one on; an error when the mask does not end
      at a chunk boundary. */
  method ProcessTokens<H>(db: Database<H>, x: seq<Token>, mask: Option<seq<bool>>) returns (r: Option<seq<Span<H>>>)
    requires db.chunkSize > 0
    ensures r.None? <==> NumFalses(mask) % db.chunkSize != 0
    ensures r.Some? ==> r.value == From(Spans(db, x), NumFalses(mask))
    ensures NumFalses(mask) == if mask.Some? then |FalseAt(mask.value)| else 0
    ensures forall k: nat :: mask.Some? && Masks(mask.value, k) ==>
              (r.None? <==> k % db.chunkSize != 0) && (r.Some? ==> r.value == From(Spans(db, x), k))
  {
    if mask.Some? {
      FalsesCount(mask.value);
      forall k: nat | Masks(mask.value, k) ensures Falses(mask.value) == k { MaskedPrefix(mask.value, k); }
    }
    var falses := NumFalses(mask);
    if falses % db.chunkSize != 0 {
      return None;
    }
    var end := if db.saveUnfull then |x| else |x| - |x| % db.chunkSize;
    LoopEnds(db, |x|, end);
    var out := ChunkLoop(db, x, falses, end);
    r := Some(out);
  }

  method ChunkLoop<H>(db: Database<H>, x: seq<Token>, falses: nat, end: nat) returns (out: seq<Span<H>>)
    requires db.chunkSize > 0 && IsLoopEnd(db, |x|, end)
    ensures out == From(Spans(db, x), falses)
  {
    out := [];
    var n, c := |x|, db.chunkSize;
    var at, prefix := 0, db.none;
    ghost var all := From(Spans(db, x), falses);
    ghost var left := all;
    while at < end
      invariant Whole(c, at)
      invariant left == From(Cut(db, x, if at < n then at else n, prefix), falses) && out + left == all
      decreases end - at
    {
      LoopBody(db, n, end, at);
      var stop := if at + c < n then at + c else n;
      CutStep(db, x, at, stop, prefix, falses);
      prefix := db.hash(prefix, x[at..stop]);
      ghost var next := From(Cut(db, x, stop, prefix), falses);
      if at >= falses {
        assert out + ([Span(at, stop, prefix)] + next) == out + [Span(at, stop, prefix)] + next;
        out := out + [Span(at, stop, prefix)];
      } else {
        assert [] + next == next;
      }
      left, at := next, at + c;
    }
    assert !More(db, n, at);
  }
}
