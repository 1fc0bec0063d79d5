/** Handing out prefetched memory objects for the leading chunks of a request, and giving back the
    ones that were not used. */
module AsyncRetrieve {
  import opened Basics
  import opened TokenDatabase
  import opened Prefetch

  datatype Chunk<+H, +M> = Chunk(key: H, obj: M, start: nat, end: nat)

  // ----- the leading run of chunks

  function TakeHits<H(==), M>(spans: seq<Span<H>>, m: map<H, M>): seq<Chunk<H, M>> {
    if spans == [] || spans[0].key !in m then []
    else [Chunk(spans[0].key, m[spans[0].key], spans[0].start, spans[0].end)] + TakeHits(spans[1..], m)
  }

  lemma TakeOne<H, M>(spans: seq<Span<H>>, m: map<H, M>, i: nat, taken: seq<Chunk<H, M>>, c: Chunk<H, M>)
    requires i < |spans| && spans[i].key in m && c == Chunk(spans[i].key, m[spans[i].key], spans[i].start, spans[i].end)
    ensures taken + TakeHits(spans[i..], m) == taken + [c] + TakeHits(spans[i + 1..], m)
  {
    assert spans[i..][1..] == spans[i + 1..];
  }

  /** The chunks follow one another from `at` on and end at `to`. */
  predicate Contiguous<H, M>(chunks: seq<Chunk<H, M>>, at: nat, to: nat) {
    if chunks == [] then at == to
    else chunks[0].start == at < chunks[0].end && Contiguous(chunks[1..], chunks[0].end, to)
  }

  function EndOf<H, M>(chunks: seq<Chunk<H, M>>, at: nat): nat {
    if chunks == [] then at else chunks[|chunks| - 1].end
  }

  lemma {:induction false} HitsContiguous<H, M>(db: Database<H>, x: seq<Token>, at: nat, spans: seq<Span<H>>, m: map<H, M>)
    requires db.chunkSize > 0 && Tiles(db, x, at, spans)
    ensures Contiguous(TakeHits(spans, m), at, EndOf(TakeHits(spans, m), at)) && at <= EndOf(TakeHits(spans, m), at)
    ensures |TakeHits(spans, m)| <= |spans|
    ensures |TakeHits(spans, m)| < |spans| ==> spans[|TakeHits(spans, m)|].key !in m
    ensures EndOf(TakeHits(spans, m), at) <= |x| || at > |x|
    decreases |spans|
  {
    if spans != [] && spans[0].key in m { HitsContiguous(db, x, spans[0].end, spans[1..], m); }
  }

  /** Each chunk handed out is the span at its place, with the object its key maps to. */
  lemma {:induction false} HitsAt<H, M>(spans: seq<Span<H>>, m: map<H, M>, i: nat)
    requires i < |TakeHits(spans, m)|
    ensures i < |spans| && spans[i].key in m
    ensures TakeHits(spans, m)[i] == Chunk(spans[i].key, m[spans[i].key], spans[i].start, spans[i].end)
    decreases i
  {
    if i > 0 { HitsAt(spans[1..], m, i - 1); }
  }

  function PairsOf<H, M>(chunks: seq<Chunk<H, M>>): (ps: seq<(H, M)>)
    ensures |ps| == |chunks| && forall i :: 0 <= i < |ps| ==> ps[i] == (chunks[i].key, chunks[i].obj)
  {
    if chunks == [] then [] else [(chunks[0].key, chunks[0].obj)] + PairsOf(chunks[1..])
  }

  /** The keys of later chunks differ from those of any earlier prefix. */
  lemma {:induction false} LaterKeys<H(!new), M>(db: Database<H>, x: seq<Token>, at: nat, spans: seq<Span<H>>, m: map<H, M>, y: seq<Token>)
    requires db.chunkSize > 0 && Injective(db) && Tiles(db, x, at, spans) && |y| <= at
    ensures forall p :: p in PairsOf(TakeHits(spans, m)) ==> p.0 != Key(db, y)
    decreases |spans|
  {
    if spans != [] && spans[0].key in m {
      KeysAgree(db, y, x[..spans[0].end]);
      LaterKeys(db, x, spans[0].end, spans[1..], m, y);
      var hits := TakeHits(spans, m);
      assert hits[1..] == TakeHits(spans[1..], m);
    }
  }

  /** No key is handed out twice, and what is handed out is what the dictionary holds. */
  lemma {:induction false} HitsDistinct<H(!new), M>(db: Database<H>, x: seq<Token>, at: nat, spans: seq<Span<H>>, m: map<H, M>)
    requires db.chunkSize > 0 && Injective(db) && Tiles(db, x, at, spans)
    ensures DistinctKeys(PairsOf(TakeHits(spans, m)))
    ensures forall p :: p in PairsOf(TakeHits(spans, m)) ==> p.0 in m && m[p.0] == p.1
    decreases |spans|
  {
    if spans != [] && spans[0].key in m {
      var e := spans[0].end;
      HitsDistinct(db, x, e, spans[1..], m);
      LaterKeys(db, x, e, spans[1..], m, x[..e]);
      var hits := TakeHits(spans, m);
      assert hits[1..] == TakeHits(spans[1..], m);
      var ps, rest := PairsOf(hits), PairsOf(TakeHits(spans[1..], m));
      assert ps == [ps[0]] + rest;
      forall i, j | 0 <= i < j < |ps| ensures ps[i].0 != ps[j].0 { assert ps[j] == rest[j - 1] && rest[j - 1] in rest; }
    }
  }

  lemma {:induction false} SuffixTiles<H>(db: Database<H>, x: seq<Token>, at: nat, spans: seq<Span<H>>, k: nat)
    requires db.chunkSize > 0 && Tiles(db, x, at, spans) && k < |spans|
    ensures Tiles(db, x, spans[k].start, spans[k..])
    decreases k
  {
    if k > 0 {
      SuffixTiles(db, x, spans[0].end, spans[1..], k - 1);
      assert spans[1..][k - 1..] == spans[k..];
    } else {
      assert spans[0..] == spans;
    }
  }

  /** The chunks from a chunk-aligned position on. */
  lemma MaskedTiles<H>(db: Database<H>, x: seq<Token>, from: nat)
    requires db.chunkSize > 0 && from % db.chunkSize == 0
    ensures From(Spans(db, x), from) == [] || Tiles(db, x, from, From(Spans(db, x), from))
  {
    SpansTile(db, x);
    WholeMod(db.chunkSize, from);
    var k := FromIsSuffix(db, x, 0, Spans(db, x), from);
    if k < |Spans(db, x)| { SuffixTiles(db, x, 0, Spans(db, x), k); }
  }

  /** Count down the objects whose key was not used. */
  method GiveBack<H(==), M>(m: map<H, M>, used: set<H>) returns (released: seq<(H, M)>)
    ensures DistinctKeys(released)
    ensures forall k, o :: (k, o) in released <==> k in m && k !in used && m[k] == o
  {
    released := [];
    var rest := m.Keys - used;
    while rest != {}
      invariant rest <= m.Keys - used && DistinctKeys(released)
      invariant forall k, o :: (k, o) in released <==> k in m && k !in used && k !in rest && m[k] == o
      decreases |rest|
    {
      var k :| k in rest;
      ghost var before := released;
      released := released + [(k, m[k])];
      assert forall p :: p in released <==> p in before || p == (k, m[k]);
      forall i | 0 <= i < |before| ensures before[i].0 != k { assert (before[i].0, before[i].1) in before; }
      rest := rest - {k};
    }
  }

  function KeySet<H(==), M>(chunks: seq<Chunk<H, M>>): set<H> {
    if chunks == [] then {} else KeySet(chunks[..|chunks| - 1]) + {chunks[|chunks| - 1].key}
  }

  lemma KeySetSnoc<H, M>(chunks: seq<Chunk<H, M>>, c: Chunk<H, M>)
    ensures KeySet(chunks + [c]) == KeySet(chunks) + {c.key}
  {
    assert (chunks + [c])[..|chunks|] == chunks;
  }

  lemma {:induction false} KeySetMembers<H, M>(chunks: seq<Chunk<H, M>>)
    ensures forall i :: 0 <= i < |chunks| ==> chunks[i].key in KeySet(chunks)
    ensures forall k :: k in KeySet(chunks) ==> exists i :: 0 <= i < |chunks| && chunks[i].key == k
  {
    if chunks != [] {
      var n := |chunks| - 1;
      KeySetMembers(chunks[..n]);
      forall k | k in KeySet(chunks) ensures exists i :: 0 <= i < |chunks| && chunks[i].key == k {
        if k in KeySet(chunks[..n]) {
          var i :| 0 <= i < n && chunks[..n][i].key == k;
          assert chunks[i].key == k;
        } else {
          assert chunks[n].key == k;
        }
      }
    }
  }

  /** Walk the chunks, hand out what was prefetched up to the first chunk that was not, and mark its
      tokens. */
  method HandOut<H(==,!new), M>(ghost db: Database<H>, ghost x: seq<Token>, from: nat, spans: seq<Span<H>>, m: map<H, M>, retMask: array<bool>)
    returns (chunks: seq<Chunk<H, M>>, used: set<H>)
    requires db.chunkSize > 0 && retMask.Length == |x| && (spans == [] || Tiles(db, x, from, spans))
    modifies retMask
    ensures chunks == TakeHits(spans, m) && used == KeySet(chunks)
    ensures forall i :: 0 <= i < |x| ==> retMask[i] == (old(retMask[i]) || from <= i < EndOf(chunks, from))
  {
    chunks, used := [], {};
    var idx := 0;
    ghost var at := from;
    while idx < |spans| && spans[idx].key in m
      invariant idx <= |spans| && at == EndOf(chunks, from) && from <= at
      invariant chunks + TakeHits(spans[idx..], m) == TakeHits(spans, m)
      invariant idx < |spans| ==> Tiles(db, x, at, spans[idx..])
      invariant used == KeySet(chunks)
      invariant forall i :: 0 <= i < |x| ==> retMask[i] == (old(retMask[i]) || from <= i < at)
    {
      var span := spans[idx];
      var c := Chunk(span.key, m[span.key], span.start, span.end);
      KeySetSnoc(chunks, c);
      TakeOne(spans, m, idx, chunks, c);
      assert spans[idx..][1..] == spans[idx + 1..];
      chunks := chunks + [c];
      forall i | span.start <= i < span.end { retMask[i] := true; }
      used := used + {span.key};
      idx := idx + 1;
      at := span.end;
    }
  }

  // ----- what becomes of the prefetched objects

  /** What is handed out or given back: what the dictionary holds, each entry once; nothing at all when
      the mask does not end at a chunk boundary, because the error comes after the objects were taken. */
  ghost predicate Handled<H(!new), M(!new)>(chunkSize: nat, mask: Option<seq<bool>>, all: seq<(H, M)>, handled: seq<(H, M)>)
    requires chunkSize > 0
  {
    if NumFalses(mask) % chunkSize != 0 then handled == []
    else DistinctKeys(handled) && forall k, o :: (k, o) in handled <==> k in Dictionary(all) && Dictionary(all)[k] == o
  }

  /** Every prefetched object is handed out or given back exactly once if and only if there is none, or
      no key was prefetched twice and the mask ends at a chunk boundary. */
  lemma HandledOnceIff<H(!new), M(!new)>(chunkSize: nat, mask: Option<seq<bool>>, all: seq<(H, M)>, handled: seq<(H, M)>)
    requires chunkSize > 0 && Handled(chunkSize, mask, all, handled)
    ensures multiset(handled) == multiset(all) <==>
            all == [] || (DistinctKeys(all) && NumFalses(mask) % chunkSize == 0)
  {
    if NumFalses(mask) % chunkSize == 0 {
      AccountedIffDistinct(all, handled);
    } else {
      assert |multiset(handled)| == 0 && |multiset(all)| == |all|;
    }
  }

  /** Every place of every tier was handed out or given back exactly once. */
  ghost predicate AllHandledOnce<H(!new), M(!new)>(tiers: seq<seq<(H, M)>>, handled: seq<(H, M)>) {
    forall p: (H, M) :: multiset(handled)[p] == Total(Counts(tiers, p))
  }

  /** The same for the tiers as they were prefetched. */
  lemma TiersHandledIff<H(!new), M(!new)>(chunkSize: nat, mask: Option<seq<bool>>, tiers: seq<seq<(H, M)>>, handled: seq<(H, M)>)
    requires chunkSize > 0 && Handled(chunkSize, mask, Flatten(tiers), handled)
    ensures AllHandledOnce(tiers, handled) <==>
            NoEntries(tiers) || (DistinctTiers(tiers) && NumFalses(mask) % chunkSize == 0)
  {
    var all := Flatten(tiers);
    HandledOnceIff(chunkSize, mask, all, handled);
    FlattenEmpty(tiers);
    FlattenDistinct(tiers);
    forall p: (H, M) ensures multiset(all)[p] == Total(Counts(tiers, p)) { FlattenCounts(tiers, p); }
    if multiset(handled) == multiset(all) {
      assert AllHandledOnce(tiers, handled);
    }
    if AllHandledOnce(tiers, handled) {
      assert forall p: (H, M) :: multiset(handled)[p] == multiset(all)[p];
    }
  }

  /** The chunks served are the leading spans, each with the latest object prefetched under its key, up to
      the first span under whose key nothing was prefetched. */
  ghost predicate ServesHits<H(!new), M(!new)>(tiers: seq<seq<(H, M)>>, spans: seq<Span<H>>, chunks: seq<Chunk<H, M>>) {
    && |chunks| <= |spans|
    && (forall i :: 0 <= i < |chunks| ==>
          && chunks[i].key == spans[i].key && chunks[i].start == spans[i].start && chunks[i].end == spans[i].end
          && Latest(tiers, chunks[i].key, chunks[i].obj))
    && (|chunks| < |spans| ==> forall t, i :: Within(tiers, t, i) ==> tiers[t][i].0 != spans[|chunks|].key)
  }

  lemma {:induction false} HitsStop<H, M>(spans: seq<Span<H>>, m: map<H, M>)
    ensures |TakeHits(spans, m)| <= |spans|
    ensures |TakeHits(spans, m)| < |spans| ==> spans[|TakeHits(spans, m)|].key !in m
  {
    if spans != [] && spans[0].key in m { HitsStop(spans[1..], m); }
  }

  lemma HitsOfTiers<H(!new), M(!new)>(tiers: seq<seq<(H, M)>>, spans: seq<Span<H>>, chunks: seq<Chunk<H, M>>)
    requires chunks == TakeHits(spans, Dictionary(Flatten(tiers)))
    ensures ServesHits(tiers, spans, chunks)
  {
    var m := Dictionary(Flatten(tiers));
    HitsStop(spans, m);
    forall i | 0 <= i < |chunks|
      ensures chunks[i] == Chunk(spans[i].key, chunks[i].obj, spans[i].start, spans[i].end) && Latest(tiers, chunks[i].key, chunks[i].obj)
    {
      HitsAt(spans, m, i);
      DictionaryByTiers(tiers, chunks[i].key, chunks[i].obj);
    }
    DictionaryEntries(Flatten(tiers));
    forall t, i | Within(tiers, t, i) ensures tiers[t][i].0 in m { FlattenMembers(tiers, tiers[t][i]); }
  }

  /** Of two objects under one key the first is neither handed out nor given back. */
  lemma DuplicateKeyLost<H(!new), M(!new)>(chunkSize: nat, k: H, a: M, b: M, handled: seq<(H, M)>)
    requires chunkSize > 0 && a != b && Handled(chunkSize, None, [(k, a), (k, b)], handled)
    ensures (k, a) !in handled && (k, b) in handled
  {
    var all := [(k, a), (k, b)];
    assert [(k, a)][..0] == [] && Dictionary([(k, a)]) == map[k := a];
    assert all[..1] == [(k, a)] && Dictionary(all) == map[k := a][k := b];
  }

  /** With chunks of two tokens and one masked token, an object prefetched under a key of its own is lost. */
  lemma UnalignedMaskLosesAll<H(!new), M(!new)>(k: H, a: M, handled: seq<(H, M)>)
    requires Handled(2, Some([false]), [(k, a)], handled)
    ensures DistinctKeys([(k, a)]) && handled == []
  {
    assert [false][..0] == [];
    assert NumFalses(Some([false])) == 1;
  }

  /** The asynchronous retrieve. A failed prefetch serves nothing, and a mask that does not end at a chunk
      boundary is an error. Otherwise the result is the contiguous run of prefetched chunks from the first
      unmasked one, and the mask is set exactly on its tokens. Whenever the prefetch succeeded, every
      object is handed out or given back exactly once if and only if there is none, or no key was
      prefetched twice and the mask ends at a chunk boundary. */
  method Retrieve<H(==,!new), M(==,!new)>(db: Database<H>, x: seq<Token>, mask: Option<seq<bool>>, retMask: array<bool>,
                                          prefetched: Option<seq<seq<(H, M)>>>)
    returns (r: Option<seq<Chunk<H, M>>>, released: seq<(H, M)>)
    requires db.chunkSize > 0 && Injective(db) && retMask.Length == |x|
    modifies retMask
    ensures prefetched.None? ==> r == Some([]) && released == [] && retMask[..] == old(retMask[..])
    ensures prefetched.Some? ==> (r.None? <==> NumFalses(mask) % db.chunkSize != 0)
    ensures r.None? ==> released == [] && retMask[..] == old(retMask[..])
    ensures prefetched.Some? && r.Some? ==>
              var from, all := NumFalses(mask), Flatten(prefetched.value);
              && r.value == TakeHits(From(Spans(db, x), from), Dictionary(all))
              && Contiguous(r.value, from, EndOf(r.value, from))
              && (forall i :: 0 <= i < |x| ==> retMask[i] == (old(retMask[i]) || from <= i < EndOf(r.value, from)))
    ensures prefetched.Some? && r.Some? ==> ServesHits(prefetched.value, From(Spans(db, x), NumFalses(mask)), r.value)
    ensures prefetched.Some? ==>
              var tiers, handled := prefetched.value, PairsOf(if r.Some? then r.value else []) + released;
              && Handled(db.chunkSize, mask, Flatten(tiers), handled)
              && (AllHandledOnce(tiers, handled) <==>
                    NoEntries(tiers) || (DistinctTiers(tiers) && NumFalses(mask) % db.chunkSize == 0))
  {
    released := [];
    if prefetched.None? {
      return Some([]), [];
    }
    ghost var all := Flatten(prefetched.value);
    var m := BuildDictionary(prefetched.value);
    var spans := ProcessTokens(db, x, mask);
    if spans.None? {
      TiersHandledIff(db.chunkSize, mask, prefetched.value, []);
      return None, [];
    }
    var from := NumFalses(mask);
    MaskedTiles(db, x, from);
    var chunks;
    chunks, released := Serve(db, x, from, spans.value, all, m, retMask);
    TiersHandledIff(db.chunkSize, mask, prefetched.value, PairsOf(chunks) + released);
    HitsOfTiers(prefetched.value, spans.value, chunks);
    r := Some(chunks);
  }

  /** Hand out the leading hits and give back the rest. */
  method Serve<H(==,!new), M(==,!new)>(ghost db: Database<H>, ghost x: seq<Token>, from: nat, spans: seq<Span<H>>,
                                       ghost all: seq<(H, M)>, m: map<H, M>, retMask: array<bool>)
    returns (chunks: seq<Chunk<H, M>>, released: seq<(H, M)>)
    requires db.chunkSize > 0 && Injective(db) && retMask.Length == |x| && m == Dictionary(all)
    requires spans == [] || Tiles(db, x, from, spans)
    modifies retMask
    ensures chunks == TakeHits(spans, m) && Contiguous(chunks, from, EndOf(chunks, from))
    ensures forall i :: 0 <= i < |x| ==> retMask[i] == (old(retMask[i]) || from <= i < EndOf(chunks, from))
    ensures DistinctKeys(PairsOf(chunks) + released)
    ensures forall k, o :: (k, o) in PairsOf(chunks) + released <==> k in m && m[k] == o
  {
    var used;
    chunks, used := HandOut(db, x, from, spans, m, retMask);
    released := GiveBack(m, used);
    if spans != [] {
      HitsContiguous(db, x, from, spans, m);
      HitsDistinct(db, x, from, spans, m);
    }
    EachOnce(all, chunks, used, released);
  }

  lemma EachOnce<H, M>(all: seq<(H, M)>, chunks: seq<Chunk<H, M>>, used: set<H>, released: seq<(H, M)>)
    requires DistinctKeys(PairsOf(chunks)) && used == KeySet(chunks)
    requires forall p :: p in PairsOf(chunks) ==> p.0 in Dictionary(all) && Dictionary(all)[p.0] == p.1
    requires DistinctKeys(released)
    requires forall k, o :: (k, o) in released <==> k in Dictionary(all) && k !in used && Dictionary(all)[k] == o
    ensures DistinctKeys(PairsOf(chunks) + released)
    ensures forall k, o :: (k, o) in PairsOf(chunks) + released <==> k in Dictionary(all) && Dictionary(all)[k] == o
  {
    var ps := PairsOf(chunks);
    var handled := ps + released;
    KeySetMembers(chunks);
    forall i, j | 0 <= i < j < |handled| ensures handled[i].0 != handled[j].0 {
      if i < |ps| <= j {
        assert chunks[i].key in used;
        var p := released[j - |ps|];
        assert (p.0, p.1) in released;
      }
    }
    forall k, o ensures (k, o) in handled <==> k in Dictionary(all) && Dictionary(all)[k] == o {
      assert (k, o) in handled <==> (k, o) in ps || (k, o) in released;
      if k in used {
        var i :| 0 <= i < |chunks| && chunks[i].key == k;
        assert ps[i] in ps && ps[i] == (k, Dictionary(all)[k]);
      }
    }
  }
}
