/** Storing and looking up token sequences by the keys of their chunks, over a store that only
    remembers which keys it holds. */
module CacheEngine {
  import opened Basics
  import opened TokenDatabase

  /** A past store: the tokens, and the end of the last chunk for which there was memory. */
  datatype Stored = Stored(tokens: seq<Token>, upTo: nat)

  /** `e` is the end of a chunk of a sequence of `n` tokens. */
  predicate IsEnd<H>(db: Database<H>, n: nat, e: nat)
    requires db.chunkSize > 0
  {
    0 < e <= n && (Whole(db.chunkSize, e) || (db.saveUnfull && e == n))
  }

  /** The store `st` put the chunk that completes the prefix `x`. */
  predicate Has<H>(db: Database<H>, st: Stored, x: seq<Token>)
    requires db.chunkSize > 0
  {
    IsEnd(db, |st.tokens|, |x|) && |x| <= st.upTo && x <= st.tokens
  }

  predicate SomeHas<H>(db: Database<H>, log: seq<Stored>, x: seq<Token>)
    requires db.chunkSize > 0
  {
    exists i :: 0 <= i < |log| && Has(db, log[i], x)
  }

  /** The key set answers exactly for the prefixes that some past store put. */
  ghost predicate Answers<H(!new)>(db: Database<H>, log: seq<Stored>, keys: set<H>)
    requires db.chunkSize > 0
  {
    forall x :: x != [] ==> (Key(db, x) in keys <==> SomeHas(db, log, x))
  }

  // ----- store

  function KeysOf<H(==)>(spans: seq<Span<H>>): set<H> {
    if spans == [] then {} else {spans[0].key} + KeysOf(spans[1..])
  }

  /** Where the first `m` spans end. */
  function UpTo<H>(spans: seq<Span<H>>, at: nat, m: nat): nat
    requires m <= |spans|
  {
    if m == 0 then at else spans[m - 1].end
  }

  lemma {:induction false} NoWholeBetween(c: nat, at: nat, n: nat)
    requires c > 0 && Whole(c, at) && at < n < at + c
    ensures !Whole(c, n)
    decreases at
  {
    if at > 0 { NoWholeBetween(c, at - c, n - c); }
  }

  /** The first span is the only chunk that ends in its range. */
  lemma FirstSpanOnly<H>(db: Database<H>, a: seq<Token>, at: nat, spans: seq<Span<H>>, e: nat)
    requires db.chunkSize > 0 && Tiles(db, a, at, spans) && |spans| > 0 && Whole(db.chunkSize, at)
    ensures at < e <= spans[0].end ==> (IsEnd(db, |a|, e) <==> e == spans[0].end)
  {
    if spans[0].end == at + db.chunkSize { WholeNext(db.chunkSize, at); }
    if at < e < spans[0].end { NoWholeBetween(db.chunkSize, at, e); }
  }

  /** The keys of the first `m` spans are the keys of the prefixes those spans complete. */
  lemma {:induction false} StoredKeys<H(!new)>(db: Database<H>, a: seq<Token>, at: nat, spans: seq<Span<H>>, m: nat, x: seq<Token>)
    requires db.chunkSize > 0 && Injective(db) && Tiles(db, a, at, spans) && m <= |spans|
    requires at <= |a| && (Whole(db.chunkSize, at) || at == |a|)
    ensures Key(db, x) in KeysOf(spans[..m]) <==> at < |x| <= UpTo(spans, at, m) && IsEnd(db, |a|, |x|) && x <= a
    decreases m
  {
    if m > 0 {
      var e, rest := spans[0].end, spans[1..];
      assert spans[..m][1..] == rest[..m - 1];
      KeysAgree(db, x, a[..e]);
      FirstSpanOnly(db, a, at, spans, |x|);
      NextSpan(db, a, at, spans);
      StoredKeys(db, a, e, rest, m - 1, x);
      assert UpTo(spans, at, m) == UpTo(rest, e, m - 1);
      UpToGrows(db, a, e, rest, m - 1);
      assert x <= a && |x| == e ==> x == a[..e];
    }
  }

  lemma NextSpan<H>(db: Database<H>, a: seq<Token>, at: nat, spans: seq<Span<H>>)
    requires db.chunkSize > 0 && Tiles(db, a, at, spans) && |spans| > 0 && Whole(db.chunkSize, at)
    ensures Whole(db.chunkSize, spans[0].end) || spans[0].end == |a|
  {
    WholeNext(db.chunkSize, at);
  }

  lemma {:induction false} UpToGrows<H>(db: Database<H>, a: seq<Token>, at: nat, spans: seq<Span<H>>, m: nat)
    requires db.chunkSize > 0 && Tiles(db, a, at, spans) && m <= |spans|
    ensures at <= UpTo(spans, at, m)
    decreases m
  {
    if m > 0 {
      UpToGrows(db, a, spans[0].end, spans[1..], m - 1);
      assert UpTo(spans, at, m) == UpTo(spans[1..], spans[0].end, m - 1);
    }
  }

  lemma StoreAnswers<H(!new)>(db: Database<H>, log: seq<Stored>, keys: set<H>, a: seq<Token>, m: nat)
    requires db.chunkSize > 0 && Injective(db) && Answers(db, log, keys) && m <= |Spans(db, a)|
    ensures Answers(db, log + [Stored(a, UpTo(Spans(db, a), 0, m))], keys + KeysOf(Spans(db, a)[..m]))
  {
    var st := Stored(a, UpTo(Spans(db, a), 0, m));
    SpansTile(db, a);
    forall x: seq<Token> | x != []
      ensures Key(db, x) in keys + KeysOf(Spans(db, a)[..m]) <==> SomeHas(db, log + [st], x)
    {
      StoredKeys(db, a, 0, Spans(db, a), m, x);
      SomeHasSnoc(db, log, st, x);
    }
  }

  lemma SomeHasSnoc<H>(db: Database<H>, log: seq<Stored>, st: Stored, x: seq<Token>)
    requires db.chunkSize > 0
    ensures SomeHas(db, log + [st], x) <==> SomeHas(db, log, x) || Has(db, st, x)
  {
    var log' := log + [st];
    if SomeHas(db, log, x) {
      var i :| 0 <= i < |log| && Has(db, log[i], x);
      assert Has(db, log'[i], x);
    }
    if Has(db, st, x) { assert Has(db, log'[|log|], x); }
  }

  // ----- lookup

  /** The end of the last of the leading spans whose keys are all held; `res` when there is none. */
  function Reach<H(==)>(spans: seq<Span<H>>, keys: set<H>, res: nat): nat
    decreases |spans|
  {
    if spans == [] || spans[0].key !in keys then res else Reach(spans[1..], keys, spans[0].end)
  }

  /** A longer prefix of `b` that was put implies the shorter one was put with it. */
  lemma ShorterHeld<H>(db: Database<H>, st: Stored, b: seq<Token>, e: nat, f: nat)
    requires db.chunkSize > 0 && 0 < e <= f <= |b| && Has(db, st, b[..f]) && (Whole(db.chunkSize, e) || e == f)
    ensures Has(db, st, b[..e])
  {
    assert b[..e] <= b[..f];
  }

  /** The lookup stops at the largest chunk end of `b` whose prefix some past store put. */
  lemma {:induction false} ReachIsLongest<H(!new)>(db: Database<H>, log: seq<Stored>, keys: set<H>, b: seq<Token>, at: nat, spans: seq<Span<H>>)
    requires db.chunkSize > 0 && Answers(db, log, keys) && Tiles(db, b, at, spans)
    requires at <= |b| && (Whole(db.chunkSize, at) || at == |b|)
    ensures var r := Reach(spans, keys, at);
            && at <= r <= |b| && (r > at ==> IsEnd(db, |b|, r) && SomeHas(db, log, b[..r]))
            && forall f :: r < f <= |b| && IsEnd(db, |b|, f) ==> !SomeHas(db, log, b[..f])
    decreases |spans|
  {
    if spans == [] {
      forall f | at < f <= |b| ensures !IsEnd(db, |b|, f) { NothingLater(db, b, at, f); }
    } else {
      var e := spans[0].end;
      NextSpan(db, b, at, spans);
      FirstSpanOnly(db, b, at, spans, e);
      assert SomeHas(db, log, b[..e]) <==> spans[0].key in keys;
      if spans[0].key in keys {
        ReachIsLongest(db, log, keys, b, e, spans[1..]);
      } else {
        forall f | at < f <= |b| && IsEnd(db, |b|, f) ensures !SomeHas(db, log, b[..f]) {
          FirstSpanOnly(db, b, at, spans, f);
          if SomeHas(db, log, b[..f]) {
            var i :| 0 <= i < |log| && Has(db, log[i], b[..f]);
            ShorterHeld(db, log[i], b, e, f);
            assert false;
          }
        }
      }
    }
  }

  lemma NothingLater<H>(db: Database<H>, b: seq<Token>, at: nat, f: nat)
    requires db.chunkSize > 0 && Whole(db.chunkSize, at) && !More(db, |b|, at) && at <= |b|
    ensures at < f <= |b| ==> !IsEnd(db, |b|, f)
  {
    if at < f < at + db.chunkSize { NoWholeBetween(db.chunkSize, at, f); }
  }

  // ----- the same answer without keys: longest common prefixes

  function Lcp(a: seq<Token>, b: seq<Token>): nat {
    if a == [] || b == [] || a[0] != b[0] then 0 else 1 + Lcp(a[1..], b[1..])
  }

  lemma {:induction false} LcpMeaning(a: seq<Token>, b: seq<Token>, e: nat)
    ensures Lcp(a, b) <= |a| && Lcp(a, b) <= |b|
    ensures e <= |a| && e <= |b| ==> (a[..e] == b[..e] <==> e <= Lcp(a, b))
  {
    if a != [] && b != [] && e > 0 {
      LcpMeaning(a[1..], b[1..], e - 1);
      if e <= |a| && e <= |b| {
        assert a[..e] == [a[0]] + a[1..][..e - 1] && b[..e] == [b[0]] + b[1..][..e - 1];
        assert a[..e][1..] == a[1..][..e - 1] && b[..e][1..] == b[1..][..e - 1];
      }
    } else if a != [] && b != [] {
      LcpMeaning(a[1..], b[1..], 0);
    }
  }

  /** The largest whole number of chunks in `n` tokens. */
  function Floor(c: nat, n: nat): (f: nat)
    requires c > 0
    ensures f <= n < f + c && Whole(c, f)
  {
    if n < c then 0 else c + Floor(c, n - c)
  }

  lemma {:induction false} FloorLargest(c: nat, n: nat, w: nat)
    requires c > 0 && Whole(c, w) && w <= n
    ensures w <= Floor(c, n)
    decreases w
  {
    if w > 0 { FloorLargest(c, n - c, w - c); }
  }

  /** How much of `b` a past store can answer for: the whole of `b` when it is the stored sequence
      with its unfull last chunk, and otherwise the chunk-aligned common prefix, as far as there was
      memory. */
  function Match<H>(db: Database<H>, st: Stored, b: seq<Token>): nat
    requires db.chunkSize > 0
  {
    if db.saveUnfull && st.tokens == b && |b| <= st.upTo then |b|
    else Floor(db.chunkSize, Min(Lcp(st.tokens, b), st.upTo))
  }

  function MaxMatch<H>(db: Database<H>, log: seq<Stored>, b: seq<Token>): nat
    requires db.chunkSize > 0
  {
    if log == [] then 0
    else
      var rest, m := MaxMatch(db, log[..|log| - 1], b), Match(db, log[|log| - 1], b);
      if m > rest then m else rest
  }

  /** `Match` is the largest chunk end of `b` whose prefix the store put. */
  lemma MatchMeaning<H>(db: Database<H>, st: Stored, b: seq<Token>, f: nat)
    requires db.chunkSize > 0
    ensures Match(db, st, b) <= |b|
    ensures Match(db, st, b) > 0 ==> IsEnd(db, |b|, Match(db, st, b)) && Has(db, st, b[..Match(db, st, b)])
    ensures f <= |b| && IsEnd(db, |b|, f) && Has(db, st, b[..f]) ==> f <= Match(db, st, b)
  {
    var m, l := Match(db, st, b), Lcp(st.tokens, b);
    LcpMeaning(st.tokens, b, m);
    if m > 0 { assert b[..m] == st.tokens[..m]; }
    if f <= |b| && IsEnd(db, |b|, f) && Has(db, st, b[..f]) {
      LcpMeaning(st.tokens, b, f);
      assert st.tokens[..f] == b[..f];
      if Whole(db.chunkSize, f) {
        FloorLargest(db.chunkSize, Min(l, st.upTo), f);
      } else {
        assert st.tokens[..f] == st.tokens && b[..f] == b;
      }
    }
  }

  /** `MaxMatch` is the largest chunk end of `b` whose prefix some store put. */
  lemma {:induction false} MaxMatchMeaning<H>(db: Database<H>, log: seq<Stored>, b: seq<Token>, f: nat)
    requires db.chunkSize > 0
    ensures MaxMatch(db, log, b) <= |b|
    ensures MaxMatch(db, log, b) > 0 ==> IsEnd(db, |b|, MaxMatch(db, log, b)) && SomeHas(db, log, b[..MaxMatch(db, log, b)])
    ensures f <= |b| && IsEnd(db, |b|, f) && SomeHas(db, log, b[..f]) ==> f <= MaxMatch(db, log, b)
    decreases |log|
  {
    if log != [] {
      var pre, st := log[..|log| - 1], log[|log| - 1];
      assert log == pre + [st];
      MaxMatchMeaning(db, pre, b, f);
      MatchMeaning(db, st, b, f);
      SomeHasSnoc(db, pre, st, b[..MaxMatch(db, log, b)]);
      if f <= |b| { SomeHasSnoc(db, pre, st, b[..f]); }
    }
  }

  /** What the key index answers is the longest match over everything stored. */
  lemma ReachIsMaxMatch<H(!new)>(db: Database<H>, log: seq<Stored>, keys: set<H>, b: seq<Token>)
    requires db.chunkSize > 0 && Answers(db, log, keys)
    ensures Reach(Spans(db, b), keys, 0) == MaxMatch(db, log, b)
  {
    SpansTile(db, b);
    ReachIsLongest(db, log, keys, b, 0, Spans(db, b));
    MaxMatchMeaning(db, log, b, Reach(Spans(db, b), keys, 0));
  }

  class Engine<H(==,!new)> {
    const db: Database<H>
    /** The keys the storage holds. */
    var keys: set<H>
    /** Everything stored so far. */
    ghost var log: seq<Stored>

    ghost predicate Valid()
      reads this
    {
      db.chunkSize > 0 && Injective(db) && Answers(db, log, keys)
    }

    constructor (db: Database<H>)
      requires db.chunkSize > 0 && Injective(db)
      ensures Valid() && this.db == db && log == []
    {
      this.db := db;
      keys := {};
      log := [];
    }

    /** Put the chunks of `x` one by one; `room` of the memory requests succeed before one fails. */
    method Store(x: seq<Token>, room: nat)
      requires Valid()
      modifies this
      ensures Valid()
      ensures |Spans(db, x)| <= room ==> log == old(log) + [Stored(x, UpTo(Spans(db, x), 0, |Spans(db, x)|))]
      ensures room < |Spans(db, x)| ==> log == old(log) + [Stored(x, UpTo(Spans(db, x), 0, room))]
    {
      var spans := AllSpans(x);
      var put: seq<H> := [];
      var m := 0;
      while m < |spans| && m < room
        invariant keys == old(keys) && log == old(log)
        invariant m <= |spans| && m <= room && KeysOf(spans[..m]) == set k | k in put
      {
        KeysSnoc(spans, m);
        put := put + [spans[m].key];
        m := m + 1;
      }
      StoreAnswers(db, log, keys, x, m);
      keys := keys + set k | k in put;
      log := log + [Stored(x, UpTo(spans, 0, m))];
    }

    method AllSpans(x: seq<Token>) returns (spans: seq<Span<H>>)
      requires db.chunkSize > 0
      ensures spans == Spans(db, x)
    {
      var r := ProcessTokens(db, x, None);
      SpansTile(db, x);
      ghost var k := FromIsSuffix(db, x, 0, Spans(db, x), 0);
      WholeMod(db.chunkSize, 0);
      spans := r.value;
    }

    /** How many leading tokens of `x` can be served: the longest match over everything stored. */
    method Lookup(x: seq<Token>) returns (res: nat)
      requires Valid()
      ensures res == MaxMatch(db, log, x)
    {
      ReachIsMaxMatch(db, log, keys, x);
      var spans := AllSpans(x);
      res := 0;
      var idx := 0;
      while idx < |spans| && spans[idx].key in keys
        invariant idx <= |spans| && Reach(spans[idx..], keys, res) == Reach(spans, keys, 0)
      {
        assert spans[idx..][1..] == spans[idx + 1..];
        res := spans[idx].end;
        idx := idx + 1;
      }
    }
  }

  lemma {:induction false} KeysSnoc<H>(spans: seq<Span<H>>, m: nat)
    requires m < |spans|
    ensures KeysOf(spans[..m + 1]) == KeysOf(spans[..m]) + {spans[m].key}
    decreases m
  {
    if m > 0 {
      KeysSnoc(spans[1..], m - 1);
      assert spans[..m + 1][1..] == spans[1..][..m] && spans[..m][1..] == spans[1..][..m - 1];
    } else {
      assert spans[..1][1..] == [];
    }
  }
}
