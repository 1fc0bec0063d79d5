/** What a prefetch brought: a list of keyed objects per storage tier, and the dictionary made of them. */
module Prefetch {
  import opened Basics

  // ----- the prefetched objects, by key

  /** The dictionary built from the results in order: a later entry replaces an earlier one. */
  function Dictionary<H(==), M>(all: seq<(H, M)>): map<H, M> {
    if all == [] then map[] else Dictionary(all[..|all| - 1])[all[|all| - 1].0 := all[|all| - 1].1]
  }

  ghost predicate DistinctKeys<H, M>(s: seq<(H, M)>) {
    forall i, j :: 0 <= i < j < |s| ==> s[i].0 != s[j].0
  }

  lemma {:induction false} DictionaryEntries<H, M>(all: seq<(H, M)>)
    ensures forall k :: k in Dictionary(all) ==> (k, Dictionary(all)[k]) in all
    ensures forall p :: p in all ==> p.0 in Dictionary(all)
    ensures DistinctKeys(all) ==> forall p :: p in all ==> Dictionary(all)[p.0] == p.1
  {
    if all != [] {
      var pre, last := all[..|all| - 1], all[|all| - 1];
      DictionaryEntries(pre);
      assert forall p :: p in all <==> p in pre || p == last;
    }
  }

  lemma AtMostOnce<H, M>(s: seq<(H, M)>, p: (H, M))
    requires DistinctKeys(s)
    ensures multiset(s)[p] <= 1
    decreases |s|
  {
    if s != [] {
      var pre, last := s[..|s| - 1], s[|s| - 1];
      assert s == pre + [last];
      AtMostOnce(pre, p);
      if p == last { assert p !in pre; }
    }
  }

  /** The entries handed out or given back are all the entries exactly when no key came twice: of two
      entries with one key the earlier is neither. */
  lemma AccountedIffDistinct<H, M>(all: seq<(H, M)>, handled: seq<(H, M)>)
    requires DistinctKeys(handled)
    requires forall k, o :: (k, o) in handled <==> k in Dictionary(all) && Dictionary(all)[k] == o
    ensures multiset(handled) == multiset(all) <==> DistinctKeys(all)
  {
    DictionaryEntries(all);
    if DistinctKeys(all) {
      forall p: (H, M) ensures multiset(handled)[p] == multiset(all)[p] {
        AtMostOnce(all, p);
        AtMostOnce(handled, p);
        assert p == (p.0, p.1);
        assert p in handled <==> p.0 in Dictionary(all) && Dictionary(all)[p.0] == p.1;
        assert p in all <==> p in handled;
        assert p in multiset(all) <==> p in all;
        assert p in multiset(handled) <==> p in handled;
      }
    }
    if multiset(handled) == multiset(all) { SameEntriesDistinct(all, handled); }
  }

  lemma SameEntriesDistinct<H, M>(s: seq<(H, M)>, t: seq<(H, M)>)
    requires multiset(s) == multiset(t) && DistinctKeys(t)
    ensures DistinctKeys(s)
  {
    forall i, j | 0 <= i < j < |s| ensures s[i].0 != s[j].0 {
      assert s[i] in multiset(t) && s[j] in multiset(t);
      AtMostOnce(t, s[i]);
      if s[i] == s[j] {
        TwiceThere(s, i, j);
      }
    }
  }

  lemma TwiceThere<T>(s: seq<T>, i: nat, j: nat)
    requires i < j < |s| && s[i] == s[j]
    ensures multiset(s)[s[i]] >= 2
  {
    assert s == s[..j] + [s[j]] + s[j + 1..];
    assert s[..j][i] == s[i];
    assert s[i] in multiset(s[..j]);
  }

  /** The prefetched entries, in the order the loop over the tiers meets them. */
  function Flatten<T>(tiers: seq<seq<T>>): seq<T> {
    if tiers == [] then [] else Flatten(tiers[..|tiers| - 1]) + tiers[|tiers| - 1]
  }

  lemma {:induction false} DictionaryAppend<H, M>(a: seq<(H, M)>, b: seq<(H, M)>, i: nat)
    requires i < |b|
    ensures Dictionary(a + b[..i + 1]) == Dictionary(a + b[..i])[b[i].0 := b[i].1]
  {
    assert a + b[..i + 1] == a + b[..i] + [b[i]];
    assert (a + b[..i] + [b[i]])[..|a| + i] == a + b[..i];
  }

  // ----- the tiers themselves

  ghost predicate Within<T>(tiers: seq<seq<T>>, t: int, i: int) { 0 <= t < |tiers| && 0 <= i < |tiers[t]| }

  predicate Later(t: int, i: int, u: int, j: int) { t < u || (t == u && i < j) }

  /** An entry of some tier whose key no later entry, of the same tier or a later one, has. */
  ghost predicate Latest<H, M>(tiers: seq<seq<(H, M)>>, k: H, o: M) {
    exists t, i :: Within(tiers, t, i) && tiers[t][i] == (k, o) && Unreplaced(tiers, t, i)
  }

  ghost predicate Unreplaced<H, M>(tiers: seq<seq<(H, M)>>, t: int, i: int)
    requires Within(tiers, t, i)
  {
    forall u, j :: Within(tiers, u, j) && Later(t, i, u, j) ==> tiers[u][j].0 != tiers[t][i].0
  }

  /** No key occurs at two places. */
  ghost predicate DistinctTiers<H, M>(tiers: seq<seq<(H, M)>>) {
    forall t, i, u, j :: Within(tiers, t, i) && Within(tiers, u, j) && Later(t, i, u, j) ==> tiers[t][i].0 != tiers[u][j].0
  }

  ghost predicate NoEntries<T>(tiers: seq<seq<T>>) { forall t, i :: !Within(tiers, t, i) }

  /** How often an entry occurs in each tier. */
  ghost function Counts<T>(tiers: seq<seq<T>>, p: T): seq<nat> {
    seq(|tiers|, t requires 0 <= t < |tiers| => multiset(tiers[t])[p])
  }

  /** The flat list holds every entry of every tier as often as they hold it together. */
  lemma {:induction false} FlattenCounts<T>(tiers: seq<seq<T>>, p: T)
    ensures multiset(Flatten(tiers))[p] == Total(Counts(tiers, p))
    decreases |tiers|
  {
    if tiers != [] {
      var n := |tiers| - 1;
      FlattenCounts(tiers[..n], p);
      assert Counts(tiers, p)[..n] == Counts(tiers[..n], p);
      assert multiset(Flatten(tiers)) == multiset(Flatten(tiers[..n])) + multiset(tiers[n]);
    }
  }

  /** The flat list holds exactly the entries of the tiers. */
  lemma {:induction false} FlattenMembers<T>(tiers: seq<seq<T>>, p: T)
    ensures p in Flatten(tiers) <==> exists t, i :: Within(tiers, t, i) && tiers[t][i] == p
    decreases |tiers|
  {
    if tiers != [] {
      var n := |tiers| - 1;
      var pre, last := tiers[..n], tiers[n];
      FlattenMembers(pre, p);
      if p in Flatten(pre) {
        var t, i :| Within(pre, t, i) && pre[t][i] == p;
        assert Within(tiers, t, i) && tiers[t][i] == p;
      }
      if p in last {
        var i :| 0 <= i < |last| && last[i] == p;
        assert Within(tiers, n, i) && tiers[n][i] == p;
      }
      if t, i :| Within(tiers, t, i) && tiers[t][i] == p {
        if t < n { assert Within(pre, t, i) && pre[t][i] == p; } else { assert last[i] == p; }
      }
    }
  }

  /** The last entry under its key in a flat list. */
  ghost predicate LastEntry<H, M>(all: seq<(H, M)>, k: H, o: M) {
    exists n :: 0 <= n < |all| && all[n] == (k, o) && forall m :: n < m < |all| ==> all[m].0 != k
  }

  ghost predicate HasKey<H, M>(all: seq<(H, M)>, k: H) { exists n :: 0 <= n < |all| && all[n].0 == k }

  lemma LastEntryAppend<H, M>(a: seq<(H, M)>, b: seq<(H, M)>, k: H, o: M)
    ensures LastEntry(a + b, k, o) <==> LastEntry(b, k, o) || (!HasKey(b, k) && LastEntry(a, k, o))
  {
    var all := a + b;
    if LastEntry(b, k, o) {
      var n :| 0 <= n < |b| && b[n] == (k, o) && forall m :: n < m < |b| ==> b[m].0 != k;
      assert all[|a| + n] == (k, o);
      assert forall m :: |a| + n < m < |all| ==> all[m] == b[m - |a|];
    }
    if !HasKey(b, k) && LastEntry(a, k, o) {
      var n :| 0 <= n < |a| && a[n] == (k, o) && forall m :: n < m < |a| ==> a[m].0 != k;
      assert all[n] == (k, o);
      assert forall m :: n < m < |all| ==> all[m] == if m < |a| then a[m] else b[m - |a|];
    }
    if LastEntry(all, k, o) {
      var n :| 0 <= n < |all| && all[n] == (k, o) && forall m :: n < m < |all| ==> all[m].0 != k;
      if n >= |a| {
        assert b[n - |a|] == (k, o);
        assert forall m :: n - |a| < m < |b| ==> b[m] == all[m + |a|];
      } else {
        assert a[n] == (k, o);
        assert forall m :: n < m < |a| ==> a[m] == all[m];
        assert forall m :: 0 <= m < |b| ==> b[m] == all[m + |a|];
      }
    }
  }

  lemma LastOfOne<H, M>(e: (H, M), k: H, o: M)
    ensures LastEntry([e], k, o) <==> e == (k, o)
    ensures HasKey([e], k) <==> e.0 == k
  {
    assert [e][0] == e;
  }

  /** What the dictionary holds under a key is the last entry with it. */
  lemma {:induction false} DictionaryIsLast<H, M>(all: seq<(H, M)>, k: H, o: M)
    ensures k in Dictionary(all) && Dictionary(all)[k] == o <==> LastEntry(all, k, o)
    decreases |all|
  {
    if all != [] {
      var pre, e := all[..|all| - 1], all[|all| - 1];
      DictionaryIsLast(pre, k, o);
      LastEntryAppend(pre, [e], k, o);
      LastOfOne(e, k, o);
      assert all == pre + [e];
    }
  }

  lemma LatestSnoc<H, M>(tiers: seq<seq<(H, M)>>, k: H, o: M)
    requires tiers != []
    ensures var n := |tiers| - 1;
            Latest(tiers, k, o) <==> LastEntry(tiers[n], k, o) || (!HasKey(tiers[n], k) && Latest(tiers[..n], k, o))
  {
    var n := |tiers| - 1;
    var pre, last := tiers[..n], tiers[n];
    if LastEntry(last, k, o) {
      var i :| 0 <= i < |last| && last[i] == (k, o) && forall m :: i < m < |last| ==> last[m].0 != k;
      assert Within(tiers, n, i) && Unreplaced(tiers, n, i);
    }
    if !HasKey(last, k) && Latest(pre, k, o) {
      var t, i :| Within(pre, t, i) && pre[t][i] == (k, o) && Unreplaced(pre, t, i);
      forall u, j | Within(tiers, u, j) && Later(t, i, u, j) ensures tiers[u][j].0 != k {
        if u < n { assert Within(pre, u, j) && pre[u][j] == tiers[u][j]; }
      }
      assert Within(tiers, t, i) && Unreplaced(tiers, t, i);
    }
    if Latest(tiers, k, o) {
      var t, i :| Within(tiers, t, i) && tiers[t][i] == (k, o) && Unreplaced(tiers, t, i);
      if t == n {
        assert forall m :: i < m < |last| ==> Within(tiers, n, m) && Later(n, i, n, m);
      } else {
        forall m | 0 <= m < |last| ensures last[m].0 != k { assert Within(tiers, n, m) && Later(t, i, n, m); }
        assert Within(pre, t, i);
        forall u, j | Within(pre, u, j) && Later(t, i, u, j) ensures pre[u][j].0 != k { assert Within(tiers, u, j); }
        assert Unreplaced(pre, t, i);
      }
    }
  }

  /** The dictionary holds, under each key, the entry that no later tier or position replaces. */
  lemma {:induction false} DictionaryByTiers<H, M>(tiers: seq<seq<(H, M)>>, k: H, o: M)
    ensures k in Dictionary(Flatten(tiers)) && Dictionary(Flatten(tiers))[k] == o <==> Latest(tiers, k, o)
  {
    DictionaryIsLast(Flatten(tiers), k, o);
    FlattenLast(tiers, k, o);
  }

  lemma {:induction false} FlattenLast<H, M>(tiers: seq<seq<(H, M)>>, k: H, o: M)
    ensures LastEntry(Flatten(tiers), k, o) <==> Latest(tiers, k, o)
    decreases |tiers|
  {
    if tiers != [] {
      var n := |tiers| - 1;
      FlattenLast(tiers[..n], k, o);
      LastEntryAppend(Flatten(tiers[..n]), tiers[n], k, o);
      LatestSnoc(tiers, k, o);
    }
  }

  lemma DistinctAppend<H, M>(a: seq<(H, M)>, b: seq<(H, M)>)
    ensures DistinctKeys(a + b) <==> DistinctKeys(a) && DistinctKeys(b) && forall p, q :: p in a && q in b ==> p.0 != q.0
  {
    var all := a + b;
    if DistinctKeys(all) {
      forall i, j | 0 <= i < j < |a| ensures a[i].0 != a[j].0 { assert all[i] == a[i] && all[j] == a[j]; }
      forall i, j | 0 <= i < j < |b| ensures b[i].0 != b[j].0 { assert all[|a| + i] == b[i] && all[|a| + j] == b[j]; }
      forall p, q | p in a && q in b ensures p.0 != q.0 {
        var i :| 0 <= i < |a| && a[i] == p;
        var j :| 0 <= j < |b| && b[j] == q;
        assert all[i] == p && all[|a| + j] == q;
      }
    }
  }

  lemma {:induction false} FlattenDistinct<H, M>(tiers: seq<seq<(H, M)>>)
    ensures DistinctKeys(Flatten(tiers)) <==> DistinctTiers(tiers)
    decreases |tiers|
  {
    if tiers != [] {
      var n := |tiers| - 1;
      FlattenDistinct(tiers[..n]);
      DistinctAppend(Flatten(tiers[..n]), tiers[n]);
      TiersSnoc(tiers);
    }
  }

  lemma TiersSnoc<H, M>(tiers: seq<seq<(H, M)>>)
    requires tiers != []
    ensures var n := |tiers| - 1;
            DistinctTiers(tiers) <==>
              && DistinctTiers(tiers[..n]) && DistinctKeys(tiers[n])
              && forall p, q :: p in Flatten(tiers[..n]) && q in tiers[n] ==> p.0 != q.0
  {
    var n := |tiers| - 1;
    var pre: seq<seq<(H, M)>> := tiers[..n];
    var last: seq<(H, M)> := tiers[n];
    if DistinctTiers(tiers) {
      forall t, i, u, j | Within(pre, t, i) && Within(pre, u, j) && Later(t, i, u, j) ensures pre[t][i].0 != pre[u][j].0 {
        assert Within(tiers, t, i) && Within(tiers, u, j);
      }
      forall i, j | 0 <= i < j < |last| ensures last[i].0 != last[j].0 {
        assert Within(tiers, n, i) && Within(tiers, n, j) && Later(n, i, n, j);
      }
      forall p, q | p in Flatten(pre) && q in last ensures p.0 != q.0 {
        FlattenMembers(pre, p);
        var t, i :| Within(pre, t, i) && pre[t][i] == p;
        var j :| 0 <= j < |last| && last[j] == q;
        assert Within(tiers, t, i) && Within(tiers, n, j) && Later(t, i, n, j);
      }
    }
    if DistinctTiers(pre) && DistinctKeys(last) && forall p, q :: p in Flatten(pre) && q in last ==> p.0 != q.0 {
      forall t, i, u, j | Within(tiers, t, i) && Within(tiers, u, j) && Later(t, i, u, j) ensures tiers[t][i].0 != tiers[u][j].0 {
        if u < n {
          assert Within(pre, t, i) && Within(pre, u, j);
        } else if t < n {
          assert Within(pre, t, i) && pre[t][i] == tiers[t][i];
          FlattenMembers(pre, tiers[t][i]);
          assert tiers[u][j] in last;
        }
      }
    }
  }

  lemma FlattenEmpty<T>(tiers: seq<seq<T>>)
    ensures Flatten(tiers) == [] <==> NoEntries(tiers)
  {
    if Flatten(tiers) != [] {
      FlattenMembers(tiers, Flatten(tiers)[0]);
    }
    if t, i :| Within(tiers, t, i) {
      FlattenMembers(tiers, tiers[t][i]);
    }
  }

  method BuildDictionary<H(==,!new), M(!new)>(tiers: seq<seq<(H, M)>>) returns (m: map<H, M>)
    ensures m == Dictionary(Flatten(tiers))
    ensures forall k, o :: k in m && m[k] == o <==> Latest(tiers, k, o)
  {
    m := map[];
    for t := 0 to |tiers|
      invariant m == Dictionary(Flatten(tiers[..t]))
    {
      ghost var done := Flatten(tiers[..t]);
      assert done + tiers[t][..0] == done;
      for i := 0 to |tiers[t]|
        invariant m == Dictionary(done + tiers[t][..i])
      {
        DictionaryAppend(done, tiers[t], i);
        m := m[tiers[t][i].0 := tiers[t][i].1];
      }
      assert tiers[t][..|tiers[t]|] == tiers[t];
      assert tiers[..t + 1][..t] == tiers[..t];
    }
    assert tiers[..|tiers|] == tiers;
    forall k, o ensures k in m && m[k] == o <==> Latest(tiers, k, o) { DictionaryByTiers(tiers, k, o); }
  }
}
