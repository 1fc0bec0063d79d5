/** Memory objects as a table keyed by identity, and how their byte ranges share out an address
    space. */
module ObjectTable {
  import opened FreeList
  import opened AddressSpace
  import opened Lifetime

  datatype Obj = Obj(address: int, phySize: int, life: Life) {
    function Extent(): Block { Block(address, phySize) }

    ghost function Span(): set<int> { Range(address, phySize) }
  }

  type Table = map<nat, Obj>

  predicate IsLive(t: Table, k: nat) { k in t && t[k].life.live }

  ghost function Live(t: Table): set<nat> { set k | k in t && IsLive(t, k) }

  /** The bytes in `used` are shared out among the live objects, each byte to exactly one. */
  ghost predicate Shared(t: Table, used: set<int>, owner: map<int, nat>) {
    && owner.Keys == used
    && (forall k :: k in t ==> t[k].phySize > 0)
    && (forall x :: x in owner ==> IsLive(t, owner[x]) && x in t[owner[x]].Span())
    && (forall k, x :: IsLive(t, k) && x in t[k].Span() ==> x in owner && owner[x] == k)
  }

  /** No two live objects share a byte, and all their bytes are in use. */
  lemma LiveObjectsDisjoint(t: Table, used: set<int>, owner: map<int, nat>, k: nat, m: nat)
    requires Shared(t, used, owner) && IsLive(t, k) && IsLive(t, m) && k != m
    ensures t[k].Span() !! t[m].Span() && t[k].Span() <= used
    ensures t[k].Extent().End() <= t[m].address || t[m].Extent().End() <= t[k].address
  {
    forall x | x in t[k].Span() ensures x in owner && owner[x] == k {}
    forall x | x in t[m].Span() ensures x in owner && owner[x] == m {}
    assert t[k].address in t[k].Span() && t[m].address in t[m].Span();
  }

  function Added(t: Table, k: nat, b: Block): Table { t[k := Obj(b.start, b.size, FRESH)] }

  ghost function OwnerAdded(owner: map<int, nat>, k: nat, b: Block): map<int, nat> {
    owner + map x | x in Range(b.start, b.size) :: k
  }

  lemma AddedShared(t: Table, used: set<int>, owner: map<int, nat>, k: nat, b: Block)
    requires Shared(t, used, owner) && k !in t && b.size > 0 && Range(b.start, b.size) !! used
    ensures Shared(Added(t, k, b), used + Range(b.start, b.size), OwnerAdded(owner, k, b))
    ensures Live(Added(t, k, b)) == Live(t) + {k}
  {
    var t' := Added(t, k, b);
    assert forall m :: IsLive(t', m) <==> m == k || IsLive(t, m);
  }

  /** The table with the object's counts replaced; its liveness stays. */
  lemma SameLiveShared(t: Table, used: set<int>, owner: map<int, nat>, k: nat, l: Life)
    requires Shared(t, used, owner) && k in t && l.live == t[k].life.live
    ensures Shared(t[k := t[k].(life := l)], used, owner)
    ensures Live(t[k := t[k].(life := l)]) == Live(t)
  {
    var t' := t[k := t[k].(life := l)];
    assert forall m :: IsLive(t', m) <==> IsLive(t, m);
  }

  /** The table with a live object gone. */
  lemma DeadShared(t: Table, used: set<int>, owner: map<int, nat>, k: nat, l: Life)
    requires Shared(t, used, owner) && IsLive(t, k) && !l.live
    ensures t[k].Span() <= used
    ensures Shared(t[k := t[k].(life := l)], used - t[k].Span(), owner - t[k].Span())
    ensures Live(t[k := t[k].(life := l)]) == Live(t) - {k}
  {
    var t' := t[k := t[k].(life := l)];
    assert forall m :: IsLive(t', m) <==> IsLive(t, m) && m != k;
  }
}
