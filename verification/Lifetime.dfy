/** The two-counter lifetime of a memory object: when a sequence of reference and pin operations,
    surplus ones included, returns it to its allocator. */
module Lifetime {

  datatype Op = RefUp | RefDown | Pin | Unpin

  datatype Life = Life(refs: int, pins: int, live: bool)

  /** A freshly allocated object. */
  const FRESH := Life(1, 0, true)

  function Step(s: Life, op: Op): Life {
    match op
    case RefUp => s.(refs := s.refs + 1)
    case RefDown =>
      var r := if s.refs - 1 < 0 then 0 else s.refs - 1;
      Life(r, s.pins, s.live && !(r == 0 && s.pins == 0))
    case Pin => s.(pins := s.pins + 1)
    case Unpin =>
      var p := s.pins - 1;
      Life(s.refs, if p < 0 then 0 else p, s.live && !(p <= 0 && s.refs <= 0))
  }

  function Run(ops: seq<Op>): Life {
    if ops == [] then FRESH else Step(Run(ops[..|ops| - 1]), ops[|ops| - 1])
  }

  /** A count that goes up on `up`, down on `down`, and stops at zero. */
  function Count(start: nat, up: Op, down: Op, ops: seq<Op>): nat {
    if ops == [] then start
    else
      var c := Count(start, up, down, ops[..|ops| - 1]);
      var op := ops[|ops| - 1];
      if op == up then c + 1 else if op == down && c > 0 then c - 1 else c
  }

  function Refs(ops: seq<Op>): nat { Count(1, RefUp, RefDown, ops) }

  function Pins(ops: seq<Op>): nat { Count(0, Pin, Unpin, ops) }

  /** Neither a reference nor a pin is left after the first `k` operations. */
  predicate Unheld(ops: seq<Op>, k: nat)
    requires k <= |ops|
  {
    Refs(ops[..k]) == 0 && Pins(ops[..k]) == 0
  }

  lemma {:induction false} CountsAgree(ops: seq<Op>)
    ensures Run(ops).refs == Refs(ops) && Run(ops).pins == Pins(ops)
  {
    if ops != [] { CountsAgree(ops[..|ops| - 1]); }
  }

  lemma HeldPrefix(ops: seq<Op>, n: nat)
    requires n <= |ops|
    ensures (forall k :: 0 <= k <= n ==> !Unheld(ops[..n], k)) <==> (forall k :: 0 <= k <= n ==> !Unheld(ops, k))
  {
    var pre := ops[..n];
    forall k | 0 <= k <= n ensures Unheld(pre, k) <==> Unheld(ops, k) { assert pre[..k] == ops[..k]; }
    if k: nat :| k <= n && Unheld(pre, k) { assert Unheld(ops, k); }
    if k: nat :| k <= n && Unheld(ops, k) { assert Unheld(pre, k); }
  }

  /** An object is live exactly while it has been held at every moment so far. */
  lemma {:induction false} LiveWhileHeld(ops: seq<Op>)
    ensures Run(ops).live <==> forall k :: 0 <= k <= |ops| ==> !Unheld(ops, k)
  {
    if ops != [] {
      var n := |ops| - 1;
      var pre := ops[..n];
      LiveWhileHeld(pre);
      CountsAgree(pre);
      CountsAgree(ops);
      assert ops[..n + 1] == ops && pre[..n] == pre;
      HeldPrefix(ops, n);
      assert Unheld(ops, n + 1) <==> Refs(ops) == 0 && Pins(ops) == 0;
      assert Run(pre).live ==> !Unheld(pre, n);
    }
  }

  /** Operation `k` hands the object back to its allocator. */
  predicate ReturnsAt(ops: seq<Op>, k: nat)
    requires k < |ops|
  {
    Run(ops[..k]).live && !Run(ops[..k + 1]).live
  }

  /** The object is handed back at the first moment neither count holds it, and at no other. */
  lemma ReturnedOnceAtFirstUnheld(ops: seq<Op>, k: nat)
    requires k < |ops|
    ensures ReturnsAt(ops, k) <==> Unheld(ops, k + 1) && forall j :: 0 <= j <= k ==> !Unheld(ops, j)
  {
    LiveWhileHeld(ops[..k]);
    LiveWhileHeld(ops[..k + 1]);
    HeldPrefix(ops, k);
    HeldPrefix(ops, k + 1);
  }

  /** Number of times the object is handed back during a run. */
  function Returns(ops: seq<Op>): nat {
    if ops == [] then 0
    else Returns(ops[..|ops| - 1]) + if ReturnsAt(ops, |ops| - 1) then 1 else 0
  }

  /** Over any sequence at all, surplus operations and operations after the return included, the
      object is handed back once if both counts ever reach zero together, and otherwise never. */
  lemma ReturnedAtMostOnce(ops: seq<Op>)
    ensures Returns(ops) == if exists k :: 0 <= k <= |ops| && Unheld(ops, k) then 1 else 0
  {
    LiveWhileHeld(ops);
    ReturnsCountsDeath(ops);
  }

  lemma {:induction false} ReturnsCountsDeath(ops: seq<Op>)
    ensures Returns(ops) == if Run(ops).live then 0 else 1
  {
    if ops != [] {
      var n := |ops| - 1;
      ReturnsCountsDeath(ops[..n]);
      assert ops[..n + 1] == ops;
    }
  }
}
