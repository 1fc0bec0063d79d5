/** The lock-free counter with a lease: two atomics, compare-and-swap loops, any number of threads,
    one step per atomic access. */
module TTLLock {
  import opened Basics

  /** Where a thread stands inside an operation, with the local variables it holds there. */
  datatype Pc =
    | Idle
    | LockClock
    | LockLoadExp(cur: int)
    | LockLoadCnt(cur: int, exp: int)
    | LockCasExp(cur: int, exp: int)
    | LockStoreOne
    | LockCasCnt(cur: int, cnt: int)
    | LockStoreExp(cur: int)
    | UnlockLoad
    | UnlockCas(cnt: int)
    | AskClock
    | AskLoadExp(cur: int)
    | AskLoadCnt(cur: int, exp: int)
    | Answered(cur: int, locked: bool)
    | ResetCnt
    | ResetExp

  datatype Kind = Lock | Unlock | IsLocked | Reset

  /** A thread: its place, the number of its current operation, and, of that operation, the writes
      before it began, the writes before its latest loads, and its failed swaps so far. */
  datatype Thread = Thread(pc: Pc, op: nat, begun: nat, mark: nat, retries: nat)

  /** The two atomics and the clock, and what happened so far: counter steps of `lock`, decrements by
      `unlock`, counter value overwritten without being unlocked, writes, and writes per operation. */
  datatype Shared = Shared(counter: int, expiration: int, now: int,
                           locks: nat, unlocks: nat, lost: int, writes: nat, opWrites: seq<nat>)

  datatype State = State(mem: Shared, threads: map<nat, Thread>)

  datatype Act = Tick(ms: nat) | Begin(t: nat, kind: Kind) | Move(t: nat)

  function Initial(now: nat): State { State(Shared(0, 0, now, 0, 0, 0, 0, []), map[]) }

  function Wrote(m: Shared, op: nat): Shared {
    m.(writes := m.writes + 1, opWrites := if op < |m.opWrites| then m.opWrites[op := m.opWrites[op] + 1] else m.opWrites)
  }

  function Entry(kind: Kind): Pc {
    match kind
    case Lock => LockClock
    case Unlock => UnlockLoad
    case IsLocked => AskClock
    case Reset => ResetCnt
  }

  /** One atomic step of a thread. */
  function Advance(ttl: nat, m: Shared, th: Thread): (Shared, Thread) {
    match th.pc
    case Idle => (m, th)
    case LockClock => (m, th.(pc := LockLoadExp(m.now)))
    case LockLoadExp(cur) => (m, th.(pc := LockLoadCnt(cur, m.expiration), mark := m.writes))
    case LockLoadCnt(cur, exp) => (m, th.(pc := if cur >= exp then LockCasExp(cur, exp) else LockCasCnt(cur, m.counter)))
    case LockCasExp(cur, exp) =>
      if m.expiration == exp then (Wrote(m, th.op).(expiration := cur + ttl), th.(pc := LockStoreOne))
      else (m, th.(pc := LockLoadExp(cur), retries := th.retries + 1))
    case LockStoreOne =>
      (Wrote(m, th.op).(counter := 1, locks := m.locks + 1, lost := m.lost + m.counter), th.(pc := Idle))
    case LockCasCnt(cur, cnt) =>
      if m.counter == cnt then (Wrote(m, th.op).(counter := cnt + 1, locks := m.locks + 1), th.(pc := LockStoreExp(cur)))
      else (m, th.(pc := LockLoadExp(cur), retries := th.retries + 1))
    case LockStoreExp(cur) => (Wrote(m, th.op).(expiration := cur + ttl), th.(pc := Idle))
    case UnlockLoad =>
      (m, if m.counter <= 0 then th.(pc := Idle) else th.(pc := UnlockCas(m.counter), mark := m.writes))
    case UnlockCas(cnt) =>
      if m.counter == cnt then (Wrote(m, th.op).(counter := cnt - 1, unlocks := m.unlocks + 1), th.(pc := Idle))
      else (m, th.(pc := UnlockLoad, retries := th.retries + 1))
    case AskClock => (m, th.(pc := AskLoadExp(m.now)))
    case AskLoadExp(cur) => (m, th.(pc := AskLoadCnt(cur, m.expiration)))
    case AskLoadCnt(cur, exp) => (m, th.(pc := Answered(cur, m.counter > 0 && cur < exp)))
    case Answered(_, _) => (m, th)
    case ResetCnt => (Wrote(m, th.op).(counter := 0, lost := m.lost + m.counter), th.(pc := ResetExp))
    case ResetExp => (Wrote(m, th.op).(expiration := 0), th.(pc := Idle))
  }

  predicate AtRest(pc: Pc) { pc.Idle? || pc.Answered? }

  /** A thread begins an operation only when it is not inside one. */
  function Step(ttl: nat, s: State, act: Act): State {
    match act
    case Tick(ms) => s.(mem := s.mem.(now := s.mem.now + ms))
    case Begin(t, kind) =>
      if t in s.threads && !AtRest(s.threads[t].pc) then s
      else State(s.mem.(opWrites := s.mem.opWrites + [0]),
                 s.threads[t := Thread(Entry(kind), |s.mem.opWrites|, s.mem.writes, s.mem.writes, 0)])
    case Move(t) =>
      if t in s.threads then
        var (m, th) := Advance(ttl, s.mem, s.threads[t]);
        State(m, s.threads[t := th])
      else s
  }

  function Run(ttl: nat, s: State, acts: seq<Act>): State {
    if acts == [] then s else Step(ttl, Run(ttl, s, acts[..|acts| - 1]), acts[|acts| - 1])
  }

  // ----- conservation of the counter

  /** What the counter holds and what was overwritten is what was locked and not unlocked. */
  predicate Counted(m: Shared) {
    0 <= m.counter && 0 <= m.lost && m.counter + m.lost == m.locks - m.unlocks
  }

  /** A swap of `unlock` only ever expects a positive value. */
  predicate SwapsPositive(th: Thread) { th.pc.UnlockCas? ==> th.pc.cnt > 0 }

  ghost predicate CountInv(s: State) {
    Counted(s.mem) && forall t :: t in s.threads ==> SwapsPositive(s.threads[t])
  }

  lemma StepCounts(ttl: nat, s: State, act: Act)
    requires CountInv(s)
    ensures CountInv(Step(ttl, s, act))
  {
  }

  /** On every interleaving the counter is never negative and never exceeds the locks not yet
      unlocked; the difference is exactly what expired locks and resets overwrote. */
  lemma {:induction false} CounterConserved(ttl: nat, now: nat, acts: seq<Act>)
    ensures var m := Run(ttl, Initial(now), acts).mem;
            0 <= m.counter <= m.locks - m.unlocks && m.counter == m.locks - m.unlocks - m.lost
    ensures CountInv(Run(ttl, Initial(now), acts))
    decreases |acts|
  {
    if acts != [] {
      CounterConserved(ttl, now, acts[..|acts| - 1]);
      StepCounts(ttl, Run(ttl, Initial(now), acts[..|acts| - 1]), acts[|acts| - 1]);
    }
  }

  /** The step stores 1 after an expiry, or is the counter store of a reset. */
  predicate Overwrites(s: State, act: Act) {
    act.Move? && act.t in s.threads && (s.threads[act.t].pc.LockStoreOne? || s.threads[act.t].pc.ResetCnt?)
  }

  predicate NoOverwrite(ttl: nat, s: State, acts: seq<Act>) {
    acts == [] ||
    (NoOverwrite(ttl, s, acts[..|acts| - 1]) && !Overwrites(Run(ttl, s, acts[..|acts| - 1]), acts[|acts| - 1]))
  }

  /** Over any stretch without an overwrite the counter moves exactly with the locks and unlocks. */
  lemma {:induction false} SegmentExact(ttl: nat, s: State, acts: seq<Act>)
    requires NoOverwrite(ttl, s, acts)
    ensures var m := Run(ttl, s, acts).mem;
            m.counter - s.mem.counter == (m.locks - s.mem.locks) - (m.unlocks - s.mem.unlocks)
    decreases |acts|
  {
    if acts != [] { SegmentExact(ttl, s, acts[..|acts| - 1]); }
  }

  /** The step overwrites a counter that still holds locks. */
  predicate Loses(s: State, act: Act) { Overwrites(s, act) && s.mem.counter > 0 }

  predicate NoLoss(ttl: nat, s: State, acts: seq<Act>) {
    acts == [] || (NoLoss(ttl, s, acts[..|acts| - 1]) && !Loses(Run(ttl, s, acts[..|acts| - 1]), acts[|acts| - 1]))
  }

  lemma StepLoss(ttl: nat, s: State, act: Act)
    requires CountInv(s)
    ensures Step(ttl, s, act).mem.lost == s.mem.lost + if Loses(s, act) then s.mem.counter else 0
  {
  }

  /** On every interleaving the counter is exactly locks minus unlocks if and only if no step stored 1
      after an expiry, or reset, while the counter was positive. */
  lemma {:induction false} NothingLostIff(ttl: nat, now: nat, acts: seq<Act>)
    ensures var m := Run(ttl, Initial(now), acts).mem;
            && (m.counter == m.locks - m.unlocks <==> NoLoss(ttl, Initial(now), acts))
            && (m.lost == 0 <==> NoLoss(ttl, Initial(now), acts))
    decreases |acts|
  {
    CounterConserved(ttl, now, acts);
    if acts != [] {
      var pre := acts[..|acts| - 1];
      NothingLostIff(ttl, now, pre);
      CounterConserved(ttl, now, pre);
      StepLoss(ttl, Run(ttl, Initial(now), pre), acts[|acts| - 1]);
    }
  }

  // ----- every operation that returns has done its counter step

  /** The step lets a thread begin an operation of this kind. */
  predicate Begins(s: State, act: Act, kind: Kind) {
    act.Begin? && act.kind == kind && !(act.t in s.threads && !AtRest(s.threads[act.t].pc))
  }

  /** The number of operations of a kind that were begun. */
  function Begun(ttl: nat, s: State, acts: seq<Act>, kind: Kind): nat {
    if acts == [] then 0
    else
      var pre, act := acts[..|acts| - 1], acts[|acts| - 1];
      Begun(ttl, s, pre, kind) + One(Begins(Run(ttl, s, pre), act, kind))
  }

  /** The step is the load of an `unlock` that finds the counter at zero or below. */
  predicate FindsEmpty(s: State, act: Act) {
    act.Move? && act.t in s.threads && s.threads[act.t].pc.UnlockLoad? && s.mem.counter <= 0
  }

  function Emptied(ttl: nat, s: State, acts: seq<Act>): nat {
    if acts == [] then 0
    else
      var pre, act := acts[..|acts| - 1], acts[|acts| - 1];
      Emptied(ttl, s, pre) + One(FindsEmpty(Run(ttl, s, pre), act))
  }

  /** Inside `lock`, before its counter step. */
  predicate Locking(pc: Pc) {
    pc.LockClock? || pc.LockLoadExp? || pc.LockLoadCnt? || pc.LockCasExp? || pc.LockStoreOne? || pc.LockCasCnt?
  }

  /** Inside `unlock`. */
  predicate Unlocking(pc: Pc) { pc.UnlockLoad? || pc.UnlockCas? }

  ghost function Lockers(threads: map<nat, Thread>): set<nat> { set t | t in threads && Locking(threads[t].pc) }

  ghost function Unlockers(threads: map<nat, Thread>): set<nat> { set t | t in threads && Unlocking(threads[t].pc) }

  function One(b: bool): nat { if b then 1 else 0 }

  lemma SizeWithout(a: set<nat>, t: nat)
    ensures |a| == |a - {t}| + One(t in a)
  {
    if t !in a { assert a - {t} == a; }
  }

  lemma SameButOne(a: set<nat>, b: set<nat>, t: nat)
    requires forall u :: u != t ==> (u in a <==> u in b)
    ensures |b| + One(t in a) == |a| + One(t in b)
  {
    SizeWithout(a, t);
    SizeWithout(b, t);
    assert a - {t} == b - {t};
  }

  lemma LockersChange(threads: map<nat, Thread>, t: nat, th: Thread)
    ensures |Lockers(threads[t := th])| + One(t in threads && Locking(threads[t].pc)) == |Lockers(threads)| + One(Locking(th.pc))
  {
    SameButOne(Lockers(threads), Lockers(threads[t := th]), t);
  }

  lemma UnlockersChange(threads: map<nat, Thread>, t: nat, th: Thread)
    ensures |Unlockers(threads[t := th])| + One(t in threads && Unlocking(threads[t].pc)) == |Unlockers(threads)| + One(Unlocking(th.pc))
  {
    SameButOne(Unlockers(threads), Unlockers(threads[t := th]), t);
  }

  lemma AdvanceCounts(ttl: nat, m: Shared, th: Thread)
    ensures var (m', th') := Advance(ttl, m, th);
            && m'.locks + One(Locking(th'.pc)) == m.locks + One(Locking(th.pc))
            && m'.unlocks + One(Unlocking(th'.pc)) + One(th.pc.UnlockLoad? && m.counter <= 0) == m.unlocks + One(Unlocking(th.pc))
  {
  }

  lemma StepCountsAll(ttl: nat, s: State, act: Act)
    ensures var s' := Step(ttl, s, act);
            && s'.mem.locks + |Lockers(s'.threads)| == s.mem.locks + |Lockers(s.threads)| + One(Begins(s, act, Lock))
            && s'.mem.unlocks + |Unlockers(s'.threads)| + One(FindsEmpty(s, act))
               == s.mem.unlocks + |Unlockers(s.threads)| + One(Begins(s, act, Unlock))
  {
    var s' := Step(ttl, s, act);
    match act
    case Tick(_) =>
    case Begin(t, kind) =>
      if Begins(s, act, kind) {
        LockersChange(s.threads, t, s'.threads[t]);
        UnlockersChange(s.threads, t, s'.threads[t]);
      }
    case Move(t) =>
      if t in s.threads {
        AdvanceCounts(ttl, s.mem, s.threads[t]);
        LockersChange(s.threads, t, s'.threads[t]);
        UnlockersChange(s.threads, t, s'.threads[t]);
      }
  }

  /** On every interleaving every `lock` that was begun has taken its counter step or is still on its way
      to it, and every `unlock` has decremented, or found nothing to decrement, or is still inside. */
  lemma {:induction false} EveryOperationCounts(ttl: nat, now: nat, acts: seq<Act>)
    ensures var s := Run(ttl, Initial(now), acts);
            && s.mem.locks + |Lockers(s.threads)| == Begun(ttl, Initial(now), acts, Lock)
            && s.mem.unlocks + Emptied(ttl, Initial(now), acts) + |Unlockers(s.threads)| == Begun(ttl, Initial(now), acts, Unlock)
    decreases |acts|
  {
    if acts == [] {
      assert Lockers(map[]) == {} && Unlockers(map[]) == {};
    } else {
      var pre, act := acts[..|acts| - 1], acts[|acts| - 1];
      EveryOperationCounts(ttl, now, pre);
      StepCountsAll(ttl, Run(ttl, Initial(now), pre), act);
    }
  }

  /** When every thread is at rest, every `lock` begun took exactly one counter step. */
  lemma AtRestAllCounted(ttl: nat, now: nat, acts: seq<Act>)
    requires var s := Run(ttl, Initial(now), acts); forall t :: t in s.threads ==> AtRest(s.threads[t].pc)
    ensures var m := Run(ttl, Initial(now), acts).mem;
            && m.locks == Begun(ttl, Initial(now), acts, Lock)
            && m.unlocks + Emptied(ttl, Initial(now), acts) == Begun(ttl, Initial(now), acts, Unlock)
  {
    EveryOperationCounts(ttl, now, acts);
    var s := Run(ttl, Initial(now), acts);
    assert Lockers(s.threads) == {} && Unlockers(s.threads) == {};
  }

  /** What a thread's present operation has done: its kind, its counter steps, its loads of an empty
      counter, and the clock it read. */
  datatype Record = Record(kind: Kind, locks: int, unlocks: int, empty: nat, clock: int)

  function Recorded(ttl: nat, s: State, acts: seq<Act>, t: nat): Record {
    if acts == [] then Record(Reset, 0, 0, 0, 0)
    else
      var pre, act := acts[..|acts| - 1], acts[|acts| - 1];
      var u, r := Run(ttl, s, pre), Recorded(ttl, s, pre, t);
      var u' := Step(ttl, u, act);
      if act.Begin? && act.t == t && Begins(u, act, act.kind) then Record(act.kind, 0, 0, 0, 0)
      else if act.Move? && act.t == t && t in u.threads then
        Record(r.kind, r.locks + u'.mem.locks - u.mem.locks, r.unlocks + u'.mem.unlocks - u.mem.unlocks,
               if FindsEmpty(u, act) then r.empty + 1 else r.empty,
               if u.threads[t].pc == LockClock || u.threads[t].pc == AskClock then u.mem.now else r.clock)
      else r
  }

  /** What the record says at each place of an operation. */
  predicate Fits(pc: Pc, r: Record) {
    match r.kind
    case Lock =>
      && r.unlocks == 0 && r.empty == 0
      && (Locking(pc) || pc.LockStoreExp? || pc.Idle?) && r.locks == (if Locking(pc) then 0 else 1)
      && (pc.LockLoadExp? || pc.LockLoadCnt? || pc.LockCasExp? || pc.LockCasCnt? || pc.LockStoreExp? ==> pc.cur == r.clock)
    case Unlock =>
      && r.locks == 0 && (Unlocking(pc) || pc.Idle?)
      && r.unlocks + r.empty == (if Unlocking(pc) then 0 else 1) && 0 <= r.unlocks
    case IsLocked =>
      && r.locks == 0 && r.unlocks == 0 && r.empty == 0
      && (pc.AskClock? || pc.AskLoadExp? || pc.AskLoadCnt? || pc.Answered?) && (!pc.AskClock? ==> pc.cur == r.clock)
    case Reset =>
      r.locks == 0 && r.unlocks == 0 && r.empty == 0 && (pc.ResetCnt? || pc.ResetExp? || pc.Idle?)
  }

  /** On every interleaving, a thread at rest after a `lock` has taken exactly one counter step in it; after
      an `unlock` it has decremented once or found the counter empty once; and it kept the one clock reading
      of its operation throughout. */
  lemma {:induction false} ReturnedOperation(ttl: nat, now: nat, acts: seq<Act>, t: nat)
    requires t in Run(ttl, Initial(now), acts).threads
    ensures Fits(Run(ttl, Initial(now), acts).threads[t].pc, Recorded(ttl, Initial(now), acts, t))
    decreases |acts|
  {
    var pre, act := acts[..|acts| - 1], acts[|acts| - 1];
    var s := Run(ttl, Initial(now), pre);
    if t in s.threads {
      ReturnedOperation(ttl, now, pre, t);
      if act.Move? && act.t == t {
        MoveFits(ttl, s, t, Recorded(ttl, Initial(now), pre, t), Recorded(ttl, Initial(now), acts, t));
      }
    }
  }

  /** What a step may do to the shared memory: a query nothing, an `unlock` only to the counter, by one; a
      `lock` puts the lease its own clock reading gives and counts once; a `reset` puts zeros. */
  predicate MayDo(ttl: nat, m: Shared, pc: Pc, r: Record, m': Shared) {
    && m'.now == m.now
    && match r.kind
       case Lock =>
         && (m'.expiration == m.expiration || m'.expiration == r.clock + ttl)
         && m'.counter == (if m'.locks == m.locks then m.counter else if pc.LockStoreOne? then 1 else m.counter + 1)
       case Unlock => m'.expiration == m.expiration && m'.counter == m.counter - (m'.unlocks - m.unlocks)
       case IsLocked => m' == m
       case Reset => (m'.counter == m.counter || m'.counter == 0) && (m'.expiration == m.expiration || m'.expiration == 0)
  }

  lemma AdvanceMayDo(ttl: nat, m: Shared, th: Thread, r: Record)
    requires Fits(th.pc, r)
    ensures MayDo(ttl, m, th.pc, r, Advance(ttl, m, th).0)
  {
  }

  /** On every interleaving a step changes no more than its operation may. */
  lemma StepOfOperation(ttl: nat, now: nat, acts: seq<Act>, t: nat, s: State, r: Record)
    requires s == Run(ttl, Initial(now), acts) && r == Recorded(ttl, Initial(now), acts, t) && t in s.threads
    ensures MayDo(ttl, s.mem, s.threads[t].pc, r, Step(ttl, s, Move(t)).mem)
  {
    ReturnedOperation(ttl, now, acts, t);
    MoveMayDo(ttl, s, t, r);
  }

  lemma MoveMayDo(ttl: nat, s: State, t: nat, r: Record)
    requires t in s.threads && Fits(s.threads[t].pc, r)
    ensures MayDo(ttl, s.mem, s.threads[t].pc, r, Step(ttl, s, Move(t)).mem)
  {
    AdvanceMayDo(ttl, s.mem, s.threads[t], r);
  }

  lemma MoveFits(ttl: nat, s: State, t: nat, r: Record, r': Record)
    requires t in s.threads && Fits(s.threads[t].pc, r)
    requires var s' := Step(ttl, s, Move(t));
             r' == Record(r.kind, r.locks + s'.mem.locks - s.mem.locks, r.unlocks + s'.mem.unlocks - s.mem.unlocks,
                          if FindsEmpty(s, Move(t)) then r.empty + 1 else r.empty,
                          if s.threads[t].pc == LockClock || s.threads[t].pc == AskClock then s.mem.now else r.clock)
    ensures Fits(Step(ttl, s, Move(t)).threads[t].pc, r')
  {
  }

  // ----- the lease

  predicate InLock(pc: Pc) {
    pc.LockClock? || pc.LockLoadExp? || pc.LockLoadCnt? || pc.LockCasExp? || pc.LockStoreOne? || pc.LockCasCnt? || pc.LockStoreExp?
  }

  /** Clock readings are not from the future, and loaded lease ends not beyond `bound`. */
  predicate Timely(th: Thread, now: int, bound: int) {
    match th.pc
    case LockLoadExp(cur) => cur <= now
    case LockLoadCnt(cur, _) => cur <= now
    case LockCasExp(cur, _) => cur <= now
    case LockCasCnt(cur, _) => cur <= now
    case LockStoreExp(cur) => cur <= now
    case AskLoadCnt(_, exp) => exp <= bound
    case _ => true
  }

  ghost predicate LeaseInv(ttl: nat, s: State) {
    && 0 <= s.mem.now && s.mem.expiration <= s.mem.now + ttl
    && forall t :: t in s.threads ==> Timely(s.threads[t], s.mem.now, s.mem.now + ttl)
  }

  lemma StepLease(ttl: nat, s: State, act: Act)
    requires LeaseInv(ttl, s)
    ensures LeaseInv(ttl, Step(ttl, s, act))
  {
  }

  /** In every reachable state the lease ends at most `ttl` after the present. */
  lemma {:induction false} LeaseBound(ttl: nat, now: nat, acts: seq<Act>)
    ensures LeaseInv(ttl, Run(ttl, Initial(now), acts))
    decreases |acts|
  {
    if acts != [] {
      LeaseBound(ttl, now, acts[..|acts| - 1]);
      StepLease(ttl, Run(ttl, Initial(now), acts[..|acts| - 1]), acts[|acts| - 1]);
    }
  }

  /** A thread about to swap the lease end has read a clock not before the end it expects. */
  ghost predicate SwapsExpired(s: State) {
    forall t :: t in s.threads && s.threads[t].pc.LockCasExp? ==> s.threads[t].pc.exp <= s.threads[t].pc.cur
  }

  lemma {:induction false} RunSwapsExpired(ttl: nat, s: State, acts: seq<Act>)
    requires SwapsExpired(s)
    ensures SwapsExpired(Run(ttl, s, acts))
    decreases |acts|
  {
    if acts != [] { RunSwapsExpired(ttl, s, acts[..|acts| - 1]); }
  }

  /** The step stores a lease end computed from a clock reading older than the one behind the present
      lease, or resets a lease. */
  predicate StoresOlder(ttl: nat, s: State, act: Act) {
    act.Move? && act.t in s.threads &&
    match s.threads[act.t].pc
    case LockStoreExp(cur) => cur + ttl < s.mem.expiration
    case ResetExp => 0 < s.mem.expiration
    case _ => false
  }

  /** On every interleaving the lease moves backwards in exactly these steps. */
  lemma LeaseMovesBackIff(ttl: nat, now: nat, acts: seq<Act>, act: Act)
    ensures var s := Run(ttl, Initial(now), acts);
            Step(ttl, s, act).mem.expiration < s.mem.expiration <==> StoresOlder(ttl, s, act)
  {
    RunSwapsExpired(ttl, Initial(now), acts);
  }

  /** No thread is inside `lock`, and no lease end anyone holds lies beyond `bound`. */
  ghost predicate Quiet(s: State, bound: int) {
    && 0 <= bound && s.mem.expiration <= bound
    && forall t :: t in s.threads ==> !InLock(s.threads[t].pc) && Timely(s.threads[t], s.mem.now, bound)
  }

  predicate NoLockBegins(acts: seq<Act>) {
    acts == [] || (NoLockBegins(acts[..|acts| - 1]) && !(acts[|acts| - 1].Begin? && acts[|acts| - 1].kind == Lock))
  }

  lemma StepQuiet(ttl: nat, s: State, act: Act, bound: int)
    requires Quiet(s, bound) && (act.Begin? ==> act.kind != Lock)
    ensures Quiet(Step(ttl, s, act), bound)
  {
  }

  lemma {:induction false} RunQuiet(ttl: nat, s: State, acts: seq<Act>, bound: int)
    requires Quiet(s, bound) && NoLockBegins(acts)
    ensures Quiet(Run(ttl, s, acts), bound)
    decreases |acts|
  {
    if acts != [] {
      RunQuiet(ttl, s, acts[..|acts| - 1], bound);
      StepQuiet(ttl, Run(ttl, s, acts[..|acts| - 1]), acts[|acts| - 1], bound);
    }
  }

  /** Once no thread is inside `lock` and none enters it, every answer whose clock was read `ttl`
      later or more is "not locked", however stale the values it combines. */
  lemma LeaseExpires(ttl: nat, now: nat, before: seq<Act>, after: seq<Act>, t: nat)
    requires var s := Run(ttl, Initial(now), before);
             && (forall u :: u in s.threads ==> !InLock(s.threads[u].pc))
             && NoLockBegins(after)
             && t in Run(ttl, s, after).threads && Run(ttl, s, after).threads[t].pc.AskLoadCnt?
             && Run(ttl, s, after).threads[t].pc.cur >= s.mem.now + ttl
    ensures var u := Run(ttl, Run(ttl, Initial(now), before), after);
            Step(ttl, u, Move(t)).threads[t].pc == Answered(u.threads[t].pc.cur, false)
  {
    var s := Run(ttl, Initial(now), before);
    LeaseBound(ttl, now, before);
    RunQuiet(ttl, s, after, s.mem.now + ttl);
  }

  // ----- progress: failed swaps are paid for by other operations' writes

  lemma {:induction false} TotalBump(xs: seq<nat>, i: nat)
    requires i < |xs|
    ensures Total(xs[i := xs[i] + 1]) == Total(xs) + 1
  {
    var n := |xs| - 1;
    var ys := xs[i := xs[i] + 1];
    if i == n {
      assert ys[..n] == xs[..n];
    } else {
      TotalBump(xs[..n], i);
      assert ys[..n] == xs[..n][i := xs[i] + 1];
    }
  }

  lemma TotalSnoc(xs: seq<nat>, x: nat)
    ensures Total(xs + [x]) == Total(xs) + x
  {
    assert (xs + [x])[..|xs|] == xs;
  }

  /** With at most two each, all but one together have at most two per other entry. */
  lemma {:induction false} TotalOfOthers(xs: seq<nat>, i: nat)
    requires forall k :: 0 <= k < |xs| ==> xs[k] <= 2
    ensures Total(xs) <= 2 * |xs| && (i < |xs| ==> Total(xs) - xs[i] <= 2 * (|xs| - 1))
  {
    if xs != [] { TotalOfOthers(xs[..|xs| - 1], i); }
  }

  /** The thread is in a loop that retries until a swap succeeds. */
  predicate InLoop(pc: Pc) {
    pc.LockClock? || pc.LockLoadExp? || pc.LockLoadCnt? || pc.LockCasExp? || pc.LockCasCnt? || pc.UnlockLoad? || pc.UnlockCas?
  }

  /** A swap that would fail now was preceded by a write since the thread's loads. */
  predicate Paid(m: Shared, th: Thread) {
    && (th.pc.LockLoadCnt? || th.pc.LockCasExp? ==> th.pc.exp != m.expiration ==> th.mark < m.writes)
    && (th.pc.LockCasCnt? || th.pc.UnlockCas? ==> th.pc.cnt != m.counter ==> th.mark < m.writes)
  }

  /** How many writes an operation has done at a place inside it. */
  predicate WritesFit(pc: Pc, w: nat) {
    if InLoop(pc) || pc.AskClock? || pc.AskLoadExp? || pc.AskLoadCnt? || pc.ResetCnt? then w == 0
    else if pc.LockStoreOne? || pc.LockStoreExp? || pc.ResetExp? then w == 1
    else w <= 2
  }

  predicate ThreadPaid(m: Shared, th: Thread) {
    && th.op < |m.opWrites| && WritesFit(th.pc, m.opWrites[th.op]) && Paid(m, th)
    && th.begun + th.retries + m.opWrites[th.op] <= m.writes
    && (th.pc.LockLoadCnt? || th.pc.LockCasExp? || th.pc.LockCasCnt? || th.pc.UnlockCas? ==>
          th.begun + th.retries <= th.mark <= m.writes)
  }

  ghost predicate ProgressInv(s: State) {
    && Total(s.mem.opWrites) == s.mem.writes
    && (forall i :: 0 <= i < |s.mem.opWrites| ==> s.mem.opWrites[i] <= 2)
    && (forall t :: t in s.threads ==> ThreadPaid(s.mem, s.threads[t]))
    && (forall t, u :: t in s.threads && u in s.threads && t != u ==> s.threads[t].op != s.threads[u].op)
  }

  lemma TotalWrote(m: Shared, op: nat)
    requires op < |m.opWrites| && Total(m.opWrites) == m.writes
    ensures var m' := Wrote(m, op);
            && Total(m'.opWrites) == m'.writes == m.writes + 1 && |m'.opWrites| == |m.opWrites|
            && m'.opWrites[op] == m.opWrites[op] + 1
            && (forall i :: 0 <= i < |m.opWrites| && i != op ==> m'.opWrites[i] == m.opWrites[i])
  {
    TotalBump(m.opWrites, op);
  }

  /** What the mover's own step keeps. */
  ghost predicate OwnStep(m: Shared, th: Thread, m': Shared, th': Thread) {
    && th.op < |m.opWrites| == |m'.opWrites| && th'.op == th.op
    && ThreadPaid(m', th') && Total(m'.opWrites) == m'.writes && m'.opWrites[th.op] <= 2
    && (forall i :: 0 <= i < |m.opWrites| && i != th.op ==> m'.opWrites[i] == m.opWrites[i])
    && (m'.writes == m.writes ==> m'.counter == m.counter && m'.expiration == m.expiration)
    && m.writes <= m'.writes
  }

  lemma AdvanceReads(ttl: nat, m: Shared, th: Thread)
    requires ThreadPaid(m, th) && Total(m.opWrites) == m.writes && Advance(ttl, m, th).0 == m
    ensures OwnStep(m, th, m, Advance(ttl, m, th).1)
  {
  }

  lemma AdvanceWrites(ttl: nat, m: Shared, th: Thread)
    requires ThreadPaid(m, th) && Total(m.opWrites) == m.writes && Advance(ttl, m, th).0 != m
    ensures OwnStep(m, th, Advance(ttl, m, th).0, Advance(ttl, m, th).1)
  {
    TotalWrote(m, th.op);
  }

  lemma AdvanceOwn(ttl: nat, m: Shared, th: Thread)
    requires ThreadPaid(m, th) && Total(m.opWrites) == m.writes
    ensures OwnStep(m, th, Advance(ttl, m, th).0, Advance(ttl, m, th).1)
  {
    if Advance(ttl, m, th).0 == m { AdvanceReads(ttl, m, th); } else { AdvanceWrites(ttl, m, th); }
  }

  /** What it means for the others. */
  lemma AdvanceOther(m: Shared, m': Shared, th: Thread)
    requires ThreadPaid(m, th) && |m.opWrites| <= |m'.opWrites| && m'.opWrites[th.op] == m.opWrites[th.op]
    requires m.writes <= m'.writes && (m'.writes == m.writes ==> m'.counter == m.counter && m'.expiration == m.expiration)
    ensures ThreadPaid(m', th)
  {
  }

  lemma MoveProgress(ttl: nat, s: State, t: nat)
    requires ProgressInv(s) && t in s.threads
    ensures ProgressInv(Step(ttl, s, Move(t)))
  {
    var (m, th) := Advance(ttl, s.mem, s.threads[t]);
    AdvanceOwn(ttl, s.mem, s.threads[t]);
    forall u | u in s.threads && u != t ensures ThreadPaid(m, s.threads[u]) {
      AdvanceOther(s.mem, m, s.threads[u]);
    }
  }

  lemma BegunPaid(m: Shared, kind: Kind, op: nat)
    requires op < |m.opWrites| && m.opWrites[op] == 0
    ensures ThreadPaid(m, Thread(Entry(kind), op, m.writes, m.writes, 0))
  {
  }

  lemma BeginProgress(ttl: nat, s: State, t: nat, kind: Kind)
    requires ProgressInv(s)
    ensures ProgressInv(Step(ttl, s, Begin(t, kind)))
  {
    var m := s.mem.(opWrites := s.mem.opWrites + [0]);
    TotalSnoc(s.mem.opWrites, 0);
    forall u | u in s.threads ensures ThreadPaid(m, s.threads[u]) && s.threads[u].op < |s.mem.opWrites| {
      AdvanceOther(s.mem, m, s.threads[u]);
    }
    BegunPaid(m, kind, |s.mem.opWrites|);
  }

  lemma {:induction false} RunProgress(ttl: nat, now: nat, acts: seq<Act>)
    ensures ProgressInv(Run(ttl, Initial(now), acts))
    decreases |acts|
  {
    if acts != [] {
      var pre, act := acts[..|acts| - 1], acts[|acts| - 1];
      RunProgress(ttl, now, pre);
      match act
      case Tick(_) =>
      case Begin(t, kind) => BeginProgress(ttl, Run(ttl, Initial(now), pre), t, kind);
      case Move(t) => if t in Run(ttl, Initial(now), pre).threads { MoveProgress(ttl, Run(ttl, Initial(now), pre), t); }
    }
  }

  /** On every interleaving of N operations, every operation fails at most 2 (N - 1) swaps. */
  lemma RetriesBounded(ttl: nat, now: nat, acts: seq<Act>, t: nat)
    requires t in Run(ttl, Initial(now), acts).threads
    ensures var s := Run(ttl, Initial(now), acts);
            s.threads[t].retries <= 2 * (|s.mem.opWrites| - 1)
  {
    var s := Run(ttl, Initial(now), acts);
    RunProgress(ttl, now, acts);
    assert ThreadPaid(s.mem, s.threads[t]);
    TotalOfOthers(s.mem.opWrites, s.threads[t].op);
  }

  /** A swap fails only when another operation wrote between this thread's loads and the swap. */
  lemma FailedSwapIsPaid(ttl: nat, now: nat, acts: seq<Act>, t: nat)
    requires var s := Run(ttl, Initial(now), acts);
             t in s.threads && Step(ttl, s, Move(t)).threads[t].retries > s.threads[t].retries
    ensures var s := Run(ttl, Initial(now), acts);
            && s.threads[t].mark < s.mem.writes
            && s.threads[t].op < |s.mem.opWrites| && s.mem.opWrites[s.threads[t].op] == 0
  {
    RunProgress(ttl, now, acts);
    var s := Run(ttl, Initial(now), acts);
    assert ThreadPaid(s.mem, s.threads[t]);
  }

  // ----- one operation at a time

  function Solo(ttl: nat, m: Shared, th: Thread, k: nat): (Shared, Thread)
    decreases k
  {
    if k == 0 then (m, th) else var (m', th') := Advance(ttl, m, th); Solo(ttl, m', th', k - 1)
  }

  /** A `lock` that no other thread interrupts: the counter becomes 1 after an expiry and grows by 1
      otherwise, and the lease is renewed from the clock it read. */
  lemma SoloLock(ttl: nat, m: Shared, th: Thread)
    requires th.pc == LockClock
    ensures var (m', th') := Solo(ttl, m, th, 5);
            && th'.pc == Idle && m'.expiration == m.now + ttl
            && m'.counter == if m.now >= m.expiration then 1 else m.counter + 1
  {
    var (m1, t1) := Advance(ttl, m, th);
    var (m2, t2) := Advance(ttl, m1, t1);
    var (m3, t3) := Advance(ttl, m2, t2);
    var (m4, t4) := Advance(ttl, m3, t3);
    var (m5, t5) := Advance(ttl, m4, t4);
    assert Solo(ttl, m5, t5, 0) == (m5, t5);
    assert Solo(ttl, m4, t4, 1) == (m5, t5);
    assert Solo(ttl, m3, t3, 2) == (m5, t5);
    assert Solo(ttl, m2, t2, 3) == (m5, t5);
    assert Solo(ttl, m1, t1, 4) == (m5, t5);
  }

  lemma SoloUnlock(ttl: nat, m: Shared, th: Thread)
    requires th.pc == UnlockLoad && 0 <= m.counter
    ensures var (m', th') := Solo(ttl, m, th, 2);
            th'.pc == Idle && m'.expiration == m.expiration && m'.counter == if m.counter == 0 then 0 else m.counter - 1
  {
    var (m1, t1) := Advance(ttl, m, th);
    var (m2, t2) := Advance(ttl, m1, t1);
    assert Solo(ttl, m2, t2, 0) == (m2, t2);
    assert Solo(ttl, m1, t1, 1) == (m2, t2);
  }

  lemma SoloIsLocked(ttl: nat, m: Shared, th: Thread)
    requires th.pc == AskClock
    ensures Solo(ttl, m, th, 3) == (m, th.(pc := Answered(m.now, m.counter > 0 && m.now < m.expiration)))
  {
    var (m1, t1) := Advance(ttl, m, th);
    var (m2, t2) := Advance(ttl, m1, t1);
    var (m3, t3) := Advance(ttl, m2, t2);
    assert Solo(ttl, m3, t3, 0) == (m3, t3);
    assert Solo(ttl, m2, t2, 1) == (m3, t3);
    assert Solo(ttl, m1, t1, 2) == (m3, t3);
  }

  lemma SoloReset(ttl: nat, m: Shared, th: Thread)
    requires th.pc == ResetCnt
    ensures var (m', th') := Solo(ttl, m, th, 2); th'.pc == Idle && m'.counter == 0 && m'.expiration == 0
  {
    var (m1, t1) := Advance(ttl, m, th);
    var (m2, t2) := Advance(ttl, m1, t1);
    assert Solo(ttl, m2, t2, 0) == (m2, t2);
    assert Solo(ttl, m1, t1, 1) == (m2, t2);
  }

  // ----- two locks at an expiry can lose one

  lemma RunSnoc(ttl: nat, s: State, acts: seq<Act>, a: Act)
    ensures Run(ttl, s, acts + [a]) == Step(ttl, Run(ttl, s, acts), a)
  {
    assert (acts + [a])[..|acts|] == acts;
  }

  lemma {:induction false} RunAppend(ttl: nat, s: State, a: seq<Act>, b: seq<Act>)
    ensures Run(ttl, s, a + b) == Run(ttl, Run(ttl, s, a), b)
    decreases |b|
  {
    if b == [] {
      assert a + b == a;
    } else {
      var pre := b[..|b| - 1];
      RunAppend(ttl, s, a, pre);
      assert (a + b)[..|a + b| - 1] == a + pre && (a + b)[|a + b| - 1] == b[|b| - 1];
    }
  }

  /** The first thread has renewed the lease and not yet stored the counter; the second is about to
      lock. */
  function RenewedFirst(ttl: nat, now: nat): State {
    State(Shared(0, now + ttl, now, 0, 0, 0, 1, [1, 0]),
          map[0 := Thread(LockStoreOne, 0, 0, 0, 0), 1 := Thread(LockClock, 1, 0, 0, 0)])
  }

  lemma LeaseRenewedFirst(ttl: nat, now: nat) returns (acts: seq<Act>)
    ensures Run(ttl, Initial(now), acts) == RenewedFirst(ttl, now)
  {
    var s := Initial(now);
    acts := [];
    RunSnoc(ttl, s, acts, Begin(0, Lock));  acts := acts + [Begin(0, Lock)];
    RunSnoc(ttl, s, acts, Begin(1, Lock));  acts := acts + [Begin(1, Lock)];
    RunSnoc(ttl, s, acts, Move(0));  acts := acts + [Move(0)];
    RunSnoc(ttl, s, acts, Move(0));  acts := acts + [Move(0)];
    RunSnoc(ttl, s, acts, Move(0));  acts := acts + [Move(0)];
    assert Run(ttl, s, acts).threads[0].pc == LockCasExp(now, 0);
    RunSnoc(ttl, s, acts, Move(0));  acts := acts + [Move(0)];
  }

  lemma SecondOvertakes(ttl: nat, now: nat) returns (acts: seq<Act>)
    requires ttl > 0
    ensures var s := Run(ttl, RenewedFirst(ttl, now), acts);
            && s.threads.Keys == {0, 1} && s.threads[0].pc == Idle && s.threads[1].pc == Idle
            && |s.mem.opWrites| == 2 && s.mem.locks == 2 && s.mem.unlocks == 0
            && s.mem.counter == 1 && s.mem.now == now && s.mem.expiration == now + ttl
  {
    var s := RenewedFirst(ttl, now);
    acts := [];
    RunSnoc(ttl, s, acts, Move(1));  acts := acts + [Move(1)];
    RunSnoc(ttl, s, acts, Move(1));  acts := acts + [Move(1)];
    RunSnoc(ttl, s, acts, Move(1));  acts := acts + [Move(1)];
    assert Run(ttl, s, acts).threads[1].pc == LockCasCnt(now, 0);
    RunSnoc(ttl, s, acts, Move(1));  acts := acts + [Move(1)];
    RunSnoc(ttl, s, acts, Move(1));  acts := acts + [Move(1)];
    RunSnoc(ttl, s, acts, Move(0));  acts := acts + [Move(0)];
  }

  /** The two updates of `lock` are not one atomic step: a second `lock` that slips between the lease
      renewal and the counter store of the first is overwritten. Both return, nobody unlocks or
      resets, and the counter is 1. */
  lemma LockLostAtExpiry(ttl: nat, now: nat) returns (acts: seq<Act>)
    requires ttl > 0
    ensures var s := Run(ttl, Initial(now), acts);
            && s.threads.Keys == {0, 1} && s.threads[0].pc == Idle && s.threads[1].pc == Idle
            && |s.mem.opWrites| == 2 && s.mem.locks == 2 && s.mem.unlocks == 0
            && s.mem.counter == 1 && s.mem.now == now && s.mem.expiration == now + ttl
  {
    var a := LeaseRenewedFirst(ttl, now);
    var b := SecondOvertakes(ttl, now);
    RunAppend(ttl, Initial(now), a, b);
    acts := a + b;
  }

  // ----- a slow lock can move the lease backwards

  /** Thread 0 has locked once. */
  function LockedOnce(ttl: nat, now: nat): State {
    State(Shared(1, now + ttl, now, 1, 0, 0, 2, [2]), map[0 := Thread(Idle, 0, 0, 0, 0)])
  }

  /** Its second lock has counted itself and not yet stored the lease. */
  function AboutToStore(ttl: nat, now: nat): State {
    State(Shared(2, now + ttl, now, 2, 0, 0, 3, [2, 1]), map[0 := Thread(LockStoreExp(now), 1, 2, 2, 0)])
  }

  lemma FirstLock(ttl: nat, now: nat) returns (acts: seq<Act>)
    ensures Run(ttl, Initial(now), acts) == LockedOnce(ttl, now)
  {
    var s := Initial(now);
    acts := [];
    RunSnoc(ttl, s, acts, Begin(0, Lock));  acts := acts + [Begin(0, Lock)];
    RunSnoc(ttl, s, acts, Move(0));  acts := acts + [Move(0)];
    RunSnoc(ttl, s, acts, Move(0));  acts := acts + [Move(0)];
    RunSnoc(ttl, s, acts, Move(0));  acts := acts + [Move(0)];
    assert Run(ttl, s, acts).threads == map[0 := Thread(LockCasExp(now, 0), 0, 0, 0, 0)];
    RunSnoc(ttl, s, acts, Move(0));  acts := acts + [Move(0)];
    RunSnoc(ttl, s, acts, Move(0));  acts := acts + [Move(0)];
  }

  lemma SecondLock(ttl: nat, now: nat) returns (acts: seq<Act>)
    requires ttl > 0
    ensures Run(ttl, LockedOnce(ttl, now), acts) == AboutToStore(ttl, now)
  {
    var s := LockedOnce(ttl, now);
    acts := [];
    RunSnoc(ttl, s, acts, Begin(0, Lock));  acts := acts + [Begin(0, Lock)];
    RunSnoc(ttl, s, acts, Move(0));  acts := acts + [Move(0)];
    RunSnoc(ttl, s, acts, Move(0));  acts := acts + [Move(0)];
    RunSnoc(ttl, s, acts, Move(0));  acts := acts + [Move(0)];
    assert Run(ttl, s, acts).threads == map[0 := Thread(LockCasCnt(now, 1), 1, 2, 2, 0)];
    RunSnoc(ttl, s, acts, Move(0));  acts := acts + [Move(0)];
  }

  /** A later lock of thread 1 completes meanwhile. */
  lemma LaterLock(ttl: nat, now: nat) returns (acts: seq<Act>)
    requires ttl > 1
    ensures var s := Run(ttl, AboutToStore(ttl, now), acts);
            && s.mem.expiration == now + 1 + ttl && s.mem.now == now + 1
            && s.threads.Keys == {0, 1} && s.threads[0].pc == LockStoreExp(now) && s.threads[1].pc == Idle
  {
    var s := AboutToStore(ttl, now);
    acts := [];
    RunSnoc(ttl, s, acts, Tick(1));  acts := acts + [Tick(1)];
    RunSnoc(ttl, s, acts, Begin(1, Lock));  acts := acts + [Begin(1, Lock)];
    RunSnoc(ttl, s, acts, Move(1));  acts := acts + [Move(1)];
    RunSnoc(ttl, s, acts, Move(1));  acts := acts + [Move(1)];
    RunSnoc(ttl, s, acts, Move(1));  acts := acts + [Move(1)];
    assert Run(ttl, s, acts).mem == Shared(2, now + ttl, now + 1, 2, 0, 0, 3, [2, 1, 0]);
    assert Run(ttl, s, acts).threads
           == map[0 := Thread(LockStoreExp(now), 1, 2, 2, 0), 1 := Thread(LockCasCnt(now + 1, 2), 2, 3, 3, 0)];
    RunSnoc(ttl, s, acts, Move(1));  acts := acts + [Move(1)];
    RunSnoc(ttl, s, acts, Move(1));  acts := acts + [Move(1)];
  }

  /** A lock that read the clock first and stores last leaves the lease it read for, although another
      lock has completed since with a later one. */
  lemma LeaseMovedBack(ttl: nat, now: nat) returns (acts: seq<Act>)
    requires ttl > 1
    ensures var s := Run(ttl, Initial(now), acts);
            var s' := Step(ttl, s, Move(0));
            && s.mem.expiration == now + 1 + ttl && s'.mem.expiration == now + ttl && s'.mem.now == now + 1
            && s'.threads.Keys == {0, 1} && s'.threads[0].pc == Idle && s'.threads[1].pc == Idle
  {
    var s := Initial(now);
    var a := FirstLock(ttl, now);
    var b := SecondLock(ttl, now);
    var d := LaterLock(ttl, now);
    RunAppend(ttl, s, a, b);
    RunAppend(ttl, s, a + b, d);
    acts := a + b + d;
  }
}
