/** The background worker that pins memory chunk by chunk and commits it to the heap, interleaved in
    every possible way with allocations and releases. */
module LazyExpansion {
  import opened Basics
  import opened Alignment
  import opened FreeList
  import opened AddressSpace
  import HeapRuns

  /** Bytes pinned at a time, and bytes per commit. */
  const CHUNK := 0x400_0000
  const COMMIT := 0x4000_0000
  const PER_COMMIT := COMMIT / CHUNK

  /** Sizes rounded to whole chunks, and the alignment of the allocator. */
  datatype Config = Config(initial: int, final: int, align: int)

  predicate WholeChunks(n: int) { n >= 0 && n % CHUNK == 0 }

  ghost predicate Ok(c: Config) {
    WholeChunks(c.initial) && WholeChunks(c.final) && c.initial <= c.final && c.align > 0
  }

  /** The constructor rounds both sizes; it fails when the first pinning would exceed the buffer. */
  function Configure(initSize: nat, finalSize: nat, align: int): Option<Config> {
    var initial, final := AlignTo(initSize, CHUNK), AlignTo(finalSize, CHUNK);
    if initial <= final then Some(Config(initial, final, align)) else None
  }

  lemma ConfigureOk(initSize: nat, finalSize: nat, align: int)
    requires align > 0
    ensures Configure(initSize, finalSize, align).Some? ==>
              var c := Configure(initSize, finalSize, align).value;
              Ok(c) && c.align == align && initSize <= c.initial < initSize + CHUNK && finalSize <= c.final < finalSize + CHUNK
    ensures initSize <= finalSize ==> Configure(initSize, finalSize, align).Some?
  {
    ChunkIsPow2();
    AlignToBounds(initSize, CHUNK);
    AlignToBounds(finalSize, CHUNK);
    AlignToLeast(initSize, CHUNK);
    AlignToLeast(finalSize, CHUNK);
  }

  lemma ChunkIsPow2()
    ensures IsPow2(CHUNK) && CHUNK == Pow2(26) && COMMIT == Pow2(30)
  {
    assert Pow2(8) == 0x100 && Pow2(16) == 0x1_0000 && Pow2(24) == 0x100_0000;
    assert Pow2(26) == CHUNK && Pow2(28) == 4 * Pow2(26) && Pow2(30) == COMMIT;
  }

  // ----- the transition system

  datatype Pc = Check | Pin(i: nat) | Commit | Done

  datatype State = State(heap: Heap, pins: seq<Block>, curr: int, last: int, pc: Pc, stopped: bool)

  datatype Act = Work | Stop | Client(op: HeapRuns.Action)

  function Start(c: Config): State
    requires c.initial >= 0
  {
    State(HeapRuns.Fresh(c.initial), [Block(0, c.initial)], c.initial, c.initial, Check, false)
  }

  function WorkerStep(c: Config, s: State): State {
    match s.pc
    case Check => s.(pc := if s.curr < c.final && !s.stopped then Pin(0) else Done)
    case Pin(i) =>
      if i < PER_COMMIT && s.curr < c.final
      then s.(pins := s.pins + [Block(s.curr, CHUNK)], curr := s.curr + CHUNK, pc := Pin(i + 1))
      else s.(pc := Commit)
    case Commit => s.(heap := HeapRuns.Grown(s.heap, AlignTo(s.curr - s.last, c.align)), last := s.curr, pc := Check)
    case Done => s
  }

  ghost function Step(c: Config, s: State, act: Act): State {
    match act
    case Work => WorkerStep(c, s)
    case Stop => s.(stopped := true)
    case Client(op) => s.(heap := HeapRuns.Apply(s.heap, c.align, op))
  }

  /** Clients allocate, and give back bytes in use; only the worker grows the heap. */
  ghost predicate Enabled(s: State, act: Act) {
    act.Client? ==> !act.op.Sbrk? && HeapRuns.Enabled(s.heap, act.op)
  }

  ghost function Run(c: Config, acts: seq<Act>): State
    requires c.initial >= 0
  {
    if acts == [] then Start(c) else Step(c, Run(c, acts[..|acts| - 1]), acts[|acts| - 1])
  }

  ghost predicate Legal(c: Config, acts: seq<Act>)
    requires c.initial >= 0
  {
    acts == [] || (Legal(c, acts[..|acts| - 1]) && Enabled(Run(c, acts[..|acts| - 1]), acts[|acts| - 1]))
  }

  // ----- when the heap stays within the pinned memory

  /** Rounding leaves this size alone. */
  predicate Kept(e: int, align: int) { AlignTo(e, align) == e }

  /** Rounding leaves every commit of the worker alone: the whole ones, and the remainder at the end. */
  predicate Exact(c: Config) {
    var d := c.final - c.initial;
    Kept(d % COMMIT, c.align) && (d >= COMMIT ==> Kept(COMMIT, c.align))
  }

  /** For a power of two that is divisibility. */
  lemma ExactForPow2(c: Config)
    requires Ok(c) && IsPow2(c.align)
    ensures var d := c.final - c.initial;
            Exact(c) <==> d % COMMIT % c.align == 0 && (d >= COMMIT ==> COMMIT % c.align == 0)
  {
    KeptForPow2((c.final - c.initial) % COMMIT, c.align);
    KeptForPow2(COMMIT, c.align);
  }

  lemma KeptForPow2(e: int, align: int)
    requires align > 0 && IsPow2(align)
    ensures Kept(e, align) <==> e % align == 0
  {
    AlignToLeast(e, align);
    if e % align == 0 { AlignToMultiple(e, align); }
  }

  /** An alignment that divides the chunk size always qualifies. */
  lemma ChunkAlignmentIsExact(c: Config)
    requires Ok(c) && CHUNK % c.align == 0
    ensures Exact(c)
  {
    var d := c.final - c.initial;
    ChunkIsPow2();
    var k: nat :| CHUNK == Pow2(k);
    DivisorOfPow2(c.align, k);
    assert d % COMMIT % CHUNK == 0;
    MultipleOfMultiple(d % COMMIT, CHUNK, c.align);
    MultipleOfMultiple(COMMIT, CHUNK, c.align);
    ExactForPow2(c);
  }

  /** So does 3, which divides no commit: the mask form leaves multiples of four alone. */
  lemma AlignmentThreeIsExact(c: Config)
    requires Ok(c) && c.align == 3
    ensures Exact(c) && COMMIT % 3 != 0
  {
    KeptByThree((c.final - c.initial) % COMMIT);
    KeptByThree(COMMIT);
  }

  lemma KeptByThree(e: int)
    requires e % 4 == 0
    ensures Kept(e, 3)
  {
    AndUnfold(e, 2);
    AndUnfold(e / 2, 1);
    assert And(e / 4, 0) == 0;
    AlignToFixed(e, 3);
  }

  /** The pin records cover [0, end) piece by piece, without gap or overlap. */
  predicate Tiled(pins: seq<Block>, end: int) {
    if pins == [] then end == 0
    else pins[|pins| - 1].size >= 0 && pins[|pins| - 1].End() == end && Tiled(pins[..|pins| - 1], pins[|pins| - 1].start)
  }

  ghost predicate Inv(c: Config, s: State) {
    && Sound(s.heap) && s.heap.size == s.last && Tiled(s.pins, s.curr)
    && c.initial <= s.last <= s.curr <= c.final && WholeChunks(s.curr)
    && (s.last == c.final || (s.last - c.initial) % COMMIT == 0)
    && match s.pc
       case Check => s.last == s.curr
       case Pin(i) => i <= PER_COMMIT && s.curr == s.last + i * CHUNK && s.last < c.final
       case Commit => s.last < s.curr <= s.last + COMMIT && (s.curr == s.last + COMMIT || s.curr == c.final)
       case Done => s.last == s.curr && (s.stopped || s.curr == c.final)
  }

  /** A commit is whole, or it is the remainder. */
  lemma CommitSize(d: int, done: int, e: int)
    requires 0 <= done && 0 < e <= COMMIT && done + e <= d && (e == COMMIT || done + e == d) && done % COMMIT == 0
    ensures (e == COMMIT && d >= COMMIT) || e == d % COMMIT
  {
    if e < COMMIT {
      ModUnique(d, COMMIT, done / COMMIT, e);
    }
  }

  lemma NextCommit(done: int)
    ensures done % COMMIT == 0 ==> (done + COMMIT) % COMMIT == 0
  {
  }

  /** Growing the heap by a commit in progress adds exactly what was pinned for it. */
  lemma CommitIsWhole(c: Config, s: State)
    requires Ok(c) && Exact(c) && Inv(c, s) && s.pc.Commit?
    ensures AlignTo(s.curr - s.last, c.align) == s.curr - s.last
    ensures s.curr == c.final || (s.curr - c.initial) % COMMIT == 0
  {
    var e := s.curr - s.last;
    CommitSize(c.final - c.initial, s.last - c.initial, e);
    assert Kept(e, c.align);
    NextCommit(s.last - c.initial);
  }

  lemma ClientKeepsInv(c: Config, s: State, op: HeapRuns.Action)
    requires Ok(c) && Inv(c, s) && Enabled(s, Client(op))
    ensures Inv(c, Step(c, s, Client(op)))
  {
    HeapRuns.ApplySound(s.heap, c.align, op);
  }

  lemma PinKeepsTiled(pins: seq<Block>, end: int, b: Block)
    requires Tiled(pins, end) && b.start == end && b.size >= 0
    ensures Tiled(pins + [b], b.End())
  {
    assert (pins + [b])[..|pins|] == pins;
  }

  lemma CommitKeepsInv(c: Config, s: State)
    requires Ok(c) && Exact(c) && Inv(c, s) && s.pc.Commit?
    ensures Inv(c, WorkerStep(c, s))
  {
    CommitIsWhole(c, s);
    HeapRuns.GrownSound(s.heap, s.curr - s.last);
  }

  lemma PinKeepsInv(c: Config, s: State)
    requires Ok(c) && Inv(c, s) && s.pc.Pin?
    ensures Inv(c, WorkerStep(c, s))
  {
    PinKeepsTiled(s.pins, s.curr, Block(s.curr, CHUNK));
  }

  lemma WorkKeepsInv(c: Config, s: State)
    requires Ok(c) && Exact(c) && Inv(c, s)
    ensures Inv(c, WorkerStep(c, s))
  {
    match s.pc
    case Check =>
    case Pin(_) => PinKeepsInv(c, s);
    case Commit => CommitKeepsInv(c, s);
    case Done =>
  }

  lemma StartInv(c: Config)
    requires Ok(c)
    ensures Inv(c, Start(c))
  {
    InitSound(c.initial);
    assert Tiled([], 0) && [Block(0, c.initial)][..0] == [];
  }

  lemma StepKeepsInv(c: Config, s: State, act: Act)
    requires Ok(c) && Exact(c) && Inv(c, s) && Enabled(s, act)
    ensures Inv(c, Step(c, s, act))
  {
    match act
    case Work => WorkKeepsInv(c, s);
    case Stop =>
    case Client(op) => ClientKeepsInv(c, s, op);
  }

  lemma {:induction false} RunKeepsInv(c: Config, acts: seq<Act>)
    requires Ok(c) && Exact(c) && Legal(c, acts)
    ensures Inv(c, Run(c, acts))
    decreases |acts|
  {
    if acts == [] {
      StartInv(c);
    } else {
      RunKeepsInv(c, acts[..|acts| - 1]);
      StepKeepsInv(c, Run(c, acts[..|acts| - 1]), acts[|acts| - 1]);
    }
  }

  /** On every interleaving: the pin records tile the pinned memory, the heap lies inside it, every
      byte in use is pinned, and a worker that is done has committed everything it pinned, which is
      the whole buffer unless it was told to stop. */
  lemma AllocationsArePinned(c: Config, acts: seq<Act>)
    requires Ok(c) && Exact(c) && Legal(c, acts)
    ensures var s := Run(c, acts);
            && Tiled(s.pins, s.curr) && s.heap.size <= s.curr <= c.final
            && s.heap.used <= Range(0, s.curr)
            && (s.pc.Done? ==> s.heap.size == s.curr && (!s.stopped ==> s.curr == c.final))
  {
    RunKeepsInv(c, acts);
    SoundIsInv(Run(c, acts).heap);
  }

  // ----- the worker terminates

  predicate Bounded(c: Config, s: State) {
    WholeChunks(s.curr) && s.curr <= c.final && (s.pc == Pin(0) ==> s.curr < c.final)
  }

  /** An upper bound on the number of steps the worker still takes. */
  function Rank(c: Config, s: State): nat
    requires Bounded(c, s)
  {
    var left := (c.final - s.curr) / CHUNK;
    match s.pc
    case Check => 4 * left + 1
    case Pin(i) => if i == 0 then 4 * left else 4 * left + 3
    case Commit => 4 * left + 2
    case Done => 0
  }

  lemma WorkDescends(c: Config, s: State)
    requires Ok(c) && Bounded(c, s)
    ensures Bounded(c, WorkerStep(c, s))
    ensures !s.pc.Done? ==> Rank(c, WorkerStep(c, s)) < Rank(c, s)
  {
    if s.curr < c.final { OneChunkLess(c.final, s.curr); }
  }

  lemma OneChunkLess(final: int, curr: int)
    requires WholeChunks(final) && WholeChunks(curr) && curr < final
    ensures WholeChunks(curr + CHUNK) && curr + CHUNK <= final
    ensures (final - curr) / CHUNK == (final - (curr + CHUNK)) / CHUNK + 1
  {
  }

  lemma StepDescends(c: Config, s: State, act: Act, s': State)
    requires Ok(c) && Bounded(c, s) && s' == Step(c, s, act)
    ensures Bounded(c, s') && (if act.Work? && !s.pc.Done? then 1 else 0) + Rank(c, s') <= Rank(c, s)
  {
    match act
    case Work => WorkDescends(c, s);
    case Stop =>
    case Client(_) =>
  }

  /** Steps the worker takes during a run before it is done. */
  ghost function Busy(c: Config, acts: seq<Act>): nat
    requires c.initial >= 0
  {
    if acts == [] then 0
    else
      var pre := acts[..|acts| - 1];
      Busy(c, pre) + if acts[|acts| - 1].Work? && !Run(c, pre).pc.Done? then 1 else 0
  }

  /** On every interleaving the worker is done after at most four steps per missing chunk. */
  lemma {:induction false} WorkerTerminates(c: Config, acts: seq<Act>)
    requires Ok(c)
    ensures Bounded(c, Run(c, acts))
    ensures Busy(c, acts) + Rank(c, Run(c, acts)) <= 4 * ((c.final - c.initial) / CHUNK) + 1
    decreases |acts|
  {
    if acts != [] {
      var pre, act := acts[..|acts| - 1], acts[|acts| - 1];
      WorkerTerminates(c, pre);
      StepDescends(c, Run(c, pre), act, Run(c, acts));
    }
  }

  // ----- stopping the worker

  ghost function Continue(c: Config, s: State, acts: seq<Act>): State {
    if acts == [] then s else Step(c, Continue(c, s, acts[..|acts| - 1]), acts[|acts| - 1])
  }

  ghost predicate LegalFrom(c: Config, s: State, acts: seq<Act>) {
    acts == [] ||
    (LegalFrom(c, s, acts[..|acts| - 1]) && Enabled(Continue(c, s, acts[..|acts| - 1]), acts[|acts| - 1]))
  }

  /** Steps of the worker among the actions. */
  function WorkSteps(acts: seq<Act>): nat {
    if acts == [] then 0 else WorkSteps(acts[..|acts| - 1]) + if acts[|acts| - 1].Work? then 1 else 0
  }

  /** The chunks a worker may still pin in its round. */
  function ChunksLeft(pc: Pc): int {
    match pc
    case Pin(i) => PER_COMMIT - i
    case _ => 0
  }

  /** How many steps a stopped worker still takes. */
  function StepsLeft(pc: Pc): int {
    match pc
    case Check => 1
    case Pin(i) => PER_COMMIT - i + 3
    case Commit => 2
    case Done => 0
  }

  /** Not inside a round. */
  predicate Resting(pc: Pc) { pc.Check? || pc.Done? }

  /** How `s'` follows from `s` once the worker was told to stop in `s`: outside a round nothing changes
      any more; inside one, the round is finished and committed. */
  ghost predicate Winds(c: Config, s: State, s': State) {
    && s'.stopped && s.pins <= s'.pins && 0 <= StepsLeft(s'.pc)
    && (if Resting(s.pc) then
          Resting(s'.pc) && s'.curr == s.curr && s'.last == s.last && s'.pins == s.pins && s'.heap.size == s.heap.size
        else
          && s.curr <= s'.curr && s'.curr + ChunksLeft(s'.pc) * CHUNK <= s.curr + ChunksLeft(s.pc) * CHUNK
          && 0 <= ChunksLeft(s'.pc)
          && (s'.curr + ChunksLeft(s'.pc) * CHUNK == s.curr + ChunksLeft(s.pc) * CHUNK || c.final <= s'.curr)
          && (if Resting(s'.pc)
              then s'.last == s'.curr && s'.heap.size == s.heap.size + AlignTo(s'.curr - s.last, c.align)
              else s'.last == s.last && s'.heap.size == s.heap.size))
  }

  lemma WindsStep(c: Config, s: State, s': State, act: Act)
    requires Winds(c, s, s') && Enabled(s', act)
    ensures Winds(c, s, Step(c, s', act))
    ensures StepsLeft(Step(c, s', act).pc) <= (if act.Work? && StepsLeft(s'.pc) > 0 then StepsLeft(s'.pc) - 1 else StepsLeft(s'.pc))
  {
  }

  lemma {:induction false} WindsDown(c: Config, s: State, acts: seq<Act>)
    requires s.stopped && (s.pc.Pin? ==> s.pc.i <= PER_COMMIT) && (Resting(s.pc) ==> s.last == s.curr) && LegalFrom(c, s, acts)
    ensures Winds(c, s, Continue(c, s, acts))
    ensures StepsLeft(Continue(c, s, acts).pc) + WorkSteps(acts) <= StepsLeft(s.pc) || StepsLeft(Continue(c, s, acts).pc) == 0
    decreases |acts|
  {
    if acts != [] {
      WindsDown(c, s, acts[..|acts| - 1]);
      WindsStep(c, s, Continue(c, s, acts[..|acts| - 1]), acts[|acts| - 1]);
    }
  }

  /** Where the worker stands in every reachable state. */
  predicate Placed(s: State) {
    && (s.pc.Pin? ==> s.pc.i <= PER_COMMIT && s.curr == s.last + s.pc.i * CHUNK)
    && (s.pc.Commit? ==> s.curr <= s.last + COMMIT)
    && (Resting(s.pc) ==> s.last == s.curr)
  }

  lemma {:induction false} RunPlaced(c: Config, acts: seq<Act>)
    requires c.initial >= 0
    ensures Placed(Run(c, acts))
    decreases |acts|
  {
    if acts != [] { RunPlaced(c, acts[..|acts| - 1]); }
  }

  lemma {:induction false} RunContinues(c: Config, a: seq<Act>, b: seq<Act>)
    requires c.initial >= 0
    ensures Run(c, a + b) == Continue(c, Run(c, a), b)
    ensures Legal(c, a + b) ==> LegalFrom(c, Run(c, a), b)
    decreases |b|
  {
    if b == [] {
      assert a + b == a;
    } else {
      var pre := b[..|b| - 1];
      RunContinues(c, a, pre);
      assert (a + b)[..|a + b| - 1] == a + pre && (a + b)[|a + b| - 1] == b[|b| - 1];
    }
  }

  /** What a stop request in `s` means for a later state: a worker between two rounds never pins or commits
      again; a worker inside a round pins exactly the rest of that round, up to the end of the buffer, and
      commits it; and it is done after at most PER_COMMIT + 3 of its own steps. */
  ghost predicate StoppedWell(c: Config, s: State, s': State, workSteps: nat) {
    && (Resting(s.pc) ==> s'.curr == s.curr && s'.pins == s.pins && s'.heap.size == s.heap.size)
    && (!Resting(s.pc) ==> s.curr <= s'.curr <= s.curr + ChunksLeft(s.pc) * CHUNK <= s.last + COMMIT)
    && (!Resting(s.pc) && Resting(s'.pc) ==>
          && s'.last == s'.curr && s'.heap.size == s.heap.size + AlignTo(s'.curr - s.last, c.align)
          && (s'.curr == s.curr + ChunksLeft(s.pc) * CHUNK || c.final <= s'.curr))
    && (workSteps >= PER_COMMIT + 3 ==> s'.pc == Done)
  }

  lemma WindsWell(c: Config, s: State, s0: State, s': State, workSteps: nat)
    requires Placed(s) && s0 == s.(stopped := true) && Winds(c, s0, s')
    requires StepsLeft(s'.pc) + workSteps <= StepsLeft(s.pc) || StepsLeft(s'.pc) == 0
    ensures StoppedWell(c, s, s', workSteps)
  {
  }

  lemma StopTakesEffect(c: Config, before: seq<Act>, after: seq<Act>)
    requires Ok(c) && Legal(c, before + [Stop] + after)
    ensures StoppedWell(c, Run(c, before), Run(c, before + [Stop] + after), WorkSteps(after))
  {
    var s, s0 := Run(c, before), Run(c, before + [Stop]);
    RunPlaced(c, before);
    assert (before + [Stop])[..|before|] == before;
    RunContinues(c, before + [Stop], after);
    WindsDown(c, s0, after);
    WindsWell(c, s, s0, Continue(c, s0, after), WorkSteps(after));
  }

  // ----- an alignment that does not divide the commits lets the heap outgrow the pinned memory

  function Works(c: Config, s: State, k: nat): State {
    if k == 0 then s else WorkerStep(c, Works(c, s, k - 1))
  }

  lemma {:induction false} WorksAdd(c: Config, s: State, j: nat, k: nat)
    ensures Works(c, s, j + k) == Works(c, Works(c, s, j), k)
    decreases k
  {
    if k > 0 {
      WorksAdd(c, s, j, k - 1);
      assert Works(c, s, j + k) == WorkerStep(c, Works(c, s, j + (k - 1)));
    }
  }

  /** `s` between two rounds of a worker that was not stopped. */
  predicate Between(s: State, size: int, curr: int) {
    s.pc == Check && !s.stopped && s.heap.size == size && s.curr == s.last == curr
  }

  lemma {:induction false} PinPhase(c: Config, s: State, m: nat)
    requires s.pc == Pin(0) && m <= PER_COMMIT && s.curr + m * CHUNK <= c.final
    ensures var t := Works(c, s, m);
            t.pc == Pin(m) && t.curr == s.curr + m * CHUNK && t.heap == s.heap && t.last == s.last && t.stopped == s.stopped
    decreases m
  {
    if m > 0 { PinPhase(c, s, m - 1); }
  }

  lemma Round(c: Config, s: State, e: int, grown: int) returns (k: nat, s': State)
    requires Ok(c) && Between(s, s.heap.size, s.curr) && s.curr < c.final && WholeChunks(s.curr)
    requires e == (if c.final - s.curr < COMMIT then c.final - s.curr else COMMIT) && grown == AlignTo(e, c.align)
    ensures s' == Works(c, s, k) && Between(s', s.heap.size + grown, s.curr + e)
  {
    var m := e / CHUNK;
    var s1 := WorkerStep(c, s);
    var s2 := Works(c, s1, m);
    PinPhase(c, s1, m);
    FinishRound(c, s2, m, e);
    RoundSteps(c, s, m);
    k := m + 3;
    s' := Works(c, s, k);
  }

  lemma FinishRound(c: Config, s: State, m: nat, e: int)
    requires s.pc == Pin(m) && s.curr == s.last + e && (m == PER_COMMIT || s.curr == c.final) && !s.stopped
    ensures Between(WorkerStep(c, WorkerStep(c, s)), s.heap.size + AlignTo(e, c.align), s.curr)
  {
    assert WorkerStep(c, s) == s.(pc := Commit);
  }

  lemma RoundSteps(c: Config, s: State, m: nat)
    ensures Works(c, s, m + 3) == WorkerStep(c, WorkerStep(c, Works(c, WorkerStep(c, s), m)))
  {
    assert Works(c, s, 1) == WorkerStep(c, Works(c, s, 0));
    WorksAdd(c, s, 1, m);
    assert Works(c, s, m + 2) == WorkerStep(c, Works(c, s, 1 + m));
  }

  /** `Exact` for a worker that still has `d` bytes to go, commit by commit. */
  predicate ExactFrom(d: nat, align: int) {
    if d < COMMIT then Kept(d, align) else Kept(COMMIT, align) && ExactFrom(d - COMMIT, align)
  }

  lemma {:induction false} ExactIsFrom(d: nat, align: int)
    ensures ExactFrom(d, align) <==> Kept(d % COMMIT, align) && (d >= COMMIT ==> Kept(COMMIT, align))
  {
    Remainder(d);
    if d >= COMMIT {
      ExactIsFrom(d - COMMIT, align);
    }
  }

  lemma Remainder(d: nat)
    ensures d % COMMIT == if d < COMMIT then d else (d - COMMIT) % COMMIT
  {
  }

  lemma NotKept(e: nat, align: int)
    requires align > 0 && !Kept(e, align)
    ensures e > 0 && AlignTo(e, align) > e
  {
    AndNotSelf(align - 1);
    AlignToBounds(e, align);
  }

  /** If some commit on the way is rounded up, it is the next one, or the next one is a whole commit. */
  lemma NextRound(d: nat, align: int) returns (again: bool, e: nat, grown: int)
    requires align > 0 && !ExactFrom(d, align)
    ensures d > 0 && e == (if d < COMMIT then d else COMMIT) && grown == AlignTo(e, align)
    ensures if again then e == grown == COMMIT && !ExactFrom(d - COMMIT, align) else grown > e
  {
    e := if d < COMMIT then d else COMMIT;
    grown := AlignTo(e, align);
    again := d >= COMMIT && Kept(COMMIT, align);
    if !again { NotKept(e, align); }
  }

  lemma OneCommitMore(curr: int)
    requires WholeChunks(curr)
    ensures WholeChunks(curr + COMMIT)
  {
  }

  /** Between two rounds, with a commit that is rounded up still to come. */
  predicate Uneven(c: Config, s: State) {
    c.align > 0 && Between(s, s.curr, s.curr) && s.curr <= c.final && WholeChunks(s.curr) && !ExactFrom(c.final - s.curr, c.align)
  }

  lemma RoundOrOvershoot(c: Config, s: State) returns (k: nat, s': State, again: bool)
    requires Ok(c) && Uneven(c, s)
    ensures s' == Works(c, s, k)
    ensures if again then Uneven(c, s') && s'.curr == s.curr + COMMIT else s'.heap.size > s'.curr
  {
    var e, grown;
    again, e, grown := NextRound(c.final - s.curr, c.align);
    k, s' := Round(c, s, e, grown);
    OneCommitMore(s.curr);
  }

  lemma {:induction false} Overshoot(c: Config, s: State) returns (k: nat)
    requires Ok(c) && Uneven(c, s)
    ensures Works(c, s, k).heap.size > Works(c, s, k).curr
    decreases c.final - s.curr
  {
    var m, s', again := RoundOrOvershoot(c, s);
    k := m;
    if again {
      var j := Overshoot(c, s');
      WorksAdd(c, s, m, j);
      k := m + j;
    }
  }

  ghost function Only(k: nat): seq<Act> { seq(k, i => Work) }

  lemma {:induction false} RunWorks(c: Config, k: nat)
    requires c.initial >= 0
    ensures Legal(c, Only(k)) && Run(c, Only(k)) == Works(c, Start(c), k)
  {
    if k > 0 {
      RunWorks(c, k - 1);
      assert Only(k)[..k - 1] == Only(k - 1) && Only(k)[k - 1] == Work;
    }
  }

  /** The heap stays inside the pinned memory on every interleaving exactly when rounding leaves every
      commit alone. */
  lemma PinnedIffExact(c: Config)
    requires Ok(c)
    ensures (forall acts :: Legal(c, acts) ==> Run(c, acts).heap.size <= Run(c, acts).curr) <==> Exact(c)
  {
    if Exact(c) {
      forall acts | Legal(c, acts) ensures Run(c, acts).heap.size <= Run(c, acts).curr { AllocationsArePinned(c, acts); }
    } else {
      ExactIsFrom(c.final - c.initial, c.align);
      var k := Overshoot(c, Start(c));
      RunWorks(c, k);
      assert Legal(c, Only(k)) && Run(c, Only(k)).heap.size > Run(c, Only(k)).curr;
    }
  }

  /** One chunk still to pin and an alignment of two chunks: the worker commits twice what it pinned. */
  lemma WideAlignmentOvershoots() returns (c: Config, acts: seq<Act>)
    ensures Ok(c) && c.align == 2 * CHUNK && c.final - c.initial == CHUNK && !Exact(c)
    ensures Legal(c, acts) && Run(c, acts).heap.size > Run(c, acts).curr
  {
    c := Config(CHUNK, 2 * CHUNK, 2 * CHUNK);
    ChunkIsPow2();
    var k: nat :| CHUNK == Pow2(k);
    assert 2 * CHUNK == Pow2(k + 1);
    ExactForPow2(c);
    ExactIsFrom(c.final - c.initial, c.align);
    var n := Overshoot(c, Start(c));
    RunWorks(c, n);
    acts := Only(n);
  }
}
