/**
 The batching logger as a transition system (logger/batch.go:103-210): any
 number of client goroutines, the ticker goroutine and the shutdown share the
 mutex and the backing array; the mutex is free while a batch is written.

 Arrays live in `mem`: `mem[0]` is the backing array of the buffer and each cut
 allocates the next one, so a batch is only as safe as its array is.
 */
module BatchProtocol {
  import opened Options
  import opened BatchSections

  /** The goroutine started by the constructor; every other number is a client. */
  const PROCESSOR: nat := 0

  datatype Op = Add(entry: Entry) | Flush | TickFlush | StopFlush

  /** A goroutine's program point. `Appending`, `Flushing` and `Unlocking` hold the lock. */
  datatype Pc =
    | Idle
    | Locking(op: Op)
    | Appending(op: Op)
    | Flushing(op: Op)
    | Writing(op: Op, ref: nat, k: nat)
    | Relocking(op: Op)
    | Unlocking(op: Op)
    | Done

  function At(pcs: map<nat, Pc>, t: nat): Pc {
    if t in pcs then pcs[t] else Idle
  }

  function Put(pcs: map<nat, Pc>, t: nat, pc: Pc): (pcs': map<nat, Pc>)
    ensures forall u: nat {:trigger At(pcs', u)} :: At(pcs', u) == if u == t then pc else At(pcs, u)
  {
    pcs[t := pc]
  }

  /** One line given to the underlying logger, tagged with the batch it came from. */
  datatype Written = Written(batch: nat, line: Line)

  datatype State = State(
    mem: seq<seq<Entry>>, len: nat, flushSize: int, stats: Stats,
    lock: Option<nat>, pcs: map<nat, Pc>, stopped: bool,
    // history
    capacity: nat, accepted: seq<Entry>, batches: seq<seq<Entry>>,
    writer: seq<nat>, progress: seq<nat>, log: seq<Written>)
  {
    predicate Sane() {
      |mem| > 0 && len <= |mem[0]|
    }

    function TheCore(): (c: Core)
      requires Sane()
      ensures c.Sane()
    {
      Core(mem[0], len, flushSize, stats)
    }

    function WithCore(c: Core): (s: State)
      requires Sane() && c.Sane()
      ensures s.Sane() && s.TheCore() == c.(flushSize := flushSize)
    {
      this.(mem := mem[0 := c.cells], len := c.len, stats := c.stats)
    }

    function Buffered(): seq<Entry>
      requires Sane()
    {
      mem[0][..len]
    }

    function Pc(t: nat): Pc {
      At(pcs, t)
    }

    function Goto(t: nat, pc: Pc): State {
      this.(pcs := Put(pcs, t, pc))
    }
  }

  function Init(config: Config): (s: State)
    ensures s.Sane()
  {
    var c := Defaulted(config);
    State([seq(c.bufferSize, _ => Entry(Debug, "", [], 0))], 0, c.flushSize, Stats(0, 0, 0, 0, 0.0),
          None, map[], false,
          c.bufferSize, [], [], [], [], [])
  }

  /** A goroutine starts an operation, a goroutine takes its next step, or `Close` closes the channel. */
  datatype Step = Call(t: nat, op: Op) | Advance(t: nat) | CloseCall

  predicate MayCall(s: State, t: nat, op: Op) {
    && s.Pc(t) == Idle
    && if t == PROCESSOR then op == TickFlush || (op == StopFlush && s.stopped)
       else op.Add? || op == Flush
  }

  function AppendStep(s: State, t: nat, e: Entry): (s': State)
    requires s.Sane()
    ensures s'.Sane()
  {
    var c := s.TheCore();
    var c' := Append(c, e);
    var s1 := s.WithCore(c');
    if Full(c) then
      s1.Goto(t, Unlocking(Add(e)))
    else
      s1.(accepted := s.accepted + [e])
      .Goto(t, if ReachedFlushSize(c') then Flushing(Add(e)) else Unlocking(Add(e)))
  }

  /** Allocates the batch, truncates the buffer and releases the lock. */
  function CutStep(s: State, t: nat, op: Op): (s': State)
    requires s.Sane()
    ensures s'.Sane()
  {
    var batch := s.Buffered();
    var s1 := s.WithCore(Cut(s.TheCore()));
    s1.(mem := s1.mem + [batch], lock := None,
        batches := s.batches + [batch], writer := s.writer + [t], progress := s.progress + [0])
    .Goto(t, Writing(op, |s1.mem|, 0))
  }

  /** Reads one entry of the batch array and logs it; past the end, goes back for the lock. */
  function WriteStep(s: State, t: nat, op: Op, ref: nat, k: nat): (s': State)
    requires s.Sane()
    ensures s'.Sane()
  {
    if 0 < ref < |s.mem| && k < |s.mem[ref]| then
      var s1 := s.(log := s.log + [Written(ref - 1, LineOf(s.mem[ref][k]))]);
      (if ref - 1 < |s.progress| then s1.(progress := s.progress[ref - 1 := k + 1]) else s1)
      .Goto(t, Writing(op, ref, k + 1))
    else
      s.Goto(t, Relocking(op))
  }

  function AdvanceStep(s: State, t: nat): (s': State)
    requires s.Sane()
    ensures s'.Sane()
  {
    match s.Pc(t)
    case Idle => s
    case Done => s
    case Locking(op) =>
      if s.lock.Some? then s
      else s.(lock := Some(t)).Goto(t, if op.Add? then Appending(op) else Flushing(op))
    case Appending(op) =>
      if op.Add? then AppendStep(s, t, op.entry) else s
    case Flushing(op) =>
      if s.len == 0 then s.Goto(t, Unlocking(op)) else CutStep(s, t, op)
    case Writing(op, ref, k) => WriteStep(s, t, op, ref, k)
    case Relocking(op) =>
      if s.lock.Some? then s else s.(lock := Some(t)).Goto(t, Unlocking(op))
    case Unlocking(op) =>
      s.(lock := None).Goto(t, if op == StopFlush then Done else Idle)
  }

  /** One step; a step that is not possible leaves the state as it is. */
  function Next(s: State, step: Step): (s': State)
    requires s.Sane()
    ensures s'.Sane()
  {
    match step
    case Call(t, op) => if MayCall(s, t, op) then s.Goto(t, Locking(op)) else s
    case Advance(t) => AdvanceStep(s, t)
    case CloseCall => s.(stopped := true)
  }

  function Exec(s: State, steps: seq<Step>): (s': State)
    requires s.Sane()
    ensures s'.Sane()
  {
    if steps == [] then s else Next(Exec(s, steps[..|steps| - 1]), steps[|steps| - 1])
  }

  function Flatten<T>(ss: seq<seq<T>>): seq<T> {
    if ss == [] then [] else Flatten(ss[..|ss| - 1]) + ss[|ss| - 1]
  }

  /** The lines of one batch, in the order in which they reached the log. */
  function Project(log: seq<Written>, b: nat): seq<Line> {
    if log == [] then []
    else Project(log[..|log| - 1], b)
         + if log[|log| - 1].batch == b then [log[|log| - 1].line] else []
  }

  function LogLines(log: seq<Written>): (ls: seq<Line>)
    ensures |ls| == |log| && forall i :: 0 <= i < |log| ==> ls[i] == log[i].line
  {
    seq(|log|, i requires 0 <= i < |log| => log[i].line)
  }

  /** The lines of the cut batches that have not been written yet. */
  function Unwritten(batches: seq<seq<Entry>>, progress: seq<nat>): multiset<Line>
    requires |batches| == |progress|
    requires forall b :: 0 <= b < |batches| ==> progress[b] <= |batches[b]|
  {
    if batches == [] then multiset{}
    else
      var n := |batches| - 1;
      Unwritten(batches[..n], progress[..n]) + multiset(Lines(batches[n][progress[n]..]))
  }

  function Min(a: int, b: int): int {
    if a <= b then a else b
  }

  // The invariant, in parts.

  predicate InSection(pc: Pc) {
    pc.Appending? || pc.Flushing? || pc.Unlocking?
  }

  predicate Role(t: nat, pc: Pc, stopped: bool) {
    && (pc.Appending? ==> pc.op.Add?)
    && (pc.Done? ==> t == PROCESSOR && stopped)
    && (!pc.Idle? && !pc.Done? ==>
          if t == PROCESSOR then pc.op == TickFlush || (pc.op == StopFlush && stopped)
          else pc.op.Add? || pc.op == Flush)
  }

  /** Mutual exclusion: the lock's owner is exactly the goroutine inside the section. */
  ghost predicate Exclusion(s: State) {
    OnlyOwnerInside(s.pcs, s.lock) && RolesKept(s.pcs, s.stopped)
  }

  ghost predicate OnlyOwnerInside(pcs: map<nat, Pc>, lock: Option<nat>) {
    forall t: nat {:trigger At(pcs, t)} :: lock == Some(t) <==> InSection(At(pcs, t))
  }

  ghost predicate RolesKept(pcs: map<nat, Pc>, stopped: bool) {
    forall t: nat {:trigger At(pcs, t)} :: Role(t, At(pcs, t), stopped)
  }

  ghost predicate Memory(s: State) {
    && |s.mem| == |s.batches| + 1
    && s.Sane()
    && |s.mem[0]| == s.capacity
    && (forall b :: 0 <= b < |s.batches| ==> s.mem[b + 1] == s.batches[b])
    && s.flushSize >= 1 && s.capacity >= 1
  }

  /** Who writes which batch, and how far it has got. */
  ghost predicate Writers(s: State) {
    WritersOf(s.pcs, s.writer, s.progress, s.batches)
  }

  ghost predicate WritersOf(pcs: map<nat, Pc>, writer: seq<nat>, progress: seq<nat>, batches: seq<seq<Entry>>) {
    && |writer| == |progress| == |batches|
    && (forall b :: 0 <= b < |batches| ==> progress[b] <= |batches[b]|)
    && (forall b :: 0 <= b < |batches| && progress[b] < |batches[b]| ==>
          WritingRef(At(pcs, writer[b])) == b + 1)
    && (forall t: nat {:trigger At(pcs, t)} :: At(pcs, t).Writing? ==> IsWriter(t, At(pcs, t), writer, progress))
  }

  function WritingRef(pc: Pc): nat {
    if pc.Writing? then pc.ref else 0
  }

  predicate IsWriter(t: nat, pc: Pc, writer: seq<nat>, progress: seq<nat>)
    requires pc.Writing? && |writer| == |progress|
  {
    1 <= pc.ref <= |writer| && writer[pc.ref - 1] == t && progress[pc.ref - 1] == pc.k
  }

  /** The log is a shuffle of batch prefixes, each batch in its own order. */
  ghost predicate Shuffle(s: State) {
    ShuffleOf(s.log, s.progress, s.batches)
  }

  ghost predicate ShuffleOf(log: seq<Written>, progress: seq<nat>, batches: seq<seq<Entry>>) {
    && |progress| == |batches|
    && (forall i :: 0 <= i < |log| ==> log[i].batch < |batches|)
    && (forall b :: 0 <= b < |batches| ==> progress[b] <= |batches[b]| && PrefixLogged(log, b, batches[b][..progress[b]]))
  }

  ghost predicate PrefixLogged(log: seq<Written>, b: nat, prefix: seq<Entry>) {
    Project(log, b) == Lines(prefix)
  }

  ghost predicate InOrder(s: State) {
    s.Sane() && s.accepted == Flatten(s.batches) + s.Buffered()
  }

  ghost predicate Counted(s: State) {
    && s.stats.total == |s.accepted|
    && s.stats.batched == |Flatten(s.batches)|
    && s.stats.flushes == |s.batches|
    && (s.stats.flushes > 0 ==> s.stats.average == s.stats.batched as real / s.stats.flushes as real)
    && (s.flushSize <= s.capacity ==> s.stats.dropped == 0)
  }

  ghost predicate Bounded(s: State) {
    && (forall b :: 0 <= b < |s.batches| ==> 1 <= |s.batches[b]| <= Min(s.flushSize, s.capacity))
    && s.len <= s.capacity
    && (s.len < s.flushSize
        || (s.len == s.flushSize && s.lock.Some? && At(s.pcs, s.lock.value).Flushing?))
  }

  ghost predicate Inv(s: State) {
    Memory(s) && Exclusion(s) && Writers(s) && Shuffle(s) && InOrder(s) && Counted(s) && Bounded(s)
  }

  lemma InitInv(config: Config)
    ensures Inv(Init(config))
  {
  }

  lemma FlattenSnoc<T>(ss: seq<seq<T>>, x: seq<T>)
    ensures Flatten(ss + [x]) == Flatten(ss) + x
  {
    assert (ss + [x])[..|ss|] == ss;
  }

  lemma ProjectSnoc(log: seq<Written>, w: Written, b: nat)
    ensures Project(log + [w], b) == Project(log, b) + if w.batch == b then [w.line] else []
  {
    assert (log + [w])[..|log|] == log;
  }

  /** A batch without log lines projects to nothing. */
  lemma {:induction false} ProjectNone(log: seq<Written>, b: nat)
    requires forall i :: 0 <= i < |log| ==> log[i].batch != b
    ensures Project(log, b) == []
  {
    if log != [] {
      ProjectNone(log[..|log| - 1], b);
    }
  }

  lemma AdvanceKeepsOwner(s: State, t: nat)
    requires s.Sane() && Exclusion(s)
    ensures OnlyOwnerInside(AdvanceStep(s, t).pcs, AdvanceStep(s, t).lock)
  {
    assert s.lock == Some(t) <==> InSection(At(s.pcs, t));
  }

  lemma AdvanceKeepsRoles(s: State, t: nat)
    requires s.Sane() && Exclusion(s)
    ensures RolesKept(AdvanceStep(s, t).pcs, AdvanceStep(s, t).stopped)
  {
    assert Role(t, At(s.pcs, t), s.stopped);
  }

  lemma NextKeepsExclusion(s: State, step: Step)
    requires s.Sane() && Exclusion(s)
    ensures Exclusion(Next(s, step))
  {
    if step.Advance? {
      AdvanceKeepsOwner(s, step.t);
      AdvanceKeepsRoles(s, step.t);
    }
  }

  lemma AppendKeepsMemory(s: State, t: nat, e: Entry)
    requires Memory(s)
    ensures Memory(AppendStep(s, t, e))
  {
  }

  lemma AppendKeepsWriters(s: State, t: nat, e: Entry)
    requires s.Sane() && Writers(s) && At(s.pcs, t) == Appending(Add(e))
    ensures Writers(AppendStep(s, t, e))
  {
  }

  lemma AppendKeepsHistory(s: State, t: nat, e: Entry)
    requires Memory(s) && Shuffle(s) && InOrder(s) && Counted(s) && Bounded(s)
    requires At(s.pcs, t) == Appending(Add(e)) && s.lock == Some(t)
    ensures Shuffle(AppendStep(s, t, e)) && InOrder(AppendStep(s, t, e))
    ensures Counted(AppendStep(s, t, e)) && Bounded(AppendStep(s, t, e))
  {
    var s' := AppendStep(s, t, e);
    AppendExtendsBuffer(s.TheCore(), e);
    if !Full(s.TheCore()) {
      assert s'.accepted == Flatten(s.batches) + s'.Buffered();
    }
  }

  lemma CutKeepsMemory(s: State, t: nat, op: Op)
    requires Memory(s)
    ensures Memory(CutStep(s, t, op))
  {
  }

  lemma CutKeepsWriters(s: State, t: nat, op: Op)
    requires Memory(s) && Writers(s) && At(s.pcs, t) == Flushing(op)
    ensures Writers(CutStep(s, t, op))
  {
  }

  lemma CutKeepsHistory(s: State, t: nat, op: Op)
    requires Memory(s) && Shuffle(s) && InOrder(s) && Counted(s) && Bounded(s)
    requires s.len > 0
    ensures Shuffle(CutStep(s, t, op)) && InOrder(CutStep(s, t, op))
    ensures Counted(CutStep(s, t, op)) && Bounded(CutStep(s, t, op))
  {
    var s' := CutStep(s, t, op);
    var batch := s.Buffered();
    FlattenSnoc(s.batches, batch);
    ProjectNone(s.log, |s.batches|);
    assert s'.accepted == Flatten(s'.batches) + s'.Buffered();
    forall b | 0 <= b < |s'.batches|
      ensures Project(s'.log, b) == Lines(s'.batches[b][..s'.progress[b]])
    {
      if b == |s.batches| {
        assert s'.batches[b][..0] == [];
      }
    }
  }

  /** A goroutine that is not writing moves to a point where it is not writing. */
  lemma PutKeepsWriters(pcs: map<nat, Pc>, t: nat, pc: Pc, writer: seq<nat>, progress: seq<nat>, batches: seq<seq<Entry>>)
    requires WritersOf(pcs, writer, progress, batches)
    requires !At(pcs, t).Writing? && !pc.Writing?
    ensures WritersOf(Put(pcs, t, pc), writer, progress, batches)
  {
  }

  /** A writer logs one more entry of its batch. */
  lemma LogKeepsWriters(pcs: map<nat, Pc>, t: nat, op: Op, ref: nat, k: nat,
                        writer: seq<nat>, progress: seq<nat>, batches: seq<seq<Entry>>)
    requires WritersOf(pcs, writer, progress, batches) && At(pcs, t) == Writing(op, ref, k)
    requires 0 < ref <= |batches| == |progress| && k < |batches[ref - 1]|
    ensures WritersOf(Put(pcs, t, Writing(op, ref, k + 1)), writer, progress[ref - 1 := k + 1], batches)
  {
    var pcs', progress' := Put(pcs, t, Writing(op, ref, k + 1)), progress[ref - 1 := k + 1];
    hide Put;
    assert IsWriter(t, At(pcs, t), writer, progress);
    forall u: nat | At(pcs', u).Writing?
      ensures IsWriter(u, At(pcs', u), writer, progress')
    {
      assert At(pcs, u).Writing? && IsWriter(u, At(pcs, u), writer, progress);
    }
  }

  /** A writer that has logged its whole batch goes for the lock. */
  lemma FinishKeepsWriters(pcs: map<nat, Pc>, t: nat, op: Op, ref: nat, k: nat,
                           writer: seq<nat>, progress: seq<nat>, batches: seq<seq<Entry>>)
    requires WritersOf(pcs, writer, progress, batches) && At(pcs, t) == Writing(op, ref, k)
    requires 0 < ref <= |batches| && k >= |batches[ref - 1]|
    ensures WritersOf(Put(pcs, t, Relocking(op)), writer, progress, batches)
  {
    hide Put;
    assert IsWriter(t, At(pcs, t), writer, progress);
  }

  lemma WriteShape(s: State, t: nat, op: Op, ref: nat, k: nat)
    requires s.Sane() && 0 < ref < |s.mem| && ref <= |s.progress|
    ensures WriteStep(s, t, op, ref, k)
            == if k < |s.mem[ref]| then
                 s.(log := s.log + [Written(ref - 1, LineOf(s.mem[ref][k]))], progress := s.progress[ref - 1 := k + 1],
                    pcs := Put(s.pcs, t, Writing(op, ref, k + 1)))
               else s.(pcs := Put(s.pcs, t, Relocking(op)))
  {
  }

  /** The array a writer reads from is its batch, and it is as far as the records say. */
  lemma WriterReads(s: State, t: nat, op: Op, ref: nat, k: nat)
    requires Memory(s) && Writers(s) && At(s.pcs, t) == Writing(op, ref, k)
    ensures 0 < ref < |s.mem| && |s.progress| == |s.batches| == |s.mem| - 1
    ensures s.mem[ref] == s.batches[ref - 1] && s.progress[ref - 1] == k
  {
    assert IsWriter(t, At(s.pcs, t), s.writer, s.progress);
    assert s.mem[(ref - 1) + 1] == s.batches[ref - 1];
  }

  lemma WriteKeepsWriters(s: State, t: nat, op: Op, ref: nat, k: nat)
    requires Memory(s) && Writers(s) && At(s.pcs, t) == Writing(op, ref, k)
    ensures Writers(WriteStep(s, t, op, ref, k))
  {
    WriterReads(s, t, op, ref, k);
    WriteShape(s, t, op, ref, k);
    if k < |s.batches[ref - 1]| {
      LogKeepsWriters(s.pcs, t, op, ref, k, s.writer, s.progress, s.batches);
    } else {
      FinishKeepsWriters(s.pcs, t, op, ref, k, s.writer, s.progress, s.batches);
    }
    hide *;
  }

  lemma WriteKeepsShuffle(log: seq<Written>, progress: seq<nat>, batches: seq<seq<Entry>>, b: nat)
    requires ShuffleOf(log, progress, batches) && b < |batches| && progress[b] < |batches[b]|
    ensures ShuffleOf(log + [Written(b, LineOf(batches[b][progress[b]]))], progress[b := progress[b] + 1], batches)
  {
    var k := progress[b];
    var w := Written(b, LineOf(batches[b][k]));
    forall c | 0 <= c < |batches|
      ensures PrefixLogged(log + [w], c, batches[c][..progress[b := k + 1][c]])
    {
      ProjectSnoc(log, w, c);
      assert PrefixLogged(log, c, batches[c][..progress[c]]);
      if c == b {
        assert batches[b][..k + 1] == batches[b][..k] + [batches[b][k]];
        assert Lines(batches[b][..k + 1]) == Lines(batches[b][..k]) + [w.line];
      }
    }
  }

  lemma WriteKeepsHistory(s: State, t: nat, op: Op, ref: nat, k: nat)
    requires Memory(s) && Writers(s) && At(s.pcs, t) == Writing(op, ref, k)
    requires Shuffle(s) && InOrder(s) && Counted(s) && Bounded(s)
    ensures Memory(WriteStep(s, t, op, ref, k)) && Shuffle(WriteStep(s, t, op, ref, k))
    ensures InOrder(WriteStep(s, t, op, ref, k)) && Counted(WriteStep(s, t, op, ref, k))
  {
    WriterReads(s, t, op, ref, k);
    WriteShape(s, t, op, ref, k);
    hide WriteStep, WritersOf, Put, At, ShuffleOf;
    if k < |s.batches[ref - 1]| {
      WriteKeepsShuffle(s.log, s.progress, s.batches, ref - 1);
    }
  }

  lemma WriteKeepsBounded(s: State, t: nat, op: Op, ref: nat, k: nat)
    requires Memory(s) && Exclusion(s) && Bounded(s) && At(s.pcs, t) == Writing(op, ref, k)
    ensures Bounded(WriteStep(s, t, op, ref, k))
  {
    assert s.lock == Some(t) <==> InSection(At(s.pcs, t));
  }

  /** A step that only moves goroutines and the lock. */
  lemma MoveKeepsHistory(s: State, s': State)
    requires Memory(s) && Shuffle(s) && InOrder(s) && Counted(s)
    requires s' == s.(pcs := s'.pcs, lock := s'.lock, stopped := s'.stopped)
    ensures Memory(s') && Shuffle(s') && InOrder(s') && Counted(s')
  {
  }

  /** Every step of every goroutine keeps the invariant. */
  lemma NextKeepsInv(s: State, step: Step)
    requires Inv(s)
    ensures Inv(Next(s, step))
  {
    NextKeepsExclusion(s, step);
    if step.Advance? && At(s.pcs, step.t).Appending? {
      AppendKeepsMemory(s, step.t, At(s.pcs, step.t).op.entry);
      AppendKeepsWriters(s, step.t, At(s.pcs, step.t).op.entry);
      AppendKeepsHistory(s, step.t, At(s.pcs, step.t).op.entry);
    } else if step.Advance? && At(s.pcs, step.t).Flushing? && s.len > 0 {
      CutKeepsMemory(s, step.t, At(s.pcs, step.t).op);
      CutKeepsWriters(s, step.t, At(s.pcs, step.t).op);
      CutKeepsHistory(s, step.t, At(s.pcs, step.t).op);
    } else if step.Advance? && At(s.pcs, step.t).Writing? {
      var pc := At(s.pcs, step.t);
      WriteKeepsWriters(s, step.t, pc.op, pc.ref, pc.k);
      WriteKeepsHistory(s, step.t, pc.op, pc.ref, pc.k);
      WriteKeepsBounded(s, step.t, pc.op, pc.ref, pc.k);
    } else {
      MoveKeepsHistory(s, Next(s, step));
      MoveKeepsWriters(s, step);
      MoveKeepsBounded(s, step);
    }
  }

  /** A step that neither appends, cuts nor writes changes only the lock and one program point. */
  lemma AdvanceShape(s: State, t: nat) returns (pc: Pc)
    requires s.Sane() && !At(s.pcs, t).Appending? && !At(s.pcs, t).Writing?
    requires At(s.pcs, t).Flushing? ==> s.len == 0
    ensures !pc.Writing?
    ensures AdvanceStep(s, t) == s || AdvanceStep(s, t) == s.(lock := AdvanceStep(s, t).lock, pcs := Put(s.pcs, t, pc))
  {
    pc := At(AdvanceStep(s, t).pcs, t);
  }

  lemma MoveKeepsWriters(s: State, step: Step)
    requires Memory(s) && Writers(s)
    requires step.Advance? ==> !s.Pc(step.t).Appending? && !s.Pc(step.t).Writing?
    requires step.Advance? && s.Pc(step.t).Flushing? ==> s.len == 0
    ensures Writers(Next(s, step))
  {
    match step
    case Call(t, op) =>
      hide WritersOf;
      if MayCall(s, t, op) {
        PutKeepsWriters(s.pcs, t, Locking(op), s.writer, s.progress, s.batches);
      }
    case Advance(t) =>
      var pc := AdvanceShape(s, t);
      hide AdvanceStep, WritersOf;
      PutKeepsWriters(s.pcs, t, pc, s.writer, s.progress, s.batches);
    case CloseCall =>
  }

  lemma MoveKeepsBounded(s: State, step: Step)
    requires Memory(s) && Exclusion(s) && Bounded(s)
    requires step.Advance? ==> !At(s.pcs, step.t).Appending? && !At(s.pcs, step.t).Writing?
    requires step.Advance? && At(s.pcs, step.t).Flushing? ==> s.len == 0
    ensures Bounded(Next(s, step))
  {
  }

  /** In every interleaving of any length the invariant holds. */
  lemma {:induction false} ReachableInv(config: Config, steps: seq<Step>)
    ensures Inv(Exec(Init(config), steps))
  {
    if steps == [] {
      InitInv(config);
    } else {
      ReachableInv(config, steps[..|steps| - 1]);
      NextKeepsInv(Exec(Init(config), steps[..|steps| - 1]), steps[|steps| - 1]);
    }
  }
}
