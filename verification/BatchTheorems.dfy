/**
 What the batching logger guarantees over whole runs: nothing is lost,
 duplicated or overwritten, when entries can be dropped, and what `Close` means.
 */
module BatchTheorems {
  import opened Options
  import opened BatchSections
  import opened BatchProtocol

  /** The sizes that a configuration asks for. */
  function FlushSize(config: Config): (n: int)
    ensures n > 0
  {
    if config.flushSize > 0 then config.flushSize else 100
  }

  function BufferSize(config: Config): (n: int)
    ensures n > 0
  {
    if config.bufferSize > 0 then config.bufferSize else 1000
  }

  function Reached(config: Config, steps: seq<Step>): (s: State)
    ensures s.Sane()
  {
    Exec(Init(config), steps)
  }

  lemma {:induction false} ExecAppend(s: State, a: seq<Step>, b: seq<Step>)
    requires s.Sane()
    ensures Exec(s, a + b) == Exec(Exec(s, a), b)
  {
    hide Next;
    if b == [] {
      assert a + b == a;
    } else {
      ExecAppend(s, a, b[..|b| - 1]);
      assert (a + b)[..|a + b| - 1] == a + b[..|b| - 1];
    }
  }

  lemma {:induction false} ExecKeepsInv(s: State, steps: seq<Step>)
    requires Inv(s)
    ensures Inv(Exec(s, steps))
  {
    if steps != [] {
      ExecKeepsInv(s, steps[..|steps| - 1]);
      NextKeepsInv(Exec(s, steps[..|steps| - 1]), steps[|steps| - 1]);
    }
  }

  // Conservation.

  /** All lines of the batches below `n`, batch by batch. */
  function Sorted(log: seq<Written>, n: nat): multiset<Line> {
    if n == 0 then multiset{} else Sorted(log, n - 1) + multiset(Project(log, n - 1))
  }

  lemma {:induction false} SortedSnoc(log: seq<Written>, w: Written, n: nat)
    ensures Sorted(log + [w], n) == Sorted(log, n) + if w.batch < n then multiset{w.line} else multiset{}
  {
    hide Project;
    if n > 0 {
      SortedSnoc(log, w, n - 1);
      ProjectSnoc(log, w, n - 1);
      var last := Project(log, n - 1);
      assert multiset(last + [w.line]) == multiset(last) + multiset{w.line};
      assert last + [] == last;
    }
  }

  lemma {:induction false} SortedEmpty(n: nat)
    ensures Sorted([], n) == multiset{}
  {
    if n > 0 {
      SortedEmpty(n - 1);
    }
  }

  /** A shuffle has the same lines as the batches it is made of. */
  lemma {:induction false} ShuffleIsPermutation(log: seq<Written>, n: nat)
    requires forall i :: 0 <= i < |log| ==> log[i].batch < n
    ensures multiset(LogLines(log)) == Sorted(log, n)
  {
    if log == [] {
      SortedEmpty(n);
    } else {
      var front, last := log[..|log| - 1], log[|log| - 1];
      ShuffleIsPermutation(front, n);
      SortedSnoc(front, last, n);
      assert log == front + [last];
      assert LogLines(log) == LogLines(front) + [last.line];
    }
  }

  lemma LinesConcat(a: seq<Entry>, b: seq<Entry>)
    ensures Lines(a + b) == Lines(a) + Lines(b)
  {
  }

  lemma PrefixAndRest(batch: seq<Entry>, k: nat)
    requires k <= |batch|
    ensures multiset(Lines(batch[..k])) + multiset(Lines(batch[k..])) == multiset(Lines(batch))
  {
    LinesConcat(batch[..k], batch[k..]);
    assert batch[..k] + batch[k..] == batch;
  }

  lemma {:induction false} PrefixesAndRests(log: seq<Written>, batches: seq<seq<Entry>>, progress: seq<nat>)
    requires |batches| == |progress|
    requires forall b :: 0 <= b < |batches| ==> progress[b] <= |batches[b]|
    requires forall b :: 0 <= b < |batches| ==> PrefixLogged(log, b, batches[b][..progress[b]])
    ensures Sorted(log, |batches|) + Unwritten(batches, progress) == multiset(Lines(Flatten(batches)))
  {
    if batches != [] {
      var n := |batches| - 1;
      forall b | 0 <= b < n
        ensures PrefixLogged(log, b, batches[..n][b][..progress[..n][b]])
      {
        assert PrefixLogged(log, b, batches[b][..progress[b]]);
      }
      PrefixesAndRests(log, batches[..n], progress[..n]);
      assert PrefixLogged(log, n, batches[n][..progress[n]]);
      PrefixAndRest(batches[n], progress[n]);
      LinesConcat(Flatten(batches[..n]), batches[n]);
    }
  }

  lemma Conservation(s: State)
    requires Inv(s)
    ensures multiset(LogLines(s.log)) + Unwritten(s.batches, s.progress) + multiset(Lines(s.Buffered()))
            == multiset(Lines(s.accepted))
  {
    ShuffleIsPermutation(s.log, |s.batches|);
    PrefixesAndRests(s.log, s.batches, s.progress);
    LinesConcat(Flatten(s.batches), s.Buffered());
  }

  /**
   In every interleaving: cut batches then buffer are the accepted entries in
   lock order; the log is a shuffle of batch prefixes; and no line is lost or
   duplicated.
   */
  lemma NothingLostOrDuplicated(config: Config, steps: seq<Step>)
    ensures var s := Reached(config, steps);
            && s.accepted == Flatten(s.batches) + s.Buffered()
            && |s.progress| == |s.batches|
            && (forall i :: 0 <= i < |s.log| ==> s.log[i].batch < |s.batches|)
            && (forall b :: 0 <= b < |s.batches| ==>
                  s.progress[b] <= |s.batches[b]| && Project(s.log, b) == Lines(s.batches[b][..s.progress[b]])
                  && forall k :: 0 <= k < s.progress[b] ==>
                       && Project(s.log, b)[k].level == s.batches[b][k].level
                       && Project(s.log, b)[k].message == s.batches[b][k].message
                       && Project(s.log, b)[k].fields == s.batches[b][k].fields)
            && multiset(LogLines(s.log)) + Unwritten(s.batches, s.progress) + multiset(Lines(s.Buffered()))
               == multiset(Lines(s.accepted))
  {
    ReachableInv(config, steps);
    Conservation(Reached(config, steps));
    var s := Reached(config, steps);
    assert forall b :: 0 <= b < |s.batches| ==> PrefixLogged(s.log, b, s.batches[b][..s.progress[b]]);
  }

  lemma CoreKeepsBatchArrays(s: State, c: Core, ref: nat)
    requires s.Sane() && c.Sane() && 1 <= ref < |s.mem|
    ensures s.WithCore(c).mem[ref] == s.mem[ref] && |s.WithCore(c).mem| == |s.mem|
  {
  }

  /** No step writes to the array of a batch: appends go to the backing array, cuts allocate. */
  lemma NextKeepsBatchArrays(s: State, step: Step, ref: nat)
    requires s.Sane() && 1 <= ref < |s.mem|
    ensures var s' := Next(s, step); ref < |s'.mem| && s'.mem[ref] == s.mem[ref]
  {
    if step.Advance? {
      var pc := At(s.pcs, step.t);
      if pc.Appending? && pc.op.Add? {
        CoreKeepsBatchArrays(s, Append(s.TheCore(), pc.op.entry), ref);
      } else if pc.Flushing? {
        CoreKeepsBatchArrays(s, Cut(s.TheCore()), ref);
      }
    }
  }

  lemma {:induction false} ExecKeepsBatchArrays(s: State, steps: seq<Step>, ref: nat)
    requires s.Sane() && 1 <= ref < |s.mem|
    ensures var s' := Exec(s, steps); ref < |s'.mem| && s'.mem[ref] == s.mem[ref]
  {
    if steps != [] {
      var n := |steps| - 1;
      ExecKeepsBatchArrays(s, steps[..n], ref);
      NextKeepsBatchArrays(Exec(s, steps[..n]), steps[n], ref);
      hide Next;
    }
  }

  /**
   However the backing array is reused, the array a goroutine is writing from
   keeps its contents: in every later state it is still the batch that was cut.
   */
  lemma BatchNeverOverwritten(config: Config, before: seq<Step>, after: seq<Step>, t: nat)
    requires At(Reached(config, before).pcs, t).Writing?
    ensures var s, s' := Reached(config, before), Reached(config, before + after);
            var ref := At(s.pcs, t).ref;
            && 1 <= ref <= |s.batches| && ref < |s'.mem| && s'.mem[ref] == s.batches[ref - 1]
            && |s'.mem[0]| == BufferSize(config)
  {
    var s := Reached(config, before);
    var pc := At(s.pcs, t);
    ReachableInv(config, before);
    ReachableInv(config, before + after);
    CapacityFixed(config, before + after);
    WriterReads(s, t, pc.op, pc.ref, pc.k);
    ExecKeepsBatchArrays(s, after, pc.ref);
    ExecAppend(Init(config), before, after);
    hide Exec, WritersOf, Shuffle, Exclusion, Counted, Bounded, InOrder;
  }

  lemma NextFixed(s: State, step: Step)
    requires s.Sane()
    ensures Next(s, step).capacity == s.capacity && Next(s, step).flushSize == s.flushSize
  {
    hide Append, Cut, Full, ReachedFlushSize, At, Put;
  }

  lemma {:induction false} CapacityFixed(config: Config, steps: seq<Step>)
    ensures Reached(config, steps).capacity == BufferSize(config)
    ensures Reached(config, steps).flushSize == FlushSize(config)
  {
    if steps != [] {
      CapacityFixed(config, steps[..|steps| - 1]);
      NextFixed(Reached(config, steps[..|steps| - 1]), steps[|steps| - 1]);
      hide Next;
    }
  }

  // Counters.

  lemma {:induction false} FlattenLength(ss: seq<seq<Entry>>, m: nat)
    requires forall b :: 0 <= b < |ss| ==> 1 <= |ss[b]| <= m
    ensures |ss| <= |Flatten(ss)| <= |ss| * m
  {
    if ss != [] {
      FlattenLength(ss[..|ss| - 1], m);
      assert |ss| * m == (|ss| - 1) * m + m;
    }
  }

  lemma StatsOfInv(s: State)
    requires Inv(s)
    ensures s.stats.total == s.stats.batched + s.len == |s.accepted|
    ensures s.stats.flushes == |s.batches|
    ensures s.stats.flushes <= s.stats.batched <= s.stats.flushes * Min(s.flushSize, s.capacity)
    ensures forall b :: 0 <= b < |s.batches| ==> 1 <= |s.batches[b]| <= Min(s.flushSize, s.capacity)
    ensures s.stats.flushes > 0 ==> s.stats.average == s.stats.batched as real / s.stats.flushes as real
    ensures s.lock == None ==> s.len < s.flushSize && s.len <= s.capacity
  {
    FlattenLength(s.batches, Min(s.flushSize, s.capacity));
  }

  /** The statistics in every reachable state, in particular whenever the lock is free. */
  lemma StatsExact(config: Config, steps: seq<Step>)
    ensures var s, m := Reached(config, steps), Min(FlushSize(config), BufferSize(config));
            && s.stats.total == s.stats.batched + s.len == |s.accepted|
            && s.stats.flushes == |s.batches|
            && s.stats.flushes <= s.stats.batched <= s.stats.flushes * m
            && (forall b :: 0 <= b < |s.batches| ==> 1 <= |s.batches[b]| <= m)
            && (s.stats.flushes > 0 ==> s.stats.average == s.stats.batched as real / s.stats.flushes as real)
            && (s.lock == None ==> s.len < FlushSize(config) && s.len <= BufferSize(config))
  {
    ReachableInv(config, steps);
    CapacityFixed(config, steps);
    StatsOfInv(Reached(config, steps));
  }

  // Dropping.

  /** A client alone, about to add to a buffer whose flush size is out of reach. */
  ghost predicate Filling(s: State, n: nat) {
    && s.Sane()
    && s.lock == None && At(s.pcs, 1) == Idle
    && s.len == n <= |s.mem[0]| < s.flushSize
  }

  function OneAdd(e: Entry): seq<Step> {
    [Call(1, Add(e)), Advance(1), Advance(1), Advance(1)]
  }

  lemma ExecOneAdd(s: State, e: Entry)
    requires s.Sane()
    ensures Exec(s, OneAdd(e))
            == Next(Next(Next(Next(s, Call(1, Add(e))), Advance(1)), Advance(1)), Advance(1))
  {
    var r := OneAdd(e);
    assert r[..3][..2] == r[..2] && r[..2][..1] == r[..1] && r[..1][..0] == [];
    assert Exec(s, r[..1]) == Next(Exec(s, []), r[0]);
    assert Exec(s, r[..2]) == Next(Exec(s, r[..1]), r[1]);
    assert Exec(s, r[..3]) == Next(Exec(s, r[..2]), r[2]);
  }

  lemma CallAndLock(s: State, e: Entry)
    requires s.Sane() && s.lock == None && At(s.pcs, 1) == Idle
    ensures var s' := Next(Next(s, Call(1, Add(e))), Advance(1));
            s' == s.(lock := Some(1), pcs := s'.pcs) && At(s'.pcs, 1) == Appending(Add(e))
  {
  }

  lemma AppendAndUnlock(s: State, e: Entry)
    requires s.Sane() && s.lock == Some(1) && At(s.pcs, 1) == Appending(Add(e)) && |s.mem[0]| < s.flushSize
    ensures var s' := Next(Next(s, Advance(1)), Advance(1));
            && s'.lock == None && At(s'.pcs, 1) == Idle && s'.flushSize == s.flushSize
            && |s'.mem[0]| == |s.mem[0]|
            && if s.len < |s.mem[0]| then s'.len == s.len + 1 else s'.stats.dropped == s.stats.dropped + 1
  {
    assert AdvanceStep(s, 1) == AppendStep(s, 1, e);
  }

  lemma OneAddFills(s: State, n: nat, e: Entry)
    requires Filling(s, n)
    ensures var s' := Exec(s, OneAdd(e));
            if n < |s.mem[0]| then Filling(s', n + 1) && |s'.mem[0]| == |s.mem[0]|
            else s'.stats.dropped == s.stats.dropped + 1
  {
    ExecOneAdd(s, e);
    CallAndLock(s, e);
    AppendAndUnlock(Next(Next(s, Call(1, Add(e))), Advance(1)), e);
    hide Next;
  }

  lemma {:induction false} CanDrop(s: State, n: nat, e: Entry) returns (steps: seq<Step>)
    requires Filling(s, n)
    ensures Exec(s, steps).stats.dropped > 0
    decreases |s.mem[0]| - n
  {
    steps := OneAdd(e);
    OneAddFills(s, n, e);
    if n < |s.mem[0]| {
      var rest := CanDrop(Exec(s, steps), n + 1, e);
      ExecAppend(s, steps, rest);
      steps := steps + rest;
    }
  }

  /** No run ever drops an entry exactly when the flush size fits into the buffer. */
  lemma NeverDropsIffFlushSizeFits(config: Config)
    ensures (forall steps :: Reached(config, steps).stats.dropped == 0)
            <==> FlushSize(config) <= BufferSize(config)
  {
    if FlushSize(config) <= BufferSize(config) {
      forall steps
        ensures Reached(config, steps).stats.dropped == 0
      {
        ReachableInv(config, steps);
        CapacityFixed(config, steps);
      }
    } else {
      var steps := CanDrop(Init(config), 0, Entry(Info, "", [], 0));
      assert Reached(config, steps).stats.dropped > 0;
    }
  }

  // Shutdown.

  predicate ClientCall(step: Step) {
    step.Call? && step.t != PROCESSOR
  }

  /** All clients have returned; once the stop flush has cut, nothing is buffered any more. */
  ghost predicate ShuttingDown(s: State) {
    && s.Sane()
    && (forall t: nat {:trigger At(s.pcs, t)} :: t != PROCESSOR ==> At(s.pcs, t) == Idle)
    && (StopCut(At(s.pcs, PROCESSOR)) ==> s.len == 0)
  }

  predicate StopCut(pc: Pc) {
    pc.Done? || ((pc.Writing? || pc.Relocking? || pc.Unlocking?) && pc.op == StopFlush)
  }

  /** A step of a goroutine moves only that goroutine. */
  lemma AdvanceMovesOnly(s: State, t: nat, u: nat)
    requires s.Sane() && u != t
    ensures var s' := AdvanceStep(s, t); At(s'.pcs, u) == At(s.pcs, u) && s'.stopped == s.stopped
  {
    hide Append, Cut, Full, ReachedFlushSize, At, Put;
  }

  /** The stop flush leaves the buffer empty, and nothing the processor does fills it. */
  lemma ProcessorShuttingDown(s: State)
    requires s.Sane() && Role(PROCESSOR, At(s.pcs, PROCESSOR), s.stopped)
    requires StopCut(At(s.pcs, PROCESSOR)) ==> s.len == 0
    ensures StopCut(At(AdvanceStep(s, PROCESSOR).pcs, PROCESSOR)) ==> AdvanceStep(s, PROCESSOR).len == 0
  {
  }

  lemma NextKeepsShuttingDown(s: State, step: Step)
    requires Inv(s) && ShuttingDown(s) && !ClientCall(step)
    ensures ShuttingDown(Next(s, step))
  {
    if step.Advance? {
      if step.t == PROCESSOR {
        assert Role(PROCESSOR, At(s.pcs, PROCESSOR), s.stopped);
        ProcessorShuttingDown(s);
        forall u: nat | u != PROCESSOR {
          AdvanceMovesOnly(s, PROCESSOR, u);
        }
        hide AdvanceStep, Put;
      } else {
        assert At(s.pcs, step.t) == Idle;
      }
    }
  }

  lemma {:induction false} ExecKeepsShuttingDown(s: State, steps: seq<Step>)
    requires Inv(s) && ShuttingDown(s)
    requires forall i :: 0 <= i < |steps| ==> !ClientCall(steps[i])
    ensures ShuttingDown(Exec(s, steps))
  {
    if steps != [] {
      var n := |steps| - 1;
      ExecKeepsShuttingDown(s, steps[..n]);
      ExecKeepsInv(s, steps[..n]);
      NextKeepsShuttingDown(Exec(s, steps[..n]), steps[n]);
    }
  }

  lemma {:induction false} AllWritten(batches: seq<seq<Entry>>, progress: seq<nat>)
    requires |batches| == |progress|
    requires forall b :: 0 <= b < |batches| ==> progress[b] == |batches[b]|
    ensures Unwritten(batches, progress) == multiset{}
  {
    if batches != [] {
      var n := |batches| - 1;
      AllWritten(batches[..n], progress[..n]);
      assert batches[n][progress[n]..] == [];
    }
  }

  /** When nobody is writing, log and buffer together hold everything accepted. */
  lemma QuietConservation(s: State)
    requires Inv(s)
    requires forall t: nat {:trigger At(s.pcs, t)} :: !At(s.pcs, t).Writing?
    ensures multiset(LogLines(s.log)) + multiset(Lines(s.Buffered())) == multiset(Lines(s.accepted))
  {
    Conservation(s);
    forall b | 0 <= b < |s.batches|
      ensures s.progress[b] == |s.batches[b]|
    {
      assert !At(s.pcs, s.writer[b]).Writing?;
    }
    AllWritten(s.batches, s.progress);
  }

  /**
   If every client has returned before `Close` and none calls again, then when
   `Close` returns (the goroutine is done) the buffer is empty and the log is a
   permutation of everything accepted; a ticker flush may have been under way.
   */
  lemma CloseFlushesEverything(config: Config, before: seq<Step>, after: seq<Step>)
    requires var s := Reached(config, before);
             !s.stopped && forall t: nat {:trigger At(s.pcs, t)} :: t != PROCESSOR ==> At(s.pcs, t) == Idle
    requires forall i :: 0 <= i < |after| ==> !ClientCall(after[i])
    requires At(Reached(config, before + after).pcs, PROCESSOR) == Done
    ensures var s := Reached(config, before + after);
            s.Buffered() == [] && multiset(LogLines(s.log)) == multiset(Lines(s.accepted))
  {
    var s := Reached(config, before);
    ReachableInv(config, before);
    assert Role(PROCESSOR, At(s.pcs, PROCESSOR), s.stopped);
    ExecKeepsShuttingDown(s, after);
    ExecAppend(Init(config), before, after);
    ReachableInv(config, before + after);
    QuietConservation(Reached(config, before + after));
  }

  // Shutdown while clients are still at work.

  /** These entries were accepted, and once the stop flush has cut, they are all in batches. */
  ghost predicate CutByStop(s: State, early: seq<Entry>) {
    && early <= s.accepted
    && (StopCut(At(s.pcs, PROCESSOR)) ==> |early| <= |Flatten(s.batches)|)
  }

  lemma AppendOnlyAccepts(s: State, t: nat, e: Entry)
    requires s.Sane()
    ensures var s' := AppendStep(s, t, e); s.accepted <= s'.accepted && s'.batches == s.batches
  {
  }

  /** Accepted entries and cut batches only grow. */
  lemma NextGrows(s: State, step: Step)
    requires s.Sane()
    ensures s.accepted <= Next(s, step).accepted
    ensures |Flatten(s.batches)| <= |Flatten(Next(s, step).batches)|
  {
    if step.Advance? {
      var pc := At(s.pcs, step.t);
      if pc.Appending? && pc.op.Add? {
        AppendOnlyAccepts(s, step.t, pc.op.entry);
      } else if pc.Flushing? {
        FlattenSnoc(s.batches, s.Buffered());
      }
      hide AppendStep, Flatten, Cut;
    }
  }

  /** The processor gets past the cut of the stop flush only by emptying the buffer. */
  lemma StopCutEmpties(s: State)
    requires Inv(s) && !StopCut(At(s.pcs, PROCESSOR))
    ensures StopCut(At(AdvanceStep(s, PROCESSOR).pcs, PROCESSOR)) ==> AdvanceStep(s, PROCESSOR).len == 0
  {
    assert Role(PROCESSOR, At(s.pcs, PROCESSOR), s.stopped);
    ProcessorShuttingDown(s);
  }

  lemma NextKeepsCut(s: State, step: Step, early: seq<Entry>)
    requires Inv(s) && CutByStop(s, early)
    ensures CutByStop(Next(s, step), early)
  {
    var s' := Next(s, step);
    NextGrows(s, step);
    NextKeepsInv(s, step);
    if step.Advance? && step.t == PROCESSOR {
      if !StopCut(At(s.pcs, PROCESSOR)) {
        StopCutEmpties(s);
        assert s'.len == 0 ==> s'.Buffered() == [];
      }
    } else if step.Advance? {
      AdvanceMovesOnly(s, step.t, PROCESSOR);
    }
    hide AdvanceStep, Flatten;
  }

  lemma {:induction false} ExecKeepsCut(s: State, steps: seq<Step>, early: seq<Entry>)
    requires Inv(s) && CutByStop(s, early)
    ensures CutByStop(Exec(s, steps), early)
  {
    if steps != [] {
      var n := |steps| - 1;
      ExecKeepsCut(s, steps[..n], early);
      ExecKeepsInv(s, steps[..n]);
      NextKeepsCut(Exec(s, steps[..n]), steps[n], early);
    }
  }

  /**
   Whatever the clients do meanwhile: when `Close` returns, everything accepted
   before the stop channel was closed has been cut, in order, and every batch that
   is not completely written is just being written by a client.
   */
  lemma CloseCutsEverything(config: Config, before: seq<Step>, after: seq<Step>)
    requires !Reached(config, before).stopped
    requires At(Reached(config, before + after).pcs, PROCESSOR) == Done
    ensures var s := Reached(config, before + after);
            && Reached(config, before).accepted <= Flatten(s.batches)
            && |s.writer| == |s.progress| == |s.batches|
            && forall b :: 0 <= b < |s.batches| && s.progress[b] < |s.batches[b]| ==>
                 s.writer[b] != PROCESSOR && WritingRef(At(s.pcs, s.writer[b])) == b + 1
  {
    var s0, s := Reached(config, before), Reached(config, before + after);
    ReachableInv(config, before);
    assert Role(PROCESSOR, At(s0.pcs, PROCESSOR), s0.stopped);
    ExecKeepsCut(s0, after, s0.accepted);
    ExecAppend(Init(config), before, after);
    ReachableInv(config, before + after);
    assert Flatten(s.batches) == s.accepted[..|Flatten(s.batches)|];
  }

  // What it means that a call has returned.

  predicate CalledBy(step: Step, t: nat) {
    step.Call? && step.t == t
  }

  /** A flush that has not cut yet, or has left nothing of the early entries in the buffer. */
  ghost predicate FlushUnderWay(s: State, t: nat, op: Op, early: seq<Entry>) {
    && early <= s.accepted
    && match At(s.pcs, t)
       case Locking(o) => o == op
       case Flushing(o) => o == op
       case Appending(_) => false
       case _ => |early| <= |Flatten(s.batches)|
  }

  predicate BeforeCut(pc: Pc) {
    pc.Locking? || pc.Appending? || pc.Flushing?
  }

  /** The step that cuts leaves nothing of what was accepted in the buffer. */
  lemma FlushingCuts(s: State, t: nat)
    requires InOrder(s) && At(s.pcs, t).Flushing?
    ensures |Flatten(AdvanceStep(s, t).batches)| == |s.accepted|
    ensures !BeforeCut(At(AdvanceStep(s, t).pcs, t))
  {
    FlattenSnoc(s.batches, s.Buffered());
    hide Flatten, Cut;
  }

  lemma PastCut(s: State, t: nat)
    requires s.Sane() && !BeforeCut(At(s.pcs, t))
    ensures !BeforeCut(At(AdvanceStep(s, t).pcs, t))
  {
  }

  lemma LockingFlushes(s: State, t: nat, op: Op)
    requires s.Sane() && At(s.pcs, t) == Locking(op) && !op.Add?
    ensures var pc := At(AdvanceStep(s, t).pcs, t); pc == Locking(op) || pc == Flushing(op)
  {
  }

  lemma AdvanceKeepsFlush(s: State, t: nat, op: Op, early: seq<Entry>)
    requires InOrder(s) && FlushUnderWay(s, t, op, early) && !op.Add?
    requires early <= AdvanceStep(s, t).accepted && |Flatten(s.batches)| <= |Flatten(AdvanceStep(s, t).batches)|
    ensures FlushUnderWay(AdvanceStep(s, t), t, op, early)
  {
    match At(s.pcs, t)
    case Locking(_) => LockingFlushes(s, t, op); hide AdvanceStep, Flatten;
    case Flushing(_) => FlushingCuts(s, t); hide AdvanceStep, Flatten;
    case _ => PastCut(s, t); hide AdvanceStep, Flatten;
  }

  lemma NextKeepsFlush(s: State, step: Step, t: nat, op: Op, early: seq<Entry>)
    requires Inv(s) && FlushUnderWay(s, t, op, early) && !op.Add? && !CalledBy(step, t)
    ensures FlushUnderWay(Next(s, step), t, op, early)
  {
    NextGrows(s, step);
    hide Inv, Flatten;
    match step
    case Advance(u) =>
      if u == t {
        AdvanceKeepsFlush(s, t, op, early);
      } else {
        AdvanceMovesOnly(s, u, t);
      }
      hide AdvanceStep, FlushUnderWay;
    case _ =>
  }

  lemma {:induction false} ExecKeepsFlush(s: State, steps: seq<Step>, t: nat, op: Op, early: seq<Entry>)
    requires Inv(s) && FlushUnderWay(s, t, op, early) && !op.Add?
    requires forall i :: 0 <= i < |steps| ==> !CalledBy(steps[i], t)
    ensures FlushUnderWay(Exec(s, steps), t, op, early)
  {
    if steps != [] {
      var n := |steps| - 1;
      ExecKeepsFlush(s, steps[..n], t, op, early);
      ExecKeepsInv(s, steps[..n]);
      NextKeepsFlush(Exec(s, steps[..n]), steps[n], t, op, early);
    }
  }

  /** The goroutine starts the call when it may, and the run goes on without another call of it. */
  lemma RunCall(config: Config, before: seq<Step>, t: nat, op: Op, after: seq<Step>)
    requires MayCall(Reached(config, before), t, op)
    ensures var s1 := Reached(config, before).Goto(t, Locking(op));
            Inv(Reached(config, before)) && Inv(s1) && Reached(config, before + [Call(t, op)] + after) == Exec(s1, after)
  {
    ReachableInv(config, before);
    ExecOne(Reached(config, before), Call(t, op));
    ExecAppend(Init(config), before, [Call(t, op)]);
    ExecAppend(Init(config), before + [Call(t, op)], after);
    NextKeepsInv(Reached(config, before), Call(t, op));
  }

  /**
   When a flush returns, be it a client's, a tick's or the last one, everything that
   was accepted before it was called has been cut, in order, and every batch that
   this goroutine has cut is completely written.
   */
  lemma FlushReturns(config: Config, before: seq<Step>, t: nat, op: Op, after: seq<Step>)
    requires var s0 := Reached(config, before);
             && At(s0.pcs, t) == Idle
             && if t == PROCESSOR then op == TickFlush || (op == StopFlush && s0.stopped) else op == Flush
    requires forall i :: 0 <= i < |after| ==> !CalledBy(after[i], t)
    requires var pc := At(Reached(config, before + [Call(t, op)] + after).pcs, t); pc == Idle || pc == Done
    ensures var s := Reached(config, before + [Call(t, op)] + after);
            && Reached(config, before).accepted <= Flatten(s.batches)
            && |s.writer| == |s.progress| == |s.batches|
            && forall b :: 0 <= b < |s.batches| && s.writer[b] == t ==> s.progress[b] == |s.batches[b]|
  {
    var s0, s := Reached(config, before), Reached(config, before + [Call(t, op)] + after);
    RunCall(config, before, t, op, after);
    ExecKeepsFlush(s0.Goto(t, Locking(op)), after, t, op, s0.accepted);
    ReachableInv(config, before + [Call(t, op)] + after);
    assert Flatten(s.batches) == s.accepted[..|Flatten(s.batches)|];
  }

  /** An entry not handled yet, or accepted after the first `n`, or dropped after the first `d`. */
  ghost predicate AddUnderWay(s: State, t: nat, e: Entry, n: nat, d: nat) {
    if At(s.pcs, t).Locking? || At(s.pcs, t).Appending? then
      At(s.pcs, t).op == Add(e) && n <= |s.accepted| && d <= s.stats.dropped
    else Handled(s, e, n, d)
  }

  ghost predicate Handled(s: State, e: Entry, n: nat, d: nat) {
    (exists i :: n <= i < |s.accepted| && s.accepted[i] == e) || s.stats.dropped > d
  }

  lemma NextDropsMore(s: State, step: Step)
    requires s.Sane()
    ensures s.stats.dropped <= Next(s, step).stats.dropped
  {
  }

  lemma AdvanceHandles(s: State, t: nat, e: Entry, n: nat, d: nat)
    requires Inv(s) && At(s.pcs, t) == Appending(Add(e)) && n <= |s.accepted| && d <= s.stats.dropped
    ensures Handled(AdvanceStep(s, t), e, n, d)
    ensures var pc := At(AdvanceStep(s, t).pcs, t); !pc.Locking? && !pc.Appending?
  {
    var s' := AppendStep(s, t, e);
    if !Full(s.TheCore()) {
      assert s'.accepted[|s.accepted|] == e;
    }
  }

  lemma HandledStays(s: State, s': State, e: Entry, n: nat, d: nat)
    requires Handled(s, e, n, d) && s.accepted <= s'.accepted && s.stats.dropped <= s'.stats.dropped
    ensures Handled(s', e, n, d)
  {
    if i :| n <= i < |s.accepted| && s.accepted[i] == e {
      assert s'.accepted[i] == e;
    }
  }

  /** A goroutine that is past its append does not come back to it without a new call. */
  lemma PastAppend(s: State, t: nat)
    requires Inv(s) && !At(s.pcs, t).Locking? && !At(s.pcs, t).Appending?
    ensures var pc := At(AdvanceStep(s, t).pcs, t); !pc.Locking? && !pc.Appending?
  {
    hide Append, Cut, Lines;
  }

  lemma NextKeepsAdd(s: State, step: Step, t: nat, e: Entry, n: nat, d: nat)
    requires Inv(s) && AddUnderWay(s, t, e, n, d) && !CalledBy(step, t)
    ensures AddUnderWay(Next(s, step), t, e, n, d)
  {
    var s' := Next(s, step);
    NextGrows(s, step);
    NextDropsMore(s, step);
    if Handled(s, e, n, d) {
      HandledStays(s, s', e, n, d);
    }
    if step.Advance? && step.t == t {
      if At(s.pcs, t).Appending? {
        AdvanceHandles(s, t, e, n, d);
      } else if !At(s.pcs, t).Locking? {
        PastAppend(s, t);
      }
    } else if step.Advance? {
      AdvanceMovesOnly(s, step.t, t);
    }
    hide Handled, Inv, AppendStep, CutStep, WriteStep;
  }

  lemma {:induction false} ExecKeepsAdd(s: State, steps: seq<Step>, t: nat, e: Entry, n: nat, d: nat)
    requires Inv(s) && AddUnderWay(s, t, e, n, d)
    requires forall i :: 0 <= i < |steps| ==> !CalledBy(steps[i], t)
    ensures AddUnderWay(Exec(s, steps), t, e, n, d)
  {
    if steps != [] {
      var m := |steps| - 1;
      ExecKeepsAdd(s, steps[..m], t, e, n, d);
      ExecKeepsInv(s, steps[..m]);
      NextKeepsAdd(Exec(s, steps[..m]), steps[m], t, e, n, d);
    }
  }

  /**
   When a call that adds an entry returns, the entry has been accepted during the
   call or a drop has been counted, and every batch the caller has cut is written.
   */
  lemma AddReturns(config: Config, before: seq<Step>, t: nat, e: Entry, after: seq<Step>)
    requires t != PROCESSOR && At(Reached(config, before).pcs, t) == Idle
    requires forall i :: 0 <= i < |after| ==> !CalledBy(after[i], t)
    requires At(Reached(config, before + [Call(t, Add(e))] + after).pcs, t) == Idle
    ensures var s0, s := Reached(config, before), Reached(config, before + [Call(t, Add(e))] + after);
            && ((exists i :: |s0.accepted| <= i < |s.accepted| && s.accepted[i] == e) || s.stats.dropped > s0.stats.dropped)
            && |s.writer| == |s.progress| == |s.batches|
            && forall b :: 0 <= b < |s.batches| && s.writer[b] == t ==> s.progress[b] == |s.batches[b]|
  {
    var s0 := Reached(config, before);
    RunCall(config, before, t, Add(e), after);
    ExecKeepsAdd(s0.Goto(t, Locking(Add(e))), after, t, e, |s0.accepted|, s0.stats.dropped);
    ReachableInv(config, before + [Call(t, Add(e))] + after);
  }

  // Progress.

  /** A goroutine under way moves, unless it waits for the lock while somebody holds it. */
  lemma AdvanceMoves(s: State, u: nat)
    requires s.Sane() && Role(u, At(s.pcs, u), s.stopped)
    requires !At(s.pcs, u).Idle? && !At(s.pcs, u).Done?
    requires At(s.pcs, u).Locking? || At(s.pcs, u).Relocking? ==> s.lock == None
    ensures At(AdvanceStep(s, u).pcs, u) != At(s.pcs, u)
  {
  }

  /** The protocol never blocks: while some goroutine is under way, some goroutine can move. */
  lemma NoDeadlock(s: State, t: nat)
    requires Inv(s) && !At(s.pcs, t).Idle? && !At(s.pcs, t).Done?
    ensures exists u: nat :: AdvanceStep(s, u) != s
  {
    var u := if s.lock.Some? then s.lock.value else t;
    assert s.lock == Some(u) <==> InSection(At(s.pcs, u));
    assert Role(u, At(s.pcs, u), s.stopped);
    AdvanceMoves(s, u);
    assert AdvanceStep(s, u) != s;
  }

  /** Distance of the processor from the end of the stop flush, and of the lock's owner from its release. */
  function Stage(pc: Pc): nat {
    match pc
    case Done => 0
    case Idle => 7
    case _ =>
      (if pc.op == StopFlush then 0 else 7)
      + match pc
        case Unlocking(_) => 1
        case Relocking(_) => 2
        case Writing(_, _, _) => 3
        case Flushing(_) => 4
        case Appending(_) => 5
        case _ => 6
  }

  function Remaining(s: State): nat
    requires s.Sane()
  {
    var pc := At(s.pcs, PROCESSOR);
    if pc.Writing? && pc.ref < |s.mem| && pc.k <= |s.mem[pc.ref]| then |s.mem[pc.ref]| - pc.k else 0
  }

  function OwnerStage(s: State): nat {
    if s.lock == None then 0
    else
      match At(s.pcs, s.lock.value)
      case Unlocking(_) => 1
      case Flushing(_) => 2
      case Appending(_) => 3
      case _ => 0
  }

  /** The goroutine to run next so that `Close` returns. */
  function Scheduled(s: State): Step {
    if At(s.pcs, PROCESSOR).Idle? then Call(PROCESSOR, StopFlush)
    else if (At(s.pcs, PROCESSOR).Locking? || At(s.pcs, PROCESSOR).Relocking?) && s.lock.Some? then Advance(s.lock.value)
    else Advance(PROCESSOR)
  }

  /** While the processor waits for the lock, its owner gets closer to releasing it. */
  lemma OwnerStepHelps(s: State, u: nat)
    requires Inv(s) && s.lock == Some(u) && u != PROCESSOR
    ensures var s' := AdvanceStep(s, u);
            && s'.stopped == s.stopped
            && At(s'.pcs, PROCESSOR) == At(s.pcs, PROCESSOR)
            && (!At(s.pcs, PROCESSOR).Writing? ==> OwnerStage(s') < OwnerStage(s))
  {
    assert s.lock == Some(u) <==> InSection(At(s.pcs, u));
    assert Role(u, At(s.pcs, u), s.stopped);
    AdvanceMovesOnly(s, u, PROCESSOR);
    hide Append, Cut, Full, ReachedFlushSize, At, Put, Inv;
  }

  lemma ProcessorWriteHelps(s: State)
    requires Inv(s) && At(s.pcs, PROCESSOR).Writing?
    ensures var s' := AdvanceStep(s, PROCESSOR);
            var stage, stage' := Stage(At(s.pcs, PROCESSOR)), Stage(At(s'.pcs, PROCESSOR));
            && s'.stopped == s.stopped
            && (stage' < stage || (stage' == stage && Remaining(s') < Remaining(s)))
  {
    var pc := At(s.pcs, PROCESSOR);
    assert IsWriter(PROCESSOR, pc, s.writer, s.progress);
    assert s.mem[(pc.ref - 1) + 1] == s.batches[pc.ref - 1];
  }

  lemma ProcessorStepHelps(s: State)
    requires Inv(s) && !At(s.pcs, PROCESSOR).Writing?
    requires !At(s.pcs, PROCESSOR).Idle? && !At(s.pcs, PROCESSOR).Done?
    requires At(s.pcs, PROCESSOR).Locking? || At(s.pcs, PROCESSOR).Relocking? ==> s.lock == None
    ensures var s' := AdvanceStep(s, PROCESSOR);
            s'.stopped == s.stopped && Stage(At(s'.pcs, PROCESSOR)) < Stage(At(s.pcs, PROCESSOR))
  {
    assert Role(PROCESSOR, At(s.pcs, PROCESSOR), s.stopped);
  }

  lemma ScheduledStepHelps(s: State)
    requires Inv(s) && s.stopped && !At(s.pcs, PROCESSOR).Done?
    ensures Next(s, Scheduled(s)).stopped
    ensures var s' := Next(s, Scheduled(s));
            var stage, stage' := Stage(At(s.pcs, PROCESSOR)), Stage(At(s'.pcs, PROCESSOR));
            || stage' < stage
            || (stage' == stage && Remaining(s') < Remaining(s))
            || (stage' == stage && Remaining(s') == Remaining(s) && OwnerStage(s') < OwnerStage(s))
  {
    var pc := At(s.pcs, PROCESSOR);
    if pc.Writing? {
      ProcessorWriteHelps(s);
    } else if pc.Idle? {
    } else if (pc.Locking? || pc.Relocking?) && s.lock.Some? {
      assert s.lock == Some(PROCESSOR) <==> InSection(pc);
      OwnerStepHelps(s, s.lock.value);
    } else {
      ProcessorStepHelps(s);
    }
  }

  lemma ExecOne(s: State, step: Step)
    requires s.Sane()
    ensures Exec(s, [step]) == Next(s, step)
  {
    assert [step][..0] == [];
    assert Exec(s, [step]) == Next(Exec(s, []), step);
  }

  lemma ScheduledRun(s: State) returns (step: Step, s': State)
    requires Inv(s) && s.stopped && !At(s.pcs, PROCESSOR).Done?
    ensures s' == Exec(s, [step]) && Inv(s') && s'.stopped && !ClientCall(step)
    ensures var stage, stage' := Stage(At(s.pcs, PROCESSOR)), Stage(At(s'.pcs, PROCESSOR));
            || stage' < stage
            || (stage' == stage && Remaining(s') < Remaining(s))
            || (stage' == stage && Remaining(s') == Remaining(s) && OwnerStage(s') < OwnerStage(s))
  {
    step := Scheduled(s);
    ScheduledStepHelps(s);
    NextKeepsInv(s, step);
    ExecOne(s, step);
    s' := Next(s, step);
  }

  /** After the stop channel is closed, `Close` can return from every reachable state. */
  lemma {:induction false} CloseCanReturn(s: State) returns (steps: seq<Step>)
    requires Inv(s) && s.stopped
    ensures At(Exec(s, steps).pcs, PROCESSOR) == Done
    ensures forall i :: 0 <= i < |steps| ==> !ClientCall(steps[i])
    decreases Stage(At(s.pcs, PROCESSOR)), Remaining(s), OwnerStage(s)
  {
    if At(s.pcs, PROCESSOR).Done? {
      steps := [];
    } else {
      var step, s' := ScheduledRun(s);
      var rest := CloseCanReturn(s');
      ExecAppend(s, [step], rest);
      steps := [step] + rest;
    }
  }

  /** `Close` can be called in every reachable state, and then it can return. */
  lemma CloseReturns(config: Config, before: seq<Step>) returns (after: seq<Step>)
    ensures At(Reached(config, before + [CloseCall] + after).pcs, PROCESSOR) == Done
    ensures forall i :: 0 <= i < |after| ==> !ClientCall(after[i])
  {
    ReachableInv(config, before + [CloseCall]);
    ExecOne(Reached(config, before), CloseCall);
    ExecAppend(Init(config), before, [CloseCall]);
    after := CloseCanReturn(Reached(config, before + [CloseCall]));
    ExecAppend(Init(config), before + [CloseCall], after);
  }
}
