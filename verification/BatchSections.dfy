/**
 The lock-held sections of the batching logger (logger/batch.go): adding an
 entry to a bounded buffer and cutting the buffer into a batch. Each section is
 a function on a `Core` value; the class performs it in place on one backing
 array, which `CutBatch` reuses for later entries while a batch is written.
 */
module BatchSections {

  datatype Level = Debug | Info | Warn | Error

  datatype Entry = Entry(level: Level, message: string, fields: seq<string>, time: int)

  /** What the underlying logger receives: the entry's own time is not passed on. */
  datatype Line = Line(level: Level, message: string, fields: seq<string>)

  function LineOf(e: Entry): Line {
    Line(e.level, e.message, e.fields)
  }

  function Lines(es: seq<Entry>): (ls: seq<Line>)
    ensures |ls| == |es|
    ensures forall i :: 0 <= i < |es| ==> ls[i] == LineOf(es[i])
  {
    seq(|es|, i requires 0 <= i < |es| => LineOf(es[i]))
  }

  datatype Config = Config(flushSize: int, flushInterval: int, bufferSize: int)

  /** The defaults for missing or non-positive settings; one second is 1000 milliseconds. */
  function Defaulted(c: Config): Config {
    Config(if c.flushSize <= 0 then 100 else c.flushSize,
           if c.flushInterval <= 0 then 1000 else c.flushInterval,
           if c.bufferSize <= 0 then 1000 else c.bufferSize)
  }

  datatype Stats = Stats(total: nat, batched: nat, flushes: nat, dropped: nat, average: real)

  /** Everything the mutex protects: the backing array, the slice length and the counters. */
  datatype Core = Core(cells: seq<Entry>, len: nat, flushSize: int, stats: Stats) {
    predicate Sane() {
      len <= |cells|
    }

    function Buffered(): seq<Entry>
      requires Sane()
    {
      cells[..len]
    }
  }

  predicate Full(c: Core) {
    c.len >= |c.cells|
  }

  function Append(c: Core, e: Entry): (c': Core)
    requires c.Sane()
    ensures c'.Sane()
  {
    if Full(c) then
      c.(stats := c.stats.(dropped := c.stats.dropped + 1))
    else
      c.(cells := c.cells[c.len := e], len := c.len + 1,
         stats := c.stats.(total := c.stats.total + 1))
  }

  /** After a successful append: does the caller have to flush before unlocking? */
  predicate ReachedFlushSize(c: Core) {
    c.len >= c.flushSize
  }

  function Cut(c: Core): (c': Core)
    requires c.Sane()
    ensures c'.Sane()
  {
    var batched, flushes := c.stats.batched + c.len, c.stats.flushes + 1;
    c.(len := 0,
       stats := c.stats.(batched := batched, flushes := flushes,
                         average := batched as real / flushes as real))
  }

  /** One whole section of a producer: append, and cut when the flush size is reached. */
  function AppendAndCut(c: Core, e: Entry): (c': Core)
    requires c.Sane()
    ensures c'.Sane()
  {
    var c1 := Append(c, e);
    if !Full(c) && ReachedFlushSize(c1) then Cut(c1) else c1
  }

  function AppendAll(c: Core, es: seq<Entry>): (c': Core)
    requires c.Sane()
    ensures c'.Sane()
  {
    if es == [] then c else AppendAndCut(AppendAll(c, es[..|es| - 1]), es[|es| - 1])
  }

  /** Appending extends the buffered entries at the end, or drops and only counts. */
  lemma AppendExtendsBuffer(c: Core, e: Entry)
    requires c.Sane()
    ensures !Full(c) ==> Append(c, e).Buffered() == c.Buffered() + [e]
                         && Append(c, e).stats == c.stats.(total := c.stats.total + 1)
    ensures Full(c) ==> Append(c, e).Buffered() == c.Buffered()
                        && Append(c, e).stats == c.stats.(dropped := c.stats.dropped + 1)
    ensures |Append(c, e).cells| == |c.cells| && Append(c, e).flushSize == c.flushSize
  {
  }

  /**
   What other goroutines do at one moment while the lock is free: they add entries,
   cutting batches of their own, and they log lines, in whatever order and amount.
   */
  datatype Rivals = Rivals(entries: seq<Entry>, lines: seq<Line>)

  /** What others do at a given moment; nothing when the list is over. */
  function Moment(rivals: seq<Rivals>, i: nat): Rivals {
    if i < |rivals| then rivals[i] else Rivals([], [])
  }

  /** The lock-protected state after the first `n` such moments. */
  function AppendRounds(c: Core, rivals: seq<Rivals>, n: nat): (c': Core)
    requires c.Sane()
    ensures c'.Sane()
  {
    if n == 0 then c else AppendAll(AppendRounds(c, rivals, n - 1), Moment(rivals, n - 1).entries)
  }

  /** The log while one goroutine writes its first `n` lines: before each, others may log theirs. */
  function Woven(own: seq<Line>, rivals: seq<Rivals>, n: nat): seq<Line>
    requires n <= |own|
  {
    if n == 0 then [] else Woven(own, rivals, n - 1) + Moment(rivals, n - 1).lines + [own[n - 1]]
  }

  /** Where the goroutine's own line with this number ends up. */
  function OwnAt(own: seq<Line>, rivals: seq<Rivals>, k: nat): nat
    requires k < |own|
  {
    |Woven(own, rivals, k)| + |Moment(rivals, k).lines|
  }

  /** However others interfere, a goroutine's lines are all in the log, and in their order. */
  lemma {:induction false} WovenKeepsOrder(own: seq<Line>, rivals: seq<Rivals>, k: nat, n: nat)
    requires k < n <= |own|
    ensures OwnAt(own, rivals, k) < |Woven(own, rivals, n)| && Woven(own, rivals, n)[OwnAt(own, rivals, k)] == own[k]
    ensures n < |own| ==> OwnAt(own, rivals, k) < OwnAt(own, rivals, n)
  {
    if k < n - 1 {
      WovenKeepsOrder(own, rivals, k, n - 1);
    }
  }

  /** The others' lines of the first `n` moments. */
  function OthersLines(rivals: seq<Rivals>, n: nat): seq<Line> {
    if n == 0 then [] else OthersLines(rivals, n - 1) + Moment(rivals, n - 1).lines
  }

  lemma WovenNext(own: seq<Line>, rivals: seq<Rivals>, n: nat)
    requires n < |own|
    ensures Woven(own, rivals, n + 1) == Woven(own, rivals, n) + Moment(rivals, n).lines + [own[n]]
    ensures OthersLines(rivals, n + 1) == OthersLines(rivals, n) + Moment(rivals, n).lines
    ensures own[..n + 1] == own[..n] + [own[n]]
  {
  }

  /** The log holds exactly the goroutine's lines so far and the others' lines. */
  ghost predicate NothingElse(own: seq<Line>, rivals: seq<Rivals>, n: nat)
    requires n <= |own|
  {
    multiset(Woven(own, rivals, n)) == multiset(own[..n]) + multiset(OthersLines(rivals, n))
  }

  lemma NothingAtFirst(own: seq<Line>, rivals: seq<Rivals>)
    ensures NothingElse(own, rivals, 0)
  {
    assert own[..0] == [];
  }

  lemma StepNothingElse(own: seq<Line>, rivals: seq<Rivals>, n: nat)
    requires n < |own| && NothingElse(own, rivals, n)
    ensures NothingElse(own, rivals, n + 1)
  {
    WovenNext(own, rivals, n);
    SumWoven(Woven(own, rivals, n), own[..n], OthersLines(rivals, n), Moment(rivals, n).lines, own[n]);
    hide Woven, OthersLines, Moment;
  }

  lemma {:induction false} WovenNothingElse(own: seq<Line>, rivals: seq<Rivals>, n: nat)
    requires n <= |own|
    ensures NothingElse(own, rivals, n)
  {
    hide NothingElse;
    if n == 0 {
      NothingAtFirst(own, rivals);
    } else {
      WovenNothingElse(own, rivals, n - 1);
      StepNothingElse(own, rivals, n - 1);
    }
  }

  lemma SumWoven(log: seq<Line>, own: seq<Line>, others: seq<Line>, more: seq<Line>, line: Line)
    requires multiset(log) == multiset(own) + multiset(others)
    ensures multiset(log + more + [line]) == multiset(own + [line]) + multiset(others + more)
  {
  }

  /** Every entry of the batch is in these lines, at its place, with its level, message and fields. */
  ghost predicate LoggedAs(lines: seq<Line>, batch: seq<Entry>, rivals: seq<Rivals>) {
    forall k :: 0 <= k < |batch| ==>
      var at := OwnAt(Lines(batch), rivals, k);
      && at < |lines|
      && lines[at].level == batch[k].level && lines[at].message == batch[k].message && lines[at].fields == batch[k].fields
  }

  lemma WovenLogs(batch: seq<Entry>, rivals: seq<Rivals>, lines: seq<Line>)
    requires Woven(Lines(batch), rivals, |batch|) <= lines
    ensures LoggedAs(lines, batch, rivals)
  {
    forall k | 0 <= k < |batch|
      ensures OwnAt(Lines(batch), rivals, k) < |lines| && lines[OwnAt(Lines(batch), rivals, k)] == Lines(batch)[k]
    {
      WovenKeepsOrder(Lines(batch), rivals, k, |batch|);
    }
    hide Woven, OwnAt;
  }

  /** A complete flush from `c` and `log`: the buffer's lines are woven into what others log meanwhile. */
  ghost predicate Flushed(c: Core, log: seq<Line>, c': Core, log': seq<Line>, rivals: seq<Rivals>)
    requires c.Sane()
  {
    var own := Lines(c.Buffered());
    && log' == log + Woven(own, rivals, |own|) + Moment(rivals, |own|).lines
    && LoggedAs(log'[|log|..], c.Buffered(), rivals)
    && c' == AppendRounds(Cut(c), rivals, |own| + 1)
  }

  /** The underlying logger. */
  class Sink {
    var lines: seq<Line>

    constructor ()
      ensures lines == []
    {
      lines := [];
    }

    method Log(level: Level, message: string, fields: seq<string>)
      modifies this
      ensures lines == old(lines) + [Line(level, message, fields)]
    {
      lines := lines + [Line(level, message, fields)];
    }

    /** Other goroutines log lines of their own. */
    method LogAll(more: seq<Line>)
      modifies this
      ensures lines == old(lines) + more
    {
      for i := 0 to |more|
        invariant lines == old(lines) + more[..i]
      {
        Log(more[i].level, more[i].message, more[i].fields);
        assert more[..i + 1] == more[..i] + [more[i]];
      }
      assert more[..|more|] == more;
    }
  }

  class BatchLogger {
    var buffer: array<Entry>
    var len: nat
    var flushSize: int
    var flushTime: int
    var stats: Stats

    ghost predicate Valid()
      reads this
    {
      len <= buffer.Length
    }

    ghost function Abs(): (c: Core)
      requires Valid()
      reads this, buffer
      ensures c.Sane()
    {
      Core(buffer[..], len, flushSize, stats)
    }

    constructor (config: Config)
      ensures Valid() && fresh(buffer)
      ensures Abs().Buffered() == [] && |Abs().cells| == if config.bufferSize <= 0 then 1000 else config.bufferSize
      ensures flushSize == if config.flushSize <= 0 then 100 else config.flushSize
      ensures flushTime == if config.flushInterval <= 0 then 1000 else config.flushInterval
      ensures stats == Stats(0, 0, 0, 0, 0.0)
    {
      var c := Defaulted(config);
      buffer := new Entry[c.bufferSize];
      len := 0;
      flushSize := c.flushSize;
      flushTime := c.flushInterval;
      stats := Stats(0, 0, 0, 0, 0.0);
    }

    /** The producer's section up to the decision to flush. */
    method AppendEntry(e: Entry) returns (flush: bool)
      requires Valid()
      modifies this, buffer
      ensures Valid() && buffer == old(buffer)
      ensures Abs() == Append(old(Abs()), e)
      ensures flush == (!Full(old(Abs())) && ReachedFlushSize(Abs()))
    {
      if len >= buffer.Length {
        stats := stats.(dropped := stats.dropped + 1);
        return false;
      }
      buffer[len] := e;
      len := len + 1;
      stats := stats.(total := stats.total + 1);
      flush := len >= flushSize;
    }

    /** Copies the buffer into a new array and truncates it, keeping the backing array. */
    method CutBatch() returns (batch: array<Entry>)
      requires Valid()
      modifies this
      ensures Valid() && buffer == old(buffer)
      ensures fresh(batch) && batch[..] == old(Abs().Buffered())
      ensures Abs() == Cut(old(Abs()))
    {
      batch := new Entry[len](i requires 0 <= i < len <= buffer.Length reads this, buffer => buffer[i]);
      len := 0;
      stats := stats.(flushes := stats.flushes + 1, batched := stats.batched + batch.Length);
      if stats.flushes > 0 {
        stats := stats.(average := stats.batched as real / stats.flushes as real);
      }
    }

    /** Other goroutines add entries; whoever reaches the flush size cuts its own batch. */
    method LetOthersAdd(entries: seq<Entry>)
      requires Valid()
      modifies this, buffer
      ensures Valid() && buffer == old(buffer)
      ensures Abs() == AppendAll(old(Abs()), entries)
    {
      ghost var c := Abs();
      for i := 0 to |entries|
        invariant Valid() && buffer == old(buffer)
        invariant Abs() == AppendAll(c, entries[..i])
      {
        var flush := AppendEntry(entries[i]);
        if flush {
          var _ := CutBatch();
        }
        assert entries[..i + 1][..i] == entries[..i];
      }
      assert entries[..|entries|] == entries;
    }

    /** Hands one entry to the logger, by level. */
    method WriteEntry(e: Entry, sink: Sink)
      modifies sink
      ensures sink.lines == old(sink.lines) + [Line(e.level, e.message, e.fields)]
    {
      match e.level {
        case Debug => sink.Log(Debug, e.message, e.fields);
        case Info => sink.Log(Info, e.message, e.fields);
        case Warn => sink.Log(Warn, e.message, e.fields);
        case Error => sink.Log(Error, e.message, e.fields);
      }
    }

    /**
     Hands the entries of a batch to the logger one by one, by level. Before each
     entry, and after the last, `rivals` says what other goroutines do.
     */
    method WriteBatch(batch: array<Entry>, sink: Sink, rivals: seq<Rivals>)
      requires Valid() && batch != buffer
      modifies this, buffer, sink
      ensures Valid() && buffer == old(buffer) && batch[..] == old(batch[..])
      ensures Abs() == AppendRounds(old(Abs()), rivals, batch.Length + 1)
      ensures sink.lines == old(sink.lines) + Woven(Lines(batch[..]), rivals, batch.Length) + Moment(rivals, batch.Length).lines
      ensures LoggedAs(sink.lines[|old(sink.lines)|..], batch[..], rivals)
    {
      ghost var c, own := Abs(), Lines(batch[..]);
      hide Append, Cut, AppendAll, Lines;
      for i := 0 to batch.Length
        invariant Valid() && buffer == old(buffer)
        invariant Abs() == AppendRounds(c, rivals, i)
        invariant sink.lines == old(sink.lines) + Woven(own, rivals, i)
      {
        LetOthersAdd(Moment(rivals, i).entries);
        sink.LogAll(Moment(rivals, i).lines);
        WriteEntry(batch[i], sink);
        assert own[i] == LineOf(batch[i]);
      }
      LetOthersAdd(Moment(rivals, batch.Length).entries);
      sink.LogAll(Moment(rivals, batch.Length).lines);
      assert sink.lines[|old(sink.lines)|..] == Woven(own, rivals, batch.Length) + Moment(rivals, batch.Length).lines;
      WovenLogs(batch[..], rivals, sink.lines[|old(sink.lines)|..]);
    }

    /**
     Flushes while other goroutines use the time in which the lock is free. Reuse of
     the backing array by them does not disturb the copied batch.
     */
    method FlushBuffer(sink: Sink, rivals: seq<Rivals>)
      requires Valid()
      modifies this, buffer, sink
      ensures Valid() && buffer == old(buffer)
      ensures old(len) == 0 ==> Abs() == old(Abs()) && sink.lines == old(sink.lines)
      ensures old(len) > 0 ==> Flushed(old(Abs()), old(sink.lines), Abs(), sink.lines, rivals)
    {
      if len == 0 {
        return;
      }
      var batch := CutBatch();
      WriteBatch(batch, sink, rivals);
    }

    method Add(e: Entry, sink: Sink, rivals: seq<Rivals>)
      requires Valid()
      modifies this, buffer, sink
      ensures Valid() && buffer == old(buffer)
      ensures var c := Append(old(Abs()), e);
              if !Full(old(Abs())) && ReachedFlushSize(c) then
                Flushed(c, old(sink.lines), Abs(), sink.lines, rivals)
              else
                sink.lines == old(sink.lines) && Abs() == c
    {
      var flush := AppendEntry(e);
      if flush {
        FlushBuffer(sink, rivals);
      }
    }

    method GetStats() returns (s: Stats)
      ensures s == stats
    {
      s := stats;
    }
  }
}
