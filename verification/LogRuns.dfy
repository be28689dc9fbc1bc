/** Runs of the logger: those in which its documented bounds fail, and clocks in order, which keep two of them. */
module LogRuns {
  import opened Bytes
  import opened LogCounts
  import LogFile
  import opened Logger
  import Redaction
  import opened Secrets

  const INFO: nat := 2

  /**
    A message whose clock was read before another's but which takes the lock after it. The next message, at 26, leaves
    an entry last seen 26 milliseconds, more than two periods, before it.
   */
  method LateClock(render: Line -> bytes) returns (log: Log, key: bytes)
    ensures log.Valid() && log.period == 10 && log.now == 26
    ensures key in log.repeats && log.repeats[key].last == 0 < log.now - 2 * log.period
    ensures !WithinTwoPeriods(log.repeats, log.swept, log.period)
  {
    hide Log.Valid, Log.CountsApart, Log.Recent, Log.TokensFromTags, Log.AfterMessage;
    hide Log.Recorded, Log.Accounted, Prompt, KeyOf, Redaction.RedactTokens;
    log := new Log(10, 250, render);
    key := KeyOf(WARN, [], Redaction.RedactTokens([]));
    var _ := log.Write(INFO, [], [], 25, 25);
    assert log.repeats == map[];
    var _ := log.Write(WARN, [], [], 0, 0);
    assert log.repeats == map[key := Repeat(0, 0, 0)];
    var _ := log.Write(INFO, [], [], 26, 26);
    assert key in Remaining(log.repeats, log.swept, 26, 10);
  }

  /** The log has seen one message only. */
  ghost predicate Holds(log: Log, r: map<bytes, Repeat>, swept: int)
    reads log, log.file, log.file.pending
  {
    log.Valid() && log.period == 10 && log.repeats == r && log.swept == swept && log.mark == 0
  }

  /** The key of an empty warning. */
  ghost function Key(): bytes {
    KeyOf(WARN, [], Redaction.RedactTokens([]))
  }

  /** A message, and a copy of it that is counted. */
  method Copies(log: Log, first: int, second: int)
    requires Holds(log, map[], 0) && 0 <= first <= second < 10
    modifies log, log.file, log.file.pending
    ensures Holds(log, map[Key() := Repeat(first, second, 1)], 0)
  {
    hide Log.Valid, Log.CountsApart, Log.Recent, Log.TokensFromTags, Log.AfterMessage;
    hide Log.Accounted, Prompt, KeyOf, Redaction.RedactTokens;
    var _ := log.Write(WARN, [], [], first, first);
    assert log.repeats == map[Key() := Repeat(first, first, 0)];
    var _ := log.Write(WARN, [], [], second, second);
    assert log.repeats == map[Key() := Repeat(first, second, 1)];
  }

  /** A sweep that finds the message too recent, and a copy whose line carries the count. */
  method Counted(log: Log)
    requires Holds(log, map[Key() := Repeat(5, 9, 1)], 0)
    modifies log, log.file, log.file.pending
    ensures Holds(log, map[Key() := Repeat(15, 15, 0)], 10)
    ensures log.lines != [] && WellLeveled(log.lines)
    ensures var l := log.lines[|log.lines| - 1]; LineKey(l) == Key() && l.repeats == 2 && l.clock == 15
  {
    hide Log.Valid, Log.CountsApart, Log.Recent, Log.TokensFromTags, Log.AfterMessage;
    hide Log.Accounted, Prompt, KeyOf, Redaction.RedactTokens;
    var _ := log.Write(INFO, [], [], 10, 10);
    assert log.repeats == map[Key() := Repeat(5, 9, 1)];
    var _ := log.Write(WARN, [], [], 15, 15);
    assert log.repeats == map[Key() := Repeat(15, 15, 0)];
    Leveled(log);
  }

  lemma Leveled(log: Log)
    requires log.Valid()
    ensures WellLeveled(log.lines)
  {
  }

  /** A late copy is counted, and a sweep writes its count. */
  method Late(log: Log)
    requires Holds(log, map[Key() := Repeat(15, 15, 0)], 10)
    modifies log, log.file, log.file.pending
    ensures log.Valid() && log.mark == 0 && old(log.lines) <= log.lines
    ensures IsKey(Key()) && Report(Key(), Repeat(15, 9, 1), 20) in log.lines[|old(log.lines)|..]
  {
    hide Log.Valid, Log.CountsApart, Log.Recent, Log.TokensFromTags, Log.AfterMessage;
    hide Prompt, KeyOf, Redaction.RedactTokens, Report;
    ghost var from := |log.lines|;
    var _ := log.Write(WARN, [], [], 9, 9);
    assert log.repeats == map[Key() := Repeat(15, 9, 1)];
    ghost var middle := log.lines;
    var _ := log.Write(INFO, [], [], 20, 20);
    assert Key() in (map[Key() := Repeat(15, 9, 1)] - {});
    assert log.lines[from..][|middle| - from..] == log.lines[|middle|..];
  }

  /**
    Two lines with a count for one message, five milliseconds apart: a copy whose clock was read before the last line
    with a count was written takes the lock after it.
   */
  method LateCopy(render: Line -> bytes) returns (log: Log, ghost i: nat, ghost j: nat)
    ensures log.Valid() && log.period == 10 && WellLeveled(log.lines)
    ensures log.mark <= i < j < |log.lines| && LineKey(log.lines[i]) == LineKey(log.lines[j])
    ensures log.lines[i].repeats > 0 && log.lines[j].repeats > 0
    ensures log.lines[j].clock == log.lines[i].clock + 5
  {
    hide Log.Valid, Log.CountsApart, Log.Recent, Log.TokensFromTags, KeyOf, IsKey, Redaction.RedactTokens;
    log := new Log(10, 250, render);
    Copies(log, 5, 9);
    Counted(log);
    i := |log.lines| - 1;
    KeyIsKey(WARN, [], Redaction.RedactTokens([]));
    ghost var l := Report(Key(), Repeat(15, 9, 1), 20);
    Late(log);
    ghost var k :| 0 <= k < |log.lines[i + 1..]| && log.lines[i + 1..][k] == l;
    j := i + 1 + k;
    SplitKeyIsKey(Key());
    Leveled(log);
  }

  /** The count of a burst that ended at 1 is written at 1000, with the next line: nothing else writes it. */
  method QuietBurst(render: Line -> bytes) returns (log: Log)
    ensures log.Valid() && log.period == 10 && IsKey(Key())
    ensures Report(Key(), Repeat(0, 1, 1), 1000) in log.lines && Key() !in log.repeats
  {
    hide Log.Valid, Log.CountsApart, Log.Recent, Log.TokensFromTags, Log.AfterMessage;
    hide Prompt, KeyOf, Redaction.RedactTokens, Report;
    log := new Log(10, 250, render);
    Copies(log, 0, 1);
    var _ := log.Write(INFO, [], [], 1000, 1000);
  }

  const TOKEN := Ascii("FRLaaaaaaaaaaaaaaaaaaaa")

  /** A token in a tag is written: only texts are redacted. */
  method TokenInTag(render: Line -> bytes) returns (log: Log)
    ensures log.Valid() && log.lines != [] && !SecretFree(log.lines[|log.lines| - 1].tag)
  {
    hide Log.Valid, Log.CountsApart, Log.Recent, Log.TokensFromTags, Log.AfterMessage;
    hide Prompt, KeyOf, Redaction.RedactTokens, SecretFree;
    log := new Log(10, 250, render);
    var _ := log.Write(INFO, TOKEN, [], 0, 0);
    IsToken();
  }

  lemma IsToken()
    ensures !SecretFree(TOKEN)
  {
    assert TOKEN[..3] == [0x46, 0x52, 0x4C] && TOKEN[0..23] == TOKEN;
    assert SecretAt(TOKEN, 3);
  }

  /** A warning and an info line, which waits in the buffer. */
  method WarningThenInfo(log: Log)
    requires log.Valid() && log.period == 1000 && log.file.open && log.file.interval == 250
    requires log.repeats == map[] && log.swept == 0 == log.now
    requires forall l :: 0 < |log.render(l)| <= LogFile.CAPACITY
    modifies log, log.file, log.file.pending
    ensures log.Valid() && log.file.open && log.now == 1 && log.swept == 0
    ensures log.repeats == map[Key() := Repeat(0, 0, 0)] && log.file.pendingSize > 0
    ensures log.lines != [] && var l := log.lines[|log.lines| - 1]; l.level == INFO && l.clock == 1
  {
    hide Log.Valid, Log.CountsApart, Log.Recent, Log.TokensFromTags, Log.Accounted, Prompt, KeyOf;
    hide Redaction.RedactTokens;
    var _ := log.Write(WARN, [], [], 0, 0);
    assert log.repeats == map[Key() := Repeat(0, 0, 0)];
    assert log.file.State().flushed == 0;
    var _ := log.Write(INFO, [], [], 1, 1);
  }

  /**
    An info line that a warning does not bring to the file: the warning repeats one within the period (a second here),
    so it is counted and nothing is written. The line still waits 998 milliseconds, almost four flush intervals, later.
   */
  method WaitsInBuffer(render: Line -> bytes) returns (log: Log)
    requires forall l :: 0 < |render(l)| <= LogFile.CAPACITY
    ensures log.Valid() && log.file.open && log.file.interval == 250 && log.now == 999
    ensures log.calls != [] && log.calls[|log.calls| - 1] == Key()
    ensures log.lines != [] && var l := log.lines[|log.lines| - 1]; l.level == INFO && l.clock == log.now - 998
    ensures log.file.content != log.file.emitted
  {
    hide Log.Valid, Log.CountsApart, Log.Recent, Log.TokensFromTags, Log.Accounted, Prompt, KeyOf;
    hide Redaction.RedactTokens;
    log := new Log(1000, 250, render);
    var _ := log.SetFile(Some([]), 0);
    WarningThenInfo(log);
    ghost var before, found := log.lines, log.Found(999);
    assert log.repeats - found.Keys == map[];
    var written := log.Write(WARN, [], [], 999, 999);
    assert !written;
    NothingSwept(log, |before|, 999);
    Buffered(log);
  }

  lemma NothingSwept(log: Log, from: nat, clock: int)
    requires log.Accounted(from, map[], clock, false)
    ensures |log.lines| == from
  {
    FirstIn(log.lines[from..]);
  }

  lemma FirstIn(lines: seq<Line>)
    ensures lines == [] || exists l :: l in lines
  {
    assert lines != [] ==> lines[0] in lines;
  }

  lemma Buffered(log: Log)
    requires log.Valid()
    ensures log.file.pendingSize > 0 ==> log.file.content != log.file.emitted
  {
  }

  /** With clocks in order both bounds are kept, and nothing the table finds is two periods old. */
  method WriteInOrder(log: Log, level: nat, tag: bytes, message: bytes, clock: int, later: int)
    requires log.Valid() && log.Recent() && log.CountsApart() && level < 5 && clock >= log.now
    modifies log, log.file, log.file.pending
    ensures log.Valid() && log.Recent() && log.CountsApart() && log.now == clock
    ensures forall key <- log.repeats :: log.repeats[key].last > log.now - 2 * log.period
  {
    hide Log.Valid, Log.CountsApart, Log.Accounted, Log.TokensFromTags, Log.Recorded, KeyOf, Redaction.RedactTokens;
    InOrder(log, Line(level, tag, Redaction.RedactTokens(message), clock, 0, 0));
    var _ := log.Write(level, tag, message, clock, later);
  }

  lemma InOrder(log: Log, l: Line)
    requires log.Valid() && l.level < 5 && l.clock >= log.now
    ensures WellLeveled(log.lines)
    ensures Prompt(l, log.lines, log.mark, log.Found(l.clock), SweptBy(log.swept, l.clock, log.period), log.period)
    ensures l.clock >= SweptBy(log.swept, l.clock, log.period) - log.period
  {
    hide Prompt, Past;
    InOrderIsPrompt(l, log.lines, log.mark, log.repeats, log.swept, log.now, log.period);
  }
}
