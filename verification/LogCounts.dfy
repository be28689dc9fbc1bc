/** The keys under which the logger counts repeats, and what its lines stand for (src/common/log.cpp). */
module LogCounts {
  import opened Bytes

  /** One emitted line; `repeats` is zero for a line without a count. */
  datatype Line = Line(level: nat, tag: bytes, message: bytes, clock: int, repeats: nat, since: int)

  datatype Repeat = Repeat(reported: int, last: int, suppressed: nat)

  const WARN: nat := 3
  const TABLE_KEYS: nat := 1024

  /** Level digit, tag, NUL, message. */
  function KeyOf(level: nat, tag: bytes, message: bytes): bytes
    requires level < 5
  {
    [48 + level] + tag + [0] + message
  }

  predicate IsKey(key: bytes) {
    |key| >= 2 && 48 + WARN <= key[0] < 53 && 0 in key[1..]
  }

  function Split(key: bytes): nat
    requires IsKey(key)
    ensures 1 <= Split(key) < |key|
  {
    var i := IndexOf(key[1..], 0);
    assert 0 in key[1..] && key[1..][..|key| - 1] == key[1..];
    1 + i
  }

  function LevelIn(key: bytes): (level: nat)
    requires IsKey(key)
    ensures WARN <= level < 5
  {
    key[0] - 48
  }

  function TagIn(key: bytes): bytes
    requires IsKey(key)
  {
    key[1..Split(key)]
  }

  function MessageIn(key: bytes): bytes
    requires IsKey(key)
  {
    key[Split(key) + 1..]
  }

  lemma KeyIsKey(level: nat, tag: bytes, message: bytes)
    requires WARN <= level < 5
    ensures IsKey(KeyOf(level, tag, message))
  {
    var key := KeyOf(level, tag, message);
    assert key[1..][|tag|] == 0;
  }

  /** A line made from a key counts under that key. */
  lemma SplitKeyIsKey(key: bytes)
    requires IsKey(key)
    ensures KeyOf(LevelIn(key), TagIn(key), MessageIn(key)) == key
  {
    var i := Split(key);
    assert key[i] == 0;
    assert key == [key[0]] + key[1..i] + [key[i]] + key[i + 1..];
  }

  lemma KeySplits(level: nat, tag: bytes, message: bytes)
    requires WARN <= level < 5 && NulFree(tag)
    ensures IsKey(KeyOf(level, tag, message)) && LevelIn(KeyOf(level, tag, message)) == level
    ensures TagIn(KeyOf(level, tag, message)) == tag && MessageIn(KeyOf(level, tag, message)) == message
  {
    KeyIsKey(level, tag, message);
    var key := KeyOf(level, tag, message);
    assert key[1..] == tag + [0] + message;
    IndexOfPrefix(tag, 0, message);
  }

  /** A key gives back the tag and the text it was made from exactly when the tag has no NUL. */
  lemma KeyDetermines(level: nat, tag: bytes, message: bytes)
    requires WARN <= level < 5
    ensures IsKey(KeyOf(level, tag, message)) && LevelIn(KeyOf(level, tag, message)) == level
    ensures TagIn(KeyOf(level, tag, message)) == tag <==> NulFree(tag)
    ensures MessageIn(KeyOf(level, tag, message)) == message <==> NulFree(tag)
  {
    hide IndexOf, IsKey, TagIn, MessageIn, LevelIn;
    var key := KeyOf(level, tag, message);
    if NulFree(tag) {
      KeySplits(level, tag, message);
    } else {
      var i := IndexOf(tag, 0);
      var tail := tag[i + 1..] + [0] + message;
      FirstNul(tag);
      assert key == KeyOf(level, tag[..i], tail);
      KeySplits(level, tag[..i], tail);
      assert |tail| > |message| && |tag[..i]| < |tag|;
    }
  }

  /** For instance, a tag with a NUL in it makes the key of another message. */
  lemma TwoMessagesOneKey(level: nat, a: bytes, b: bytes, message: bytes)
    requires level < 5
    ensures KeyOf(level, a + [0] + b, message) == KeyOf(level, a, b + [0] + message)
  {
    assert [48 + level] + (a + [0] + b) + [0] + message == [48 + level] + a + [0] + (b + [0] + message);
  }

  lemma FirstNul(tag: bytes)
    requires !NulFree(tag)
    ensures IndexOf(tag, 0) < |tag| && tag == tag[..IndexOf(tag, 0)] + [0] + tag[IndexOf(tag, 0) + 1..]
  {
    var i := IndexOf(tag, 0);
    assert tag[..|tag|] == tag;
    Cut(tag, i);
  }

  lemma Cut(s: bytes, i: nat)
    requires i < |s|
    ensures s == s[..i] + [s[i]] + s[i + 1..]
  {
  }

  predicate WellLeveled(lines: seq<Line>) {
    forall l <- lines :: l.level < 5
  }

  function LineKey(l: Line): bytes
    requires l.level < 5
  {
    KeyOf(l.level, l.tag, l.message)
  }

  function Weight(l: Line): nat {
    if l.repeats == 0 then 1 else l.repeats
  }

  /** How many occurrences of a message the lines stand for. */
  function StandsFor(lines: seq<Line>, key: bytes): nat
    requires WellLeveled(lines)
  {
    if lines == [] then 0 else
      var l := lines[|lines| - 1];
      StandsFor(lines[..|lines| - 1], key) + if LineKey(l) == key then Weight(l) else 0
  }

  function Count(calls: seq<bytes>, key: bytes): nat {
    if calls == [] then 0 else
      Count(calls[..|calls| - 1], key) + if calls[|calls| - 1] == key then 1 else 0
  }

  function Suppressed(repeats: map<bytes, Repeat>, key: bytes): nat {
    if key in repeats then repeats[key].suppressed else 0
  }

  lemma OneMoreLine(lines: seq<Line>, l: Line, key: bytes)
    requires WellLeveled(lines) && l.level < 5
    ensures StandsFor(lines + [l], key) == StandsFor(lines, key) + if LineKey(l) == key then Weight(l) else 0
  {
    assert (lines + [l])[..|lines|] == lines;
  }

  lemma OneMoreCall(calls: seq<bytes>, call: bytes, key: bytes)
    ensures Count(calls + [call], key) == Count(calls, key) + if call == key then 1 else 0
  {
    assert (calls + [call])[..|calls|] == calls;
  }

  /** Nothing is lost: what the lines stand for and what is still suppressed add up to what was logged. */
  ghost predicate Conserves(lines: seq<Line>, repeats: map<bytes, Repeat>, calls: seq<bytes>)
    requires WellLeveled(lines)
  {
    forall key :: StandsFor(lines, key) + Suppressed(repeats, key) == Count(calls, key)
  }

  /** The count line for one entry of the table. */
  function Report(key: bytes, r: Repeat, clock: int): Line
    requires IsKey(key)
  {
    Line(LevelIn(key), TagIn(key), MessageIn(key), clock, r.suppressed, clock - r.reported)
  }

  /** The lines are the counts of these entries, at `clock`, and nothing else. */
  ghost predicate Reported(lines: seq<Line>, gone: map<bytes, Repeat>, clock: int)
    requires forall key <- gone :: IsKey(key)
  {
    && (forall key <- gone :: gone[key].suppressed > 0 ==> Report(key, gone[key], clock) in lines)
    && (forall l <- lines :: exists key <- gone :: gone[key].suppressed > 0 && l == Report(key, gone[key], clock))
  }

  lemma ReportOne(lines: seq<Line>, gone: map<bytes, Repeat>, key: bytes, r: Repeat, clock: int)
    requires (forall k <- gone :: IsKey(k)) && IsKey(key) && key !in gone && Reported(lines, gone, clock)
    ensures Reported(if r.suppressed > 0 then lines + [Report(key, r, clock)] else lines, gone[key := r], clock)
  {
    hide Report;
    var after, more := gone[key := r], if r.suppressed > 0 then lines + [Report(key, r, clock)] else lines;
    forall k <- after ensures after[k].suppressed > 0 ==> Report(k, after[k], clock) in more {
      assert k != key ==> k in gone && after[k] == gone[k];
    }
    forall l <- more ensures exists k <- after :: after[k].suppressed > 0 && l == Report(k, after[k], clock) {
      if l in lines {
        var k :| k in gone && gone[k].suppressed > 0 && l == Report(k, gone[k], clock);
        assert k in after && after[k] == gone[k];
      } else {
        assert key in after && l == Report(key, after[key], clock);
      }
    }
  }

  lemma ReportedClock(lines: seq<Line>, gone: map<bytes, Repeat>, clock: int)
    requires (forall key <- gone :: IsKey(key)) && Reported(lines, gone, clock)
    ensures forall l <- lines :: l.clock == clock
  {
  }

  // ---- The table when a message comes ----

  /** The entries a message at `clock` finds: all of them, or if a sweep is due those seen within a period. */
  function Remaining(repeats: map<bytes, Repeat>, swept: int, clock: int, period: nat): map<bytes, Repeat> {
    map key <- repeats | clock - swept < period || clock - repeats[key].last < period :: repeats[key]
  }

  /** When the last sweep was, once a message at `clock` has come. */
  function SweptBy(swept: int, clock: int, period: nat): int {
    if clock - swept >= period then clock else swept
  }

  function Again(r: Repeat, clock: int): Repeat {
    r.(suppressed := r.suppressed + 1, last := clock)
  }

  /** The table once the message has been recorded. */
  function TableAfter(l: Line, before: map<bytes, Repeat>, period: nat): map<bytes, Repeat>
    requires l.level < 5
  {
    var key := LineKey(l);
    if l.level < WARN then before
    else if key !in before then (if |before| >= TABLE_KEYS then map[] else before)[key := Repeat(l.clock, l.clock, 0)]
    else if before[key].reported + period <= l.clock then before[key := Repeat(l.clock, l.clock, 0)]
    else before[key := Again(before[key], l.clock)]
  }

  // ---- How old the table's entries get ----

  /** No entry was last seen more than a period before the last sweep. */
  ghost predicate Fresh(repeats: map<bytes, Repeat>, swept: int, period: nat) {
    forall key <- repeats :: repeats[key].last >= swept - period
  }

  /** Whenever the next message comes, what it finds was last seen less than two periods ago. */
  ghost predicate WithinTwoPeriods(repeats: map<bytes, Repeat>, swept: int, period: nat) {
    forall c, key | key in Remaining(repeats, swept, c, period) :: repeats[key].last > c - 2 * period
  }

  /** The exact condition, on the table alone. */
  lemma TwoPeriods(repeats: map<bytes, Repeat>, swept: int, period: nat)
    requires period > 0
    ensures WithinTwoPeriods(repeats, swept, period) <==> Fresh(repeats, swept, period)
  {
    if WithinTwoPeriods(repeats, swept, period) {
      var c := swept + period - 1;
      assert forall key <- repeats :: key in Remaining(repeats, swept, c, period);
    }
  }

  /** And on the next message: any below a warning keeps it, a warning or error if its clock is not too old. */
  lemma TwoPeriodsAfter(l: Line, repeats: map<bytes, Repeat>, swept: int, period: nat)
    requires l.level < 5 && Fresh(repeats, swept, period)
    ensures var at := SweptBy(swept, l.clock, period);
            Fresh(TableAfter(l, Remaining(repeats, swept, l.clock, period), period), at, period) <==>
            l.level < WARN || l.clock >= at - period
  {
    var before, at := Remaining(repeats, swept, l.clock, period), SweptBy(swept, l.clock, period);
    assert forall key <- before :: before[key].last >= at - period;
    if l.level >= WARN {
      assert TableAfter(l, before, period)[LineKey(l)].last == l.clock;
    }
  }

  /** When another message makes the count of copies of this one appear: at a sweep, or when the table is full. */
  lemma CountIsReported(l: Line, repeats: map<bytes, Repeat>, swept: int, period: nat, key: bytes)
    requires l.level < 5 && LineKey(l) != key && key in repeats
    ensures var before := Remaining(repeats, swept, l.clock, period);
            key !in TableAfter(l, before, period) <==>
            (l.clock - swept >= period && l.clock - repeats[key].last >= period) ||
            (l.level >= WARN && LineKey(l) !in before && |before| >= 1024)
  {
  }

  /** From when on the next message's sweep drops an entry and writes its count. */
  function Due(r: Repeat, swept: int, period: nat): int {
    (if r.last > swept then r.last else swept) + period
  }

  /** A count is due within two periods of the last copy, but only a message that comes then writes it. */
  lemma DueInTime(repeats: map<bytes, Repeat>, swept: int, period: nat, key: bytes)
    requires key in repeats && Fresh(repeats, swept, period)
    ensures Due(repeats[key], swept, period) <= repeats[key].last + 2 * period
    ensures forall c :: key !in Remaining(repeats, swept, c, period) <==> c >= Due(repeats[key], swept, period)
  {
  }

  // ---- How far apart lines with a count are ----

  ghost predicate CountsAt(lines: seq<Line>, mark: nat, i: int) {
    mark <= i < |lines| && lines[i].repeats > 0
  }

  /** Since position `mark`, lines with a count for one message are a period apart. */
  ghost predicate Spaced(lines: seq<Line>, mark: nat, period: nat)
    requires WellLeveled(lines)
  {
    forall i, j | CountsAt(lines, mark, i) && CountsAt(lines, mark, j) && i < j &&
      LineKey(lines[i]) == LineKey(lines[j]) ::
      lines[j].clock - lines[i].clock >= period
  }

  /** A line with a count can appear for an entry at `c`: at a sweep, or with the next copy. */
  predicate MayCount(r: Repeat, swept: int, c: int, period: nat) {
    (c - swept >= period && c - r.last >= period) || c - r.reported >= period
  }

  /** Whenever the next line with a count appears, it is a period after those before it. */
  ghost predicate NextSpaced(lines: seq<Line>, mark: nat, repeats: map<bytes, Repeat>, swept: int, period: nat)
    requires WellLeveled(lines)
  {
    forall i, c | CountsAt(lines, mark, i) && LineKey(lines[i]) in repeats &&
                  MayCount(repeats[LineKey(lines[i])], swept, c, period) :: c - lines[i].clock >= period
  }

  ghost predicate LinkedTo(l: Line, r: Repeat, swept: int) {
    l.clock <= r.reported && (l.clock <= r.last || l.clock <= swept)
  }

  /** No line with a count is later than what its message's entry remembers. */
  ghost predicate Linked(lines: seq<Line>, mark: nat, repeats: map<bytes, Repeat>, swept: int)
    requires WellLeveled(lines)
  {
    forall i | CountsAt(lines, mark, i) && LineKey(lines[i]) in repeats ::
      LinkedTo(lines[i], repeats[LineKey(lines[i])], swept)
  }

  lemma LinkedIsNextSpaced(lines: seq<Line>, mark: nat, repeats: map<bytes, Repeat>, swept: int, period: nat)
    requires WellLeveled(lines)
    ensures NextSpaced(lines, mark, repeats, swept, period) <==> Linked(lines, mark, repeats, swept)
  {
    if NextSpaced(lines, mark, repeats, swept, period) {
      forall i | CountsAt(lines, mark, i) && LineKey(lines[i]) in repeats
        ensures LinkedTo(lines[i], repeats[LineKey(lines[i])], swept)
      {
        var r := repeats[LineKey(lines[i])];
        assert MayCount(r, swept, r.reported + period, period);
        assert MayCount(r, swept, (if r.last > swept then r.last else swept) + period, period);
      }
    }
  }

  ghost predicate Apart(lines: seq<Line>, mark: nat, repeats: map<bytes, Repeat>, swept: int, period: nat)
    requires WellLeveled(lines)
  {
    Spaced(lines, mark, period) && Linked(lines, mark, repeats, swept)
  }

  /** No line with a count for `key` is later than `bound`. */
  ghost predicate NotAfter(lines: seq<Line>, mark: nat, key: bytes, bound: int)
    requires WellLeveled(lines)
  {
    forall i | CountsAt(lines, mark, i) && LineKey(lines[i]) == key :: lines[i].clock <= bound
  }

  /**
    A message's clock is not before the last line with a count for it. For a copy that is only counted, the last sweep
    may stand in for its clock.
   */
  ghost predicate Prompt(l: Line, lines: seq<Line>, mark: nat, before: map<bytes, Repeat>, swept: int, period: nat)
    requires WellLeveled(lines) && l.level < 5
  {
    var key := LineKey(l);
    if l.level < WARN then true
    else if key !in before then |before| >= TABLE_KEYS || NotAfter(lines, mark, key, l.clock)
    else before[key].reported + period <= l.clock ||
         NotAfter(lines, mark, key, if l.clock > swept then l.clock else swept)
  }

  // ---- The steps the logger takes, and what each keeps ----

  /** A line that reports what was suppressed for its entry, which is then dropped or starts again. */
  lemma ReportConserves(lines: seq<Line>, repeats: map<bytes, Repeat>, calls: seq<bytes>, l: Line)
    requires WellLeveled(lines) && l.level < 5 && Conserves(lines, repeats, calls)
    requires LineKey(l) in repeats && l.repeats == repeats[LineKey(l)].suppressed > 0
    ensures Conserves(lines + [l], repeats - {LineKey(l)}, calls)
  {
    hide Count, StandsFor, KeyOf;
    forall key
      ensures StandsFor(lines + [l], key) + Suppressed(repeats - {LineKey(l)}, key) == Count(calls, key)
    {
      OneMoreLine(lines, l, key);
      assert StandsFor(lines, key) + Suppressed(repeats, key) == Count(calls, key);
    }
  }

  lemma ForgetConserves(lines: seq<Line>, repeats: map<bytes, Repeat>, calls: seq<bytes>, gone: bytes)
    requires WellLeveled(lines) && Conserves(lines, repeats, calls) && Suppressed(repeats, gone) == 0
    ensures Conserves(lines, repeats - {gone}, calls)
  {
    hide Count, StandsFor, KeyOf;
    forall key
      ensures StandsFor(lines, key) + Suppressed(repeats - {gone}, key) == Count(calls, key)
    {
      assert StandsFor(lines, key) + Suppressed(repeats, key) == Count(calls, key);
    }
  }

  /** A logged message whose occurrence is suppressed. */
  lemma SuppressConserves(lines: seq<Line>, repeats: map<bytes, Repeat>, calls: seq<bytes>, call: bytes, r: Repeat)
    requires WellLeveled(lines) && Conserves(lines, repeats, calls)
    requires r.suppressed == Suppressed(repeats, call) + 1
    ensures Conserves(lines, repeats[call := r], calls + [call])
  {
    hide Count, StandsFor, KeyOf;
    forall key
      ensures StandsFor(lines, key) + Suppressed(repeats[call := r], key) == Count(calls + [call], key)
    {
      OneMoreCall(calls, call, key);
      assert StandsFor(lines, key) + Suppressed(repeats, key) == Count(calls, key);
    }
  }

  /** A logged message written out, with what was suppressed before it. */
  lemma WriteConserves(lines: seq<Line>, repeats: map<bytes, Repeat>, after: map<bytes, Repeat>, calls: seq<bytes>,
        l: Line)
    requires WellLeveled(lines) && l.level < 5 && Conserves(lines, repeats, calls)
    requires Weight(l) == Suppressed(repeats, LineKey(l)) + 1 && Suppressed(after, LineKey(l)) == 0
    requires forall key | key != LineKey(l) :: Suppressed(after, key) == Suppressed(repeats, key)
    ensures Conserves(lines + [l], after, calls + [LineKey(l)])
  {
    hide Count, StandsFor, KeyOf;
    forall key
      ensures StandsFor(lines + [l], key) + Suppressed(after, key) == Count(calls + [LineKey(l)], key)
    {
      OneMoreLine(lines, l, key);
      OneMoreCall(calls, LineKey(l), key);
      assert StandsFor(lines, key) + Suppressed(repeats, key) == Count(calls, key);
    }
  }

  /** A sweep's line comes a period after the one before: its entry was last reported, and last seen, that long ago. */
  lemma ReportIsApart(lines: seq<Line>, mark: nat, repeats: map<bytes, Repeat>, swept: int, period: nat, l: Line)
    requires WellLeveled(lines) && l.level < 5 && Apart(lines, mark, repeats, swept, period)
    requires LineKey(l) in repeats && l.clock - repeats[LineKey(l)].last >= period && l.clock - swept >= period
    ensures Apart(lines + [l], mark, repeats - {LineKey(l)}, swept, period)
  {
    var more := lines + [l];
    forall i | CountsAt(more, mark, i) && i < |lines| ensures CountsAt(lines, mark, i) && more[i] == lines[i] {
    }
    forall i | CountsAt(lines, mark, i) && LineKey(lines[i]) == LineKey(l) ensures l.clock - lines[i].clock >= period {
      assert LinkedTo(lines[i], repeats[LineKey(l)], swept);
    }
  }

  /** What is forgotten without a line, and a later sweep, leave the rest as it was. */
  lemma LessIsApart(lines: seq<Line>, mark: nat, repeats: map<bytes, Repeat>, swept: int, period: nat,
                    less: map<bytes, Repeat>, later: int)
    requires WellLeveled(lines) && Apart(lines, mark, repeats, swept, period) && swept <= later
    requires forall key <- less :: key in repeats && less[key] == repeats[key]
    ensures Apart(lines, mark, less, later, period)
  {
    forall i | CountsAt(lines, mark, i) && LineKey(lines[i]) in less
      ensures LinkedTo(lines[i], less[LineKey(lines[i])], later)
    {
      assert LinkedTo(lines[i], repeats[LineKey(lines[i])], swept);
    }
  }

  /** A line for a message that is not in the table, or that was last reported a period ago, and its new entry. */
  lemma WriteIsApart(lines: seq<Line>, mark: nat, repeats: map<bytes, Repeat>, swept: int, period: nat, l: Line)
    requires WellLeveled(lines) && l.level < 5 && Apart(lines, mark, repeats, swept, period)
    requires if LineKey(l) in repeats then l.clock - repeats[LineKey(l)].reported >= period else l.repeats == 0
    ensures Apart(lines + [l], mark, repeats[LineKey(l) := Repeat(l.clock, l.clock, 0)], swept, period) <==>
            LineKey(l) in repeats || NotAfter(lines, mark, LineKey(l), l.clock)
  {
    var key, more, r := LineKey(l), lines + [l], Repeat(l.clock, l.clock, 0);
    var after := repeats[key := r];
    forall i | CountsAt(more, mark, i) && i < |lines| ensures CountsAt(lines, mark, i) && more[i] == lines[i] {
    }
    forall i | CountsAt(lines, mark, i) ensures CountsAt(more, mark, i) && more[i] == lines[i] {
    }
    if key in repeats {
      forall i | CountsAt(lines, mark, i) && LineKey(lines[i]) == key ensures l.clock - lines[i].clock >= period {
        assert LinkedTo(lines[i], repeats[key], swept);
      }
    }
    if Apart(more, mark, after, swept, period) && key !in repeats {
      forall i | CountsAt(lines, mark, i) && LineKey(lines[i]) == key ensures lines[i].clock <= l.clock {
        assert LinkedTo(more[i], after[LineKey(more[i])], swept);
      }
    }
  }

  lemma LineIsApart(lines: seq<Line>, mark: nat, repeats: map<bytes, Repeat>, swept: int, period: nat, l: Line)
    requires WellLeveled(lines) && l.level < 5 && l.repeats == 0
    ensures Apart(lines + [l], mark, repeats, swept, period) <==> Apart(lines, mark, repeats, swept, period)
  {
    var more := lines + [l];
    forall i ensures CountsAt(more, mark, i) <==> CountsAt(lines, mark, i) {
    }
    forall i | CountsAt(lines, mark, i) ensures more[i] == lines[i] {
    }
  }

  /** A copy that is counted. */
  lemma CountIsApart(lines: seq<Line>, mark: nat, repeats: map<bytes, Repeat>, swept: int, period: nat, key: bytes,
        clock: int)
    requires WellLeveled(lines) && Apart(lines, mark, repeats, swept, period) && key in repeats
    ensures Apart(lines, mark, repeats[key := Again(repeats[key], clock)], swept, period) <==>
            NotAfter(lines, mark, key, if clock > swept then clock else swept)
  {
    var after := repeats[key := Again(repeats[key], clock)];
    if Apart(lines, mark, after, swept, period) {
      forall i | CountsAt(lines, mark, i) && LineKey(lines[i]) == key
        ensures lines[i].clock <= if clock > swept then clock else swept
      {
        assert LinkedTo(lines[i], after[LineKey(lines[i])], swept);
      }
    } else {
      assert forall i | CountsAt(lines, mark, i) && LineKey(lines[i]) in repeats ::
        LinkedTo(lines[i], repeats[LineKey(lines[i])], swept);
    }
  }

  /** If the last report of a message had a count, the table tells: a counted copy may not come from before it. */
  lemma ByTheTable(lines: seq<Line>, mark: nat, repeats: map<bytes, Repeat>, swept: int, period: nat, key: bytes,
                   clock: int, i: int)
    requires WellLeveled(lines) && Apart(lines, mark, repeats, swept, period) && key in repeats
    requires CountsAt(lines, mark, i) && LineKey(lines[i]) == key && lines[i].clock == repeats[key].reported
    ensures Apart(lines, mark, repeats[key := Again(repeats[key], clock)], swept, period) <==>
            clock >= repeats[key].reported || swept >= repeats[key].reported
  {
    CountIsApart(lines, mark, repeats, swept, period, key, clock);
    forall j | CountsAt(lines, mark, j) && LineKey(lines[j]) == key ensures lines[j].clock <= repeats[key].reported {
      assert LinkedTo(lines[j], repeats[LineKey(lines[j])], swept);
    }
  }

  /** Lines written at the message's own clock do not change whether it is prompt. */
  lemma PromptAfterSweep(l: Line, lines: seq<Line>, more: seq<Line>, mark: nat, before: map<bytes, Repeat>,
        swept: int, period: nat)
    requires WellLeveled(lines) && WellLeveled(more) && l.level < 5 && lines <= more
    requires forall i | |lines| <= i < |more| :: more[i].clock == l.clock
    ensures Prompt(l, more, mark, before, swept, period) <==> Prompt(l, lines, mark, before, swept, period)
  {
    forall i | CountsAt(lines, mark, i) ensures CountsAt(more, mark, i) && more[i] == lines[i] {
    }
    forall i | CountsAt(more, mark, i) ensures CountsAt(lines, mark, i) || more[i].clock == l.clock {
    }
  }

  // ---- Clocks in order ----

  /** No clock the logger remembers is later than `now`. */
  ghost predicate Past(lines: seq<Line>, mark: nat, repeats: map<bytes, Repeat>, swept: int, now: int) {
    && swept <= now
    && (forall key <- repeats :: repeats[key].reported <= now && repeats[key].last <= now)
    && (forall i | CountsAt(lines, mark, i) :: lines[i].clock <= now)
  }

  /** A message whose clock is not earlier than any before it meets both conditions. */
  lemma InOrderIsPrompt(l: Line, lines: seq<Line>, mark: nat, repeats: map<bytes, Repeat>, swept: int, now: int,
        period: nat)
    requires WellLeveled(lines) && l.level < 5 && Past(lines, mark, repeats, swept, now) && l.clock >= now
    ensures Prompt(l, lines, mark, Remaining(repeats, swept, l.clock, period), SweptBy(swept, l.clock, period), period)
    ensures l.clock >= SweptBy(swept, l.clock, period) - period
  {
  }
}
