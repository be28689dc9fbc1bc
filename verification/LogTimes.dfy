/** The time a line with a count speaks of (src/common/log.cpp): since the last line before it for its message. */
module LogTimes {
  import opened Bytes
  import opened LogCounts

  /** Position `i` has the last line with this key. */
  ghost predicate LastWith(lines: seq<Line>, key: bytes, i: nat)
    requires WellLeveled(lines)
  {
    i < |lines| && LineKey(lines[i]) == key && forall j | i < j < |lines| :: LineKey(lines[j]) != key
  }

  /** Every line with a count gives the time since the last line before it with the same level, tag and text. */
  ghost predicate SinceLast(lines: seq<Line>)
    requires WellLeveled(lines)
  {
    forall i {:trigger SinceLastAt(lines, i)} | 0 <= i < |lines| && lines[i].repeats > 0 :: SinceLastAt(lines, i)
  }

  ghost predicate SinceLastAt(lines: seq<Line>, i: nat)
    requires WellLeveled(lines) && i < |lines|
  {
    exists j: nat ::
      LastWith(lines[..i], LineKey(lines[i]), j) && lines[i].since == lines[i].clock - lines[j].clock
  }

  /** The table remembers when the last line of each of its messages was written. */
  ghost predicate ReportedLast(lines: seq<Line>, repeats: map<bytes, Repeat>)
    requires WellLeveled(lines)
  {
    forall key <- repeats :: exists j: nat :: LastWith(lines, key, j) && lines[j].clock == repeats[key].reported
  }

  ghost predicate Timed(lines: seq<Line>, repeats: map<bytes, Repeat>)
    requires WellLeveled(lines)
  {
    SinceLast(lines) && ReportedLast(lines, repeats)
  }

  lemma LessTimed(lines: seq<Line>, repeats: map<bytes, Repeat>, less: map<bytes, Repeat>)
    requires WellLeveled(lines) && Timed(lines, repeats)
    requires forall key <- less :: key in repeats && less[key].reported == repeats[key].reported
    ensures Timed(lines, less)
  {
    hide KeyOf, SinceLast;
  }

  /** A line more keeps the times of those before it. */
  lemma OneMoreSince(lines: seq<Line>, l: Line)
    requires WellLeveled(lines) && l.level < 5 && SinceLast(lines)
    requires l.repeats > 0 ==> exists j: nat :: LastWith(lines, LineKey(l), j) && l.since == l.clock - lines[j].clock
    ensures SinceLast(lines + [l])
  {
    hide KeyOf;
    var more := lines + [l];
    forall i | 0 <= i < |more| && more[i].repeats > 0 ensures SinceLastAt(more, i) {
      if i < |lines| {
        assert more[..i] == lines[..i] && SinceLastAt(lines, i);
      } else {
        assert more[..i] == lines;
        var j: nat :| LastWith(lines, LineKey(l), j) && l.since == l.clock - lines[j].clock;
        assert LastWith(more[..i], LineKey(more[i]), j);
      }
    }
  }

  /** Entries for other messages stay as they are, and the line's own starts anew. */
  lemma OneMoreReported(lines: seq<Line>, repeats: map<bytes, Repeat>, l: Line, after: map<bytes, Repeat>)
    requires WellLeveled(lines) && l.level < 5 && ReportedLast(lines, repeats)
    requires forall key <- after :: if key == LineKey(l) then after[key].reported == l.clock
                                    else key in repeats && after[key] == repeats[key]
    ensures ReportedLast(lines + [l], after)
  {
    hide KeyOf;
    var more := lines + [l];
    forall key <- after ensures exists j: nat :: LastWith(more, key, j) && more[j].clock == after[key].reported {
      if key == LineKey(l) {
        assert LastWith(more, key, |lines|);
      } else {
        var j: nat :| LastWith(lines, key, j) && lines[j].clock == repeats[key].reported;
        assert LastWith(more, key, j);
      }
    }
  }

  /** The line may have a count only for a message in the table, and then with the time since its last report. */
  lemma OneMoreTimed(lines: seq<Line>, repeats: map<bytes, Repeat>, l: Line, after: map<bytes, Repeat>)
    requires WellLeveled(lines) && l.level < 5 && Timed(lines, repeats)
    requires l.repeats > 0 ==> LineKey(l) in repeats && l.since == l.clock - repeats[LineKey(l)].reported
    requires forall key <- after :: if key == LineKey(l) then after[key].reported == l.clock
                                    else key in repeats && after[key] == repeats[key]
    ensures Timed(lines + [l], after)
  {
    hide KeyOf, SinceLast, LastWith;
    OneMoreSince(lines, l);
    OneMoreReported(lines, repeats, l, after);
  }

  /** Lines below a warning are for no message of the table. */
  lemma LowKey(l: Line, key: bytes)
    requires l.level < WARN && IsKey(key)
    ensures LineKey(l) != key
  {
  }

  // ---- The clocks of new lines ----

  /** The lines from this position on have one of two clocks. */
  ghost predicate Stamped(lines: seq<Line>, from: nat, clock: int, later: int) {
    forall i | from <= i < |lines| :: lines[i].clock == clock || lines[i].clock == later
  }

  lemma CountsAreStamped(lines: seq<Line>, from: nat, gone: map<bytes, Repeat>, clock: int, later: int)
    requires from <= |lines| && (forall key <- gone :: IsKey(key)) && Reported(lines[from..], gone, later)
    ensures Stamped(lines, from, clock, later)
  {
    hide Report;
    ReportedClock(lines[from..], gone, later);
    assert forall i | from <= i < |lines| :: lines[i] == lines[from..][i - from] && lines[i] in lines[from..];
  }

  lemma StampedTogether(lines: seq<Line>, middle: seq<Line>, from: nat, clock: int, later: int)
    requires middle <= lines && Stamped(middle, from, clock, later) && Stamped(lines, |middle|, clock, later)
    ensures Stamped(lines, from, clock, later)
  {
  }
}
