/**
  The logger (src/common/log.cpp): a warning or error repeated verbatim is counted instead of written.

  The class keeps, as ghost state, every line emitted and the key and tag of every message logged; its invariant
  relates them over any run of `Write`, `Flush` and `SetFile`.
 */
module Logger {
  import opened Bytes
  import opened LogCounts
  import opened LogFile
  import opened LogTimes
  import opened LogTokens
  import Redaction

  class Log {
    const period: nat
    const file: BufferedFile
    /** How a line is formatted; the formatting itself is not modelled. */
    const render: Line -> bytes
    var repeats: map<bytes, Repeat>
    var swept: int

    ghost var lines: seq<Line>
    ghost var calls: seq<bytes>
    /** The latest clock of any message so far. */
    ghost var now: int
    /** The number of lines emitted up to the last flush of the repeats. */
    ghost var mark: nat
    /** The tags of the messages in `calls`. */
    ghost var tags: seq<bytes>
    /** What the open file held at first, and the number of lines emitted before it was opened. */
    ghost var base: bytes
    ghost var openedAt: nat

    /** The open file and its buffer hold every line since it was opened, in order. */
    ghost predicate FileHolds()
      reads `lines, `base, `openedAt, file, file.pending
    {
      file.Valid() && openedAt <= |lines| &&
      (file.open ==> file.emitted == base + Rendered(render, lines[openedAt..]))
    }

    /** The table is bounded, its keys can be taken apart again, and no occurrence is lost. */
    ghost predicate TableHolds()
      reads this
    {
      && period > 0 && WellLeveled(lines) && mark <= |lines|
      && |repeats| <= TABLE_KEYS && (forall key <- repeats :: IsKey(key))
      && Conserves(lines, repeats, calls)
    }

    ghost predicate Valid()
      reads this, file, file.pending
    {
      && FileHolds() && TableHolds()
      && Past(lines, mark, repeats, swept, now) && Traced(lines, calls, tags) && Timed(lines, repeats)
    }

    /**
      Lines and table are free of access tokens if and only if every tag logged is; and their texts are as long as no
      tag has a NUL, whatever else it has.
     */
    ghost predicate TokensFromTags()
      reads `lines, `repeats, `tags
    {
      && (forall key <- repeats :: IsKey(key))
      && (TokenFree(lines, repeats) <==> NoTokens(tags))
      && ((forall tag <- tags :: NulFree(tag)) ==> TextsFree(lines, repeats))
    }

    lemma TokensTold()
      requires Valid()
      ensures TokensFromTags()
    {
      hide FileHolds, Conserves, Past, Traced, Timed, TokenFree, TextsFree, NulFree, IsKey, EntriesWritten;
      TimedIsWritten(lines, repeats);
      TokensComeFromTags(lines, repeats, calls, tags);
      if forall tag <- tags :: NulFree(tag) {
        TextsStayFree(lines, repeats, calls, tags);
      }
    }

    /** Every line with a count gives the time since the last line before it for the same message. */
    lemma TimesTold()
      requires Valid()
      ensures WellLeveled(lines) && SinceLast(lines)
    {
      hide FileHolds, Conserves, Past, Traced, IsKey;
    }

    /** No entry was last seen more than a period before the last sweep. */
    ghost predicate Recent()
      reads `repeats, `swept
    {
      Fresh(repeats, swept, period)
    }

    /** Lines with a count for one message are a period apart since the last flush, and the next one will be. */
    ghost predicate CountsApart()
      reads `lines, `mark, `repeats, `swept
    {
      WellLeveled(lines) && Apart(lines, mark, repeats, swept, period)
    }

    constructor (period: nat, interval: nat, render: Line -> bytes)
      requires period > 0
      ensures Valid() && CountsApart() && Recent() && TokensFromTags() && fresh(file) && fresh(file.pending)
      ensures lines == [] && calls == [] && tags == [] && repeats == map[] && this.period == period
      ensures swept == 0 && now == 0 && mark == 0 && !file.open && file.interval == interval && this.render == render
    {
      this.period := period;
      this.file := new BufferedFile(interval);
      this.render := render;
      repeats, swept, lines, calls := map[], 0, [], [];
      now, mark, tags, base, openedAt := 0, 0, [], [], 0;
    }

    /** The buffer after a line. */
    function OneMore(l: Line, b: Buffer): Buffer {
      Appended(b, |render(l)|, l.level >= WARN, l.clock, file.interval)
    }

    /** Counts written since position `from`, at `clock`, have emptied the buffer; else it is as it was. */
    ghost predicate Settled(from: nat, b: Buffer, clock: int)
      reads `lines, file
    {
      from <= |lines| && (file.open ==> file.State() == if |lines| > from then Buffer(0, clock) else b)
    }

    /**
      The buffer after a message: `counts` says whether counts were written before its own line, if it has one. They
      are warnings and errors, so they empty it.
     */
    function AfterMessage(l: Line, written: bool, counts: bool, b: Buffer): Buffer {
      var found := if counts then Buffer(0, l.clock) else b;
      if written then OneMore(l, found) else found
    }

    method Emit(l: Line)
      requires FileHolds() && l.level < 5
      modifies this`lines, file, file.pending
      ensures FileHolds() && file.open == old(file.open)
      ensures lines == old(lines) + [l]
      ensures file.open && l.level >= WARN ==> file.content == file.emitted && file.pendingSize == 0
      ensures file.open ==> file.State() == OneMore(l, old(file.State()))
    {
      hide BufferedFile.Valid, Rendered;
      OneMoreRendered(render, lines[openedAt..], l);
      assert (lines + [l])[openedAt..] == lines[openedAt..] + [l];
      file.Append(render(l), l.level >= WARN, l.clock);
      lines := lines + [l];
    }

    /** The table is being written out; `left` is the part whose counts are not yet written. */
    ghost predicate WritingOut(left: map<bytes, Repeat>)
      reads this, file, file.pending
    {
      && FileHolds() && WellLeveled(lines) && Conserves(lines, left, calls)
      && (forall key <- repeats :: IsKey(key))
      && (forall key <- left :: key in repeats && left[key] == repeats[key])
      && Traced(lines, calls, tags) && Timed(lines, left)
    }

    /** Writes what the table has suppressed for one key. */
    method EmitReport(key: bytes, clock: int, ghost left: map<bytes, Repeat>)
      requires WritingOut(left) && key in left && key in repeats
      modifies this`lines, file, file.pending
      ensures WritingOut(left - {key}) && file.open == old(file.open)
      ensures IsKey(key)
      ensures lines ==
              if repeats[key].suppressed > 0 then old(lines) + [Report(key, repeats[key], clock)] else old(lines)
      ensures file.open ==>
        file.State() == if repeats[key].suppressed > 0 then Buffer(0, clock) else old(file.State())
    {
      hide Traced, Timed, NulFree;
      if repeats[key].suppressed > 0 {
        SplitKeyIsKey(key);
        var l := Report(key, repeats[key], clock);
        ReportConserves(lines, left, calls, l);
        TagIsNulFree(key);
        ReportTraced(lines, calls, tags, l);
        OneMoreTimed(lines, left, l, left - {key});
        Emit(l);
      } else {
        ForgetConserves(lines, left, calls, key);
        LessTimed(lines, left, left - {key});
      }
    }

    /** The counts of all entries but those in `rest` are among the lines since position `from`. */
    ghost predicate Emitting(rest: set<bytes>, from: nat, clock: int)
      reads this, file, file.pending
    {
      && rest <= repeats.Keys && from <= |lines|
      && WritingOut(map key <- repeats | key in rest :: repeats[key])
      && Reported(lines[from..], repeats - rest, clock)
    }

    method EmitNext(key: bytes, clock: int, ghost rest: set<bytes>, ghost from: nat)
      requires Emitting(rest, from, clock) && key in rest
      modifies this`lines, file, file.pending
      ensures Emitting(rest - {key}, from, clock) && file.open == old(file.open) && old(lines) <= lines
    {
      hide WritingOut, Report, Reported, IsKey;
      ghost var left, gone := map k <- repeats | k in rest :: repeats[k], repeats - rest;
      ghost var more, r := lines[from..], repeats[key];
      WritingOutKeys(left);
      ReportOne(more, gone, key, r, clock);
      EmitReport(key, clock, left);
      assert lines[from..] == if r.suppressed > 0 then more + [Report(key, r, clock)] else more;
      assert left - {key} == map k <- repeats | k in rest - {key} :: repeats[k];
      assert gone[key := repeats[key]] == repeats - (rest - {key});
    }

    lemma WritingOutKeys(left: map<bytes, Repeat>)
      requires WritingOut(left)
      ensures forall key <- repeats :: IsKey(key)
    {
    }

    method EmitReports(clock: int)
      requires WritingOut(repeats)
      modifies this`lines, file, file.pending
      ensures WritingOut(map[]) && file.open == old(file.open)
      ensures old(lines) <= lines && Reported(lines[|old(lines)|..], repeats, clock)
    {
      hide *;
      var rest := repeats.Keys;
      EmittingStarts(clock);
      while rest != {}
        invariant Emitting(rest, |old(lines)|, clock) && file.open == old(file.open) && old(lines) <= lines
        decreases rest
      {
        var key :| key in rest;
        EmitNext(key, clock, rest, |old(lines)|);
        rest := rest - {key};
      }
      EmittingEnds(rest, |old(lines)|, clock);
    }

    lemma EmittingStarts(clock: int)
      requires WritingOut(repeats)
      ensures Emitting(repeats.Keys, |lines|, clock)
    {
      hide IsKey, Report, Timed, Traced, FileHolds, Conserves;
      assert repeats == map key <- repeats | key in repeats.Keys :: repeats[key];
      assert repeats - repeats.Keys == map[];
    }

    lemma EmittingEnds(rest: set<bytes>, from: nat, clock: int)
      requires Emitting(rest, from, clock)
      ensures rest == {} ==> WritingOut(map[]) && from <= |lines| && Reported(lines[from..], repeats, clock)
    {
      hide WritingOut, Reported, IsKey;
      var left := map key <- repeats | key in rest :: repeats[key];
      assert rest == {} ==> left == map[] && repeats - rest == repeats;
    }

    /** Writes every pending count and forgets all messages. */
    method FlushRepeats(clock: int)
      requires Valid()
      modifies this`repeats, this`lines, this`mark, file, file.pending
      ensures Valid() && CountsApart() && file.open == old(file.open)
      ensures repeats == map[] && mark == |lines| && forall key <- old(repeats) :: IsKey(key)
      ensures old(lines) <= lines && Reported(lines[|old(lines)|..], old(repeats), clock)
    {
      hide Conserves, FileHolds, Reported, IsKey, Traced, Timed;
      EmitReports(clock);
      repeats := map[];
      mark := |lines|;
    }

    /** Drops one entry not seen for a period, writing its count if it has one. */
    method Expire(key: bytes, clock: int)
      requires Valid() && clock <= now && clock - swept >= period
      requires key in repeats && clock - repeats[key].last >= period
      modifies this`repeats, this`lines, file, file.pending
      ensures Valid() && file.open == old(file.open) && (old(CountsApart()) ==> CountsApart())
      ensures IsKey(key) && repeats == old(repeats) - {key}
      ensures lines == if old(repeats)[key].suppressed > 0 then old(lines) + [Report(key, old(repeats)[key], clock)]
                       else old(lines)
      ensures file.open ==>
        file.State() == if old(repeats)[key].suppressed > 0 then Buffer(0, clock) else old(file.State())
    {
      hide FileHolds, Conserves, Traced, Timed, WellLeveled, Apart, Report, IsKey, Past;
      ExpireApart(key, clock);
      EmitReport(key, clock, repeats);
      WithoutOne(repeats, key);
      repeats := repeats - {key};
    }

    lemma ExpireApart(key: bytes, clock: int)
      requires Valid() && clock <= now && clock - swept >= period
      requires key in repeats && clock - repeats[key].last >= period
      ensures IsKey(key)
      ensures var l, less := Report(key, repeats[key], clock), repeats - {key};
              var more := if repeats[key].suppressed > 0 then lines + [l] else lines;
        && WellLeveled(more) && Past(more, mark, less, swept, now)
        && (Apart(lines, mark, repeats, swept, period) ==> Apart(more, mark, less, swept, period))
    {
      hide FileHolds, Conserves, Traced, Timed, Apart;
      SplitKeyIsKey(key);
      if Apart(lines, mark, repeats, swept, period) {
        if repeats[key].suppressed > 0 {
          ReportIsApart(lines, mark, repeats, swept, period, Report(key, repeats[key], clock));
        } else {
          LessIsApart(lines, mark, repeats, swept, period, repeats - {key}, swept);
        }
      }
    }

    /** The table was `before` and the buffer `b`; the entries in `rest` are still to be looked at. */
    ghost predicate Sweeping(rest: set<bytes>, before: map<bytes, Repeat>, from: nat, b: Buffer, clock: int)
      reads `repeats, `lines, file
    {
      && rest <= repeats.Keys && from <= |lines|
      && (forall key <- repeats :: key in before && repeats[key] == before[key])
      && (forall key <- before :: key in repeats <==> key in rest || clock - before[key].last < period)
      && (forall key <- before - repeats.Keys :: IsKey(key))
      && Reported(lines[from..], before - repeats.Keys, clock) && Settled(from, b, clock)
    }

    method SweepNext(key: bytes, clock: int, ghost rest: set<bytes>, ghost before: map<bytes, Repeat>, ghost from: nat,
                     ghost b: Buffer)
      requires Valid() && clock <= now && clock - swept >= period
      requires Sweeping(rest, before, from, b, clock) && key in rest && key in repeats
      modifies this`repeats, this`lines, file, file.pending
      ensures Valid() && file.open == old(file.open) && (old(CountsApart()) ==> CountsApart())
      ensures Sweeping(rest - {key}, before, from, b, clock) && old(lines) <= lines
    {
      hide Valid, CountsApart, Report, Reported, IsKey;
      if clock - repeats[key].last >= period {
        ghost var r, gone := repeats[key], before - repeats.Keys;
        ghost var more := lines[from..];
        Expire(key, clock);
        ReportOne(more, gone, key, r, clock);
        assert lines[from..] == if r.suppressed > 0 then more + [Report(key, r, clock)] else more;
        assert gone[key := r] == before - repeats.Keys;
      }
    }

    /** Writes the count of every message not seen for a period and forgets those messages. */
    method SweepRepeats(clock: int)
      requires Valid() && clock <= now && clock - swept >= period
      modifies this`repeats, this`lines, file, file.pending
      ensures Valid() && file.open == old(file.open) && (old(CountsApart()) ==> CountsApart())
      ensures repeats == Remaining(old(repeats), swept, clock, period)
      ensures forall key <- old(repeats) - repeats.Keys :: IsKey(key)
      ensures old(lines) <= lines && Reported(lines[|old(lines)|..], old(repeats) - repeats.Keys, clock)
      ensures Settled(|old(lines)|, old(file.State()), clock)
    {
      hide *;
      var rest := repeats.Keys;
      SweepStarts(clock);
      while rest != {}
        invariant Valid() && file.open == old(file.open) && (old(CountsApart()) ==> CountsApart())
        invariant Sweeping(rest, old(repeats), |old(lines)|, old(file.State()), clock)
        invariant rest <= repeats.Keys && old(lines) <= lines
        decreases rest
      {
        var key :| key in rest;
        SweepNext(key, clock, rest, old(repeats), |old(lines)|, old(file.State()));
        rest := rest - {key};
        StillThere(rest, old(repeats), |old(lines)|, old(file.State()), clock);
      }
      SweepEnds(old(repeats), |old(lines)|, old(file.State()), clock);
    }

    lemma SweepStarts(clock: int)
      ensures Sweeping(repeats.Keys, repeats, |lines|, file.State(), clock)
    {
      hide IsKey, Report;
      assert repeats - repeats.Keys == map[];
    }

    lemma SweepEnds(before: map<bytes, Repeat>, from: nat, b: Buffer, clock: int)
      requires Sweeping({}, before, from, b, clock) && clock - swept >= period
      ensures repeats == Remaining(before, swept, clock, period)
      ensures forall key <- before - repeats.Keys :: IsKey(key)
      ensures from <= |lines| && Reported(lines[from..], before - repeats.Keys, clock) && Settled(from, b, clock)
    {
      hide IsKey, Reported;
    }

    lemma StillThere(rest: set<bytes>, before: map<bytes, Repeat>, from: nat, b: Buffer, clock: int)
      requires Sweeping(rest, before, from, b, clock)
      ensures rest <= repeats.Keys
    {
    }

    /** A copy within the period: counted, not written. */
    method CountOnly(l: Line)
      requires Valid() && l.level < 5 && LineKey(l) in repeats && l.clock - repeats[LineKey(l)].reported < period
      requires l.clock <= now && Redaction.NoToken(l.message, true)
      modifies this`repeats, this`calls, this`tags
      ensures Valid() && calls == old(calls) + [LineKey(l)] && tags == old(tags) + [l.tag]
      ensures repeats == old(repeats)[LineKey(l) := Again(old(repeats)[LineKey(l)], l.clock)]
      ensures old(CountsApart()) ==>
        (CountsApart() <==> NotAfter(lines, mark, LineKey(l), if l.clock > swept then l.clock else swept))
    {
      hide FileHolds, Conserves, Apart, Traced, Timed, KeyOf, Redaction.NoToken;
      var key := LineKey(l);
      var again := Again(repeats[key], l.clock);
      SuppressConserves(lines, repeats, calls, key, again);
      CountTraced(lines, calls, tags, l);
      LessTimed(lines, repeats, repeats[key := again]);
      if CountsApart() {
        CountIsApart(lines, mark, repeats, swept, period, key, l.clock);
      }
      repeats := repeats[key := again];
      calls, tags := calls + [key], tags + [l.tag];
    }

    /** What a line for this key may say: a count of everything since the last report, or none. */
    ghost predicate MayWrite(l: Line)
      reads this
      requires l.level < 5
    {
      if l.level < WARN then l.repeats == 0
      else if LineKey(l) in repeats then
        l.clock - repeats[LineKey(l)].reported >= period && l.since == l.clock - repeats[LineKey(l)].reported &&
        l.repeats == if repeats[LineKey(l)].suppressed > 0 then repeats[LineKey(l)].suppressed + 1 else 0
      else l.repeats == 0 && |repeats| < TABLE_KEYS
    }

    function Restarted(l: Line): map<bytes, Repeat>
      reads this
      requires l.level < 5
    {
      if l.level >= WARN then repeats[LineKey(l) := Repeat(l.clock, l.clock, 0)] else repeats
    }

    method WriteLine(l: Line)
      requires Valid() && l.level < 5 && MayWrite(l) && l.clock <= now
      requires Redaction.NoToken(l.message, true)
      modifies this`repeats, this`calls, this`tags, this`lines, file, file.pending
      ensures Valid() && file.open == old(file.open)
      ensures calls == old(calls) + [LineKey(l)] && tags == old(tags) + [l.tag]
      ensures lines == old(lines) + [l] && repeats == old(Restarted(l))
      ensures file.open && l.level >= WARN ==> file.content == file.emitted && file.pendingSize == 0
      ensures file.open ==> file.State() == OneMore(l, old(file.State()))
      ensures old(CountsApart()) ==>
        (CountsApart() <==>
         l.level < WARN || LineKey(l) in old(repeats) || NotAfter(old(lines), mark, LineKey(l), l.clock))
    {
      hide FileHolds, Conserves, IsKey, Apart, Traced, Timed, Past;
      WriteLineConserves(l);
      WriteLineApart(l);
      WriteTraced(lines, calls, tags, l);
      WriteLineTimed(l);
      WriteLineTable(l);
      if l.level >= WARN {
        repeats := repeats[LineKey(l) := Repeat(l.clock, l.clock, 0)];
      }
      calls, tags := calls + [LineKey(l)], tags + [l.tag];
      Emit(l);
    }

    lemma WriteLineTimed(l: Line)
      requires Valid() && l.level < 5 && MayWrite(l)
      ensures Timed(lines + [l], Restarted(l))
    {
      hide FileHolds, Conserves, Past, Traced, Timed, KeyOf;
      if l.level < WARN {
        forall key <- repeats ensures LineKey(l) != key {
          LowKey(l, key);
        }
      }
      OneMoreTimed(lines, repeats, l, Restarted(l));
    }

    lemma WriteLineConserves(l: Line)
      requires Valid() && l.level < 5 && MayWrite(l)
      ensures Conserves(lines + [l], Restarted(l), calls + [LineKey(l)])
    {
      hide FileHolds, Past, Traced, Timed;
      WriteConserves(lines, repeats, Restarted(l), calls, l);
    }

    lemma WriteLineApart(l: Line)
      requires Valid() && l.level < 5 && MayWrite(l) && l.clock <= now
      ensures Past(lines + [l], mark, Restarted(l), swept, now)
      ensures CountsApart() ==>
        (Apart(lines + [l], mark, Restarted(l), swept, period) <==>
         l.level < WARN || LineKey(l) in repeats || NotAfter(lines, mark, LineKey(l), l.clock))
    {
      hide FileHolds, Conserves, Traced, Timed, Apart;
      if CountsApart() {
        if l.level >= WARN {
          WriteIsApart(lines, mark, repeats, swept, period, l);
        } else {
          LineIsApart(lines, mark, repeats, swept, period, l);
        }
      }
    }

    lemma WriteLineTable(l: Line)
      requires Valid() && l.level < 5 && MayWrite(l)
      ensures |Restarted(l)| <= TABLE_KEYS && forall key <- Restarted(l) :: IsKey(key)
    {
      hide FileHolds, Conserves, Past, Traced, Timed;
      if l.level >= WARN {
        KeyIsKey(l.level, l.tag, l.message);
        var key := LineKey(l);
        assert Restarted(l).Keys == repeats.Keys + {key};
        assert |repeats| == |repeats.Keys| && |Restarted(l)| == |Restarted(l).Keys|;
      }
    }

    /** Time passes to `clock`, or has gone back to it. */
    ghost method Pass(clock: int)
      requires Valid()
      modifies this`now
      ensures Valid() && now == if clock > old(now) then clock else old(now)
    {
      hide FileHolds, Conserves, Traced, Timed, IsKey, WellLeveled;
      now := if clock > now then clock else now;
    }

    /** The table is swept if a period has passed since the last sweep; the lines written are the counts dropped. */
    method SweepIfDue(clock: int)
      requires Valid() && clock <= now
      modifies this`repeats, this`lines, this`swept, file, file.pending
      ensures Valid() && file.open == old(file.open) && (old(CountsApart()) ==> CountsApart())
      ensures swept == SweptBy(old(swept), clock, period)
      ensures repeats == Remaining(old(repeats), old(swept), clock, period)
      ensures forall key <- old(repeats) - repeats.Keys :: IsKey(key)
      ensures old(lines) <= lines && Reported(lines[|old(lines)|..], old(repeats) - repeats.Keys, clock)
      ensures Settled(|old(lines)|, old(file.State()), clock)
    {
      hide FileHolds, Conserves, Traced, Timed, IsKey, Apart;
      if clock - swept >= period {
        SweepRepeats(clock);
        if CountsApart() {
          LessIsApart(lines, mark, repeats, swept, period, repeats, clock);
        }
        swept := clock;
      }
    }

    /** A message the table has no entry for: a full table is written out and emptied first. */
    method RecordNew(l: Line, later: int)
      requires Valid() && l.level < 5 && (l.level < WARN || LineKey(l) !in repeats) && l.repeats == 0 && l.clock <= now
      requires Redaction.NoToken(l.message, true)
      modifies this`repeats, this`calls, this`tags, this`lines, this`mark, file, file.pending
      ensures Valid() && file.open == old(file.open)
      ensures calls == old(calls) + [LineKey(l)] && tags == old(tags) + [l.tag]
      ensures old(lines) < lines && WrittenLast(l) && (l.level < WARN ==> lines == old(lines) + [l])
      ensures file.open ==> file.State() == OneMore(l, old(file.State()))
      ensures Stamped(lines, |old(lines)|, l.clock, later)
      ensures l.level < WARN || |old(repeats)| < TABLE_KEYS ==> mark == old(mark)
      ensures repeats == TableAfter(l, old(repeats), period)
      ensures old(CountsApart()) ==> (CountsApart() <==> old(Prompt(l, lines, mark, repeats, swept, period)))
    {
      hide FileHolds, Conserves, Traced, Timed, Redaction.NoToken, IsKey, WellLeveled, Apart;
      if l.level >= WARN && |repeats| >= TABLE_KEYS {
        FlushRepeats(later);
        CountsAreStamped(lines, |old(lines)|, old(repeats), l.clock, later);
      }
      ghost var before := lines;
      WriteLine(l);
      StampedTogether(lines, before, |old(lines)|, l.clock, later);
    }

    /** A line written after copies of it were counted says so, and since when. */
    function WithCount(l: Line, r: Repeat): Line {
      l.(repeats := if r.suppressed > 0 then r.suppressed + 1 else 0, since := l.clock - r.reported)
    }

    /** A warning or error the table knows: within a period it is counted, after that written with the count. */
    method RecordKnown(l: Line) returns (written: bool)
      requires Valid() && WARN <= l.level < 5 && LineKey(l) in repeats && l.repeats == 0 && l.clock <= now
      requires Redaction.NoToken(l.message, true)
      modifies this`repeats, this`calls, this`tags, this`lines, file, file.pending
      ensures Valid() && file.open == old(file.open)
      ensures calls == old(calls) + [LineKey(l)] && tags == old(tags) + [l.tag]
      ensures if written then old(lines) < lines else old(lines) == lines
      ensures Stamped(lines, |old(lines)|, l.clock, l.clock)
      ensures file.open ==> file.State() == if written then Buffer(0, l.clock) else old(file.State())
      ensures var r := old(repeats)[LineKey(l)];
        && (written <==> l.clock - r.reported >= period)
        && (written ==> WrittenLast(WithCount(l, r)))
      ensures repeats == TableAfter(l, old(repeats), period)
      ensures old(CountsApart()) ==> (CountsApart() <==> old(Prompt(l, lines, mark, repeats, swept, period)))
    {
      hide FileHolds, Conserves, Traced, Timed, Redaction.NoToken, IsKey, WellLeveled, Apart;
      var key := LineKey(l);
      var r := repeats[key];
      if l.clock - r.reported < period {
        CountOnly(l);
        return false;
      }
      WriteLine(WithCount(l, r));
      return true;
    }

    /** Counts or writes a message for which the sweep has been done. */
    method Record(level: nat, tag: bytes, message: bytes, clock: int, later: int) returns (written: bool)
      requires Valid() && level < 5 && clock <= now
      requires Redaction.NoToken(message, true)
      modifies this`repeats, this`calls, this`tags, this`lines, this`mark, file, file.pending
      ensures Valid() && file.open == old(file.open)
      ensures calls == old(calls) + [KeyOf(level, tag, message)] && tags == old(tags) + [tag]
      ensures Recorded(Line(level, tag, message, clock, 0, 0), written, old(repeats), old(mark))
      ensures repeats == TableAfter(Line(level, tag, message, clock, 0, 0), old(repeats), period)
      ensures old(CountsApart()) ==>
        (CountsApart() <==> old(Prompt(Line(level, tag, message, clock, 0, 0), lines, mark, repeats, swept, period)))
      ensures if written then old(lines) < lines else old(lines) == lines
      ensures level < WARN ==> written && |lines| == |old(lines)| + 1
      ensures Stamped(lines, |old(lines)|, clock, later)
      ensures file.open ==>
        file.State() == AfterMessage(Line(level, tag, message, clock, 0, 0), written, false, old(file.State()))
    {
      hide Valid, CountsApart, Prompt, Redaction.NoToken, TableAfter, WrittenLast;
      var l := Line(level, tag, message, clock, 0, 0);
      if level >= WARN && LineKey(l) in repeats {
        written := RecordKnown(l);
      } else {
        RecordNew(l, later);
        written := true;
      }
    }

    /** `l` is the last line, and a warning or error is in the file already. */
    ghost predicate WrittenLast(l: Line)
      reads `lines, file
    {
      && lines != [] && lines[|lines| - 1] == l
      && (file.open && l.level >= WARN ==> file.content == file.emitted && file.pendingSize == 0)
    }

    /**
      A message was written as the last line, with the count of the copies before it; or only the table has it. The
      position of the last flush moves only for a new message that finds the table full.
     */
    ghost predicate Recorded(l: Line, written: bool, before: map<bytes, Repeat>, from: nat)
      requires l.level < 5
      reads `lines, `mark, file
    {
      var key := LineKey(l);
      && (l.level < WARN || key in before || |before| < TABLE_KEYS ==> mark == from)
      && if l.level < WARN || key !in before then written && WrittenLast(l)
      else if before[key].reported + period <= l.clock then written && WrittenLast(WithCount(l, before[key]))
      else !written
    }

    /** What a message at `clock` finds in the table. */
    function Found(clock: int): map<bytes, Repeat>
      reads `repeats, `swept
    {
      Remaining(repeats, swept, clock, period)
    }

    /** The counts a sweep dropped are among the lines written since; they are all, if the message was only counted. */
    ghost predicate Accounted(from: nat, gone: map<bytes, Repeat>, clock: int, written: bool)
      reads `lines
    {
      AccountedIn(lines, from, gone, clock, written)
    }

    /** What comes before the message itself: the clock and the sweep, if one is due. */
    method Begin(ghost l: Line, clock: int)
      requires Valid() && l.level < 5 && l.clock == clock
      modifies this`repeats, this`lines, this`swept, this`now, file, file.pending
      ensures Valid() && file.open == old(file.open) && (old(CountsApart()) ==> CountsApart())
      ensures old(lines) <= lines && Accounted(|old(lines)|, old(repeats) - repeats.Keys, clock, false)
      ensures now == if clock > old(now) then clock else old(now)
      ensures Settled(|old(lines)|, old(file.State()), clock) && Stamped(lines, |old(lines)|, clock, clock)
      ensures repeats == old(Found(clock)) && swept == SweptBy(old(swept), clock, period)
      ensures WellLeveled(lines) && WellLeveled(old(lines))
      ensures Prompt(l, lines, mark, repeats, swept, period) <==> Prompt(l, old(lines), mark, repeats, swept, period)
    {
      hide Valid, CountsApart, Redaction.NoToken, Reported, IsKey, Prompt, WellLeveled;
      Pass(clock);
      SweepIfDue(clock);
      SweepIsPrompt(old(lines), l, old(repeats) - repeats.Keys);
      CountsAreStamped(lines, |old(lines)|, old(repeats) - repeats.Keys, clock, clock);
    }

    /** The section under the lock: the sweep, if one is due, and the message. */
    method Enter(level: nat, tag: bytes, message: bytes, clock: int, later: int) returns (written: bool)
      requires Valid() && level < 5 && Redaction.NoToken(message, true)
      modifies this`repeats, this`calls, this`tags, this`lines, this`swept, this`now, this`mark, file, file.pending
      ensures Valid() && file.open == old(file.open)
      ensures calls == old(calls) + [KeyOf(level, tag, message)] && tags == old(tags) + [tag]
      ensures old(lines) <= lines && Accounted(|old(lines)|, old(repeats) - old(Found(clock)).Keys, clock, written)
      ensures now == if clock > old(now) then clock else old(now)
      ensures swept == SweptBy(old(swept), clock, period)
      ensures var l, before := Line(level, tag, message, clock, 0, 0), old(Found(clock));
        Recorded(l, written, before, old(mark)) && repeats == TableAfter(l, before, period)
      ensures WellLeveled(old(lines)) &&
        (old(CountsApart()) ==>
         (CountsApart() <==>
          Prompt(Line(level, tag, message, clock, 0, 0), old(lines), old(mark), old(Found(clock)), swept, period)))
      ensures written ==> |lines| > |old(lines)|
      ensures Stamped(lines, |old(lines)|, clock, later)
      ensures file.open ==>
        file.State() == AfterMessage(Line(level, tag, message, clock, 0, 0), written,
                                     |lines| > |old(lines)| + (if written then 1 else 0), old(file.State()))
    {
      hide *;
      Begin(Line(level, tag, message, clock, 0, 0), clock);
      ghost var middle, b := lines, file.State();
      AccountedNow(|old(lines)|, old(repeats) - repeats.Keys, clock);
      SettledNow(|old(lines)|, old(file.State()), clock);
      written := Record(level, tag, message, clock, later);
      StillAccounted(|old(lines)|, middle, old(repeats) - old(Found(clock)).Keys, clock, written);
      SweptStamped(|old(lines)|, middle, clock, later);
      BothSteps(Line(level, tag, message, clock, 0, 0), written, |old(lines)|, |middle|, old(file.State()), b);
    }

    /** The buffer was `b` before the sweep and `between` after it. */
    lemma BothSteps(l: Line, written: bool, from: nat, middle: nat, b: Buffer, between: Buffer)
      requires from <= middle && (if written then middle < |lines| else middle == |lines|)
      requires l.level < WARN ==> written && |lines| == middle + 1
      requires file.open ==> between == if middle > from then Buffer(0, l.clock) else b
      requires file.open ==> file.State() == AfterMessage(l, written, false, between)
      ensures file.open ==>
        file.State() == AfterMessage(l, written, |lines| > from + (if written then 1 else 0), b)
    {
    }

    lemma SweptStamped(from: nat, middle: seq<Line>, clock: int, later: int)
      requires middle <= lines && Stamped(middle, from, clock, clock) && Stamped(lines, |middle|, clock, later)
      ensures Stamped(lines, from, clock, later)
    {
      StampedTogether(lines, middle, from, clock, later);
    }

    lemma SettledNow(from: nat, b: Buffer, clock: int)
      requires Settled(from, b, clock)
      ensures from <= |lines| && (file.open ==> file.State() == if |lines| > from then Buffer(0, clock) else b)
    {
    }

    lemma SweepIsPrompt(from: seq<Line>, l: Line, gone: map<bytes, Repeat>)
      requires Valid() && from <= lines && l.level < 5 && (forall key <- gone :: IsKey(key))
      requires Reported(lines[|from|..], gone, l.clock)
      ensures WellLeveled(from) && WellLeveled(lines)
      ensures Prompt(l, lines, mark, repeats, swept, period) <==> Prompt(l, from, mark, repeats, swept, period)
      ensures Accounted(|from|, gone, l.clock, false)
    {
      hide FileHolds, Conserves, Traced, Timed, Prompt, IsKey;
      ReportedClock(lines[|from|..], gone, l.clock);
      forall i | |from| <= i < |lines| ensures lines[i].clock == l.clock {
        assert lines[i] == lines[|from|..][i - |from|];
        assert lines[i] in lines[|from|..];
      }
      PromptAfterSweep(l, from, lines, mark, repeats, swept, period);
    }

    lemma AccountedNow(from: nat, gone: map<bytes, Repeat>, clock: int)
      requires Accounted(from, gone, clock, false)
      ensures AccountedIn(lines, from, gone, clock, false) && from <= |lines|
    {
    }

    lemma StillAccounted(from: nat, middle: seq<Line>, gone: map<bytes, Repeat>, clock: int, written: bool)
      requires from <= |middle| && middle <= lines
      requires AccountedIn(middle, from, gone, clock, false) && (!written ==> lines == middle)
      ensures Accounted(from, gone, clock, written)
    {
      hide IsKey, Report;
      assert lines[from..][..|middle| - from] == middle[from..];
    }

    /**
      Logs a message. `clock` is read before the lock is taken; `later` is the clock when a full table is written out.
      Either the table counts the message, or its line is the last one emitted. Lines with a count stay a period apart
      exactly if the message is prompt, and what the table finds stays within two periods exactly if a warning's or
      error's clock is no more than a period before the last sweep. Lines and table are free of tokens exactly if every
      tag logged is. A warning or error empties the buffer exactly if a line is written.
     */
    method Write(level: nat, tag: bytes, message: bytes, clock: int, later: int) returns (written: bool)
      requires Valid() && level < 5
      modifies this`repeats, this`calls, this`tags, this`lines, this`swept, this`now, this`mark, file, file.pending
      ensures Valid() && file.open == old(file.open)
      ensures calls == old(calls) + [KeyOf(level, tag, Redaction.RedactTokens(message))] && tags == old(tags) + [tag]
      ensures TokensFromTags()
      ensures old(lines) <= lines && Accounted(|old(lines)|, old(repeats) - old(Found(clock)).Keys, clock, written)
      ensures now == if clock > old(now) then clock else old(now)
      ensures swept == SweptBy(old(swept), clock, period)
      ensures var l, before := Line(level, tag, Redaction.RedactTokens(message), clock, 0, 0), old(Found(clock));
        Recorded(l, written, before, old(mark)) && repeats == TableAfter(l, before, period)
      ensures WellLeveled(old(lines)) &&
        (old(CountsApart()) ==>
         (CountsApart() <==>
          Prompt(Line(level, tag, Redaction.RedactTokens(message), clock, 0, 0), old(lines), old(mark),
                 old(Found(clock)), swept, period)))
      ensures WellLeveled(lines) && SinceLast(lines) && Stamped(lines, |old(lines)|, clock, later)
      ensures old(Recent()) ==> (Recent() <==> level < WARN || clock >= swept - period)
      ensures Recent() ==> forall key <- repeats :: repeats[key].last > clock - 2 * period
      ensures file.open ==>
        file.State() == AfterMessage(Line(level, tag, Redaction.RedactTokens(message), clock, 0, 0), written,
                                     |lines| > |old(lines)| + (if written then 1 else 0), old(file.State()))
      ensures file.open && level >= WARN ==>
        (file.pendingSize == 0 <==> |lines| > |old(lines)| || old(file.pendingSize) == 0)
    {
      hide *;
      var redacted := Redaction.RedactLoop(message);
      Redaction.RedactionLeavesNoToken(message);
      RecentNow(clock);
      written := Enter(level, tag, redacted, clock, later);
      ghost var l := Line(level, tag, redacted, clock, 0, 0);
      TokensTold();
      TimesTold();
      RecentAfter(l, old(repeats), old(swept));
      EmptiedByLines(l, written, |lines| - |old(lines)|, old(file.State()));
    }

    lemma RecentNow(clock: int)
      requires Valid()
      ensures period > 0 && (Recent() <==> Fresh(repeats, swept, period))
      ensures Found(clock) == Remaining(repeats, swept, clock, period)
      ensures file.State().size == file.pendingSize
    {
    }

    /** The table after the message `l`; it was `before`, last swept at `since`. */
    lemma RecentAfter(l: Line, before: map<bytes, Repeat>, since: int)
      requires period > 0 && l.level < 5 && swept == SweptBy(since, l.clock, period)
      requires repeats == TableAfter(l, Remaining(before, since, l.clock, period), period)
      ensures Fresh(before, since, period) ==> (Recent() <==> l.level < WARN || l.clock >= swept - period)
      ensures Recent() ==> forall key <- repeats :: repeats[key].last > l.clock - 2 * period
    {
      hide TableAfter, Remaining, KeyOf;
      if Fresh(before, since, period) {
        TwoPeriodsAfter(l, before, since, period);
      }
    }

    lemma EmptiedByLines(l: Line, written: bool, more: nat, b: Buffer)
      requires (written ==> more > 0)
      requires file.open ==> file.State() == AfterMessage(l, written, more > if written then 1 else 0, b)
      ensures file.open && l.level >= WARN ==> (file.pendingSize == 0 <==> more > 0 || b.size == 0)
    {
    }

    /** Writes every pending count and empties the buffer: the lines then stand for exactly what was logged. */
    method Flush(clock: int)
      requires Valid()
      modifies this`repeats, this`lines, this`mark, file, file.pending
      ensures Valid() && CountsApart() && Recent() && TokensFromTags() && file.open == old(file.open)
      ensures old(lines) <= lines && repeats == map[] && mark == |lines|
      ensures forall key :: StandsFor(lines, key) == Count(calls, key)
      ensures SinceLast(lines) && Stamped(lines, |old(lines)|, clock, clock)
      ensures file.open ==> file.content == base + Rendered(render, lines[openedAt..])
    {
      hide Past, Traced, Timed, Rendered, SinceLast, Stamped, TokensFromTags;
      FlushRepeats(clock);
      CountsAreStamped(lines, |old(lines)|, old(repeats), clock, clock);
      assert forall key :: StandsFor(lines, key) + Suppressed(repeats, key) == Count(calls, key);
      file.FlushFile();
      TokensTold();
      TimesTold();
    }

    /** Completes the old file and continues in another one (holding `existing` already), or in none. */
    method SetFile(existing: Option<bytes>, clock: int) returns (ghost closed: bytes)
      requires Valid()
      modifies this`repeats, this`lines, this`mark, this`base, this`openedAt, file, file.pending
      ensures Valid() && CountsApart() && Recent() && TokensFromTags() && file.open == existing.Some?
      ensures old(lines) <= lines && repeats == map[] && mark == |lines|
      ensures forall key :: StandsFor(lines, key) == Count(calls, key)
      ensures SinceLast(lines) && Stamped(lines, |old(lines)|, clock, clock)
      ensures old(file.open) ==> closed == old(base) + Rendered(render, lines[old(openedAt)..])
      ensures openedAt == |lines|
    {
      hide Past, Traced, Timed, Reported, IsKey, Apart, WellLeveled, SinceLast, Stamped, TokensFromTags;
      FlushRepeats(clock);
      CountsAreStamped(lines, |old(lines)|, old(repeats), clock, clock);
      assert forall key :: StandsFor(lines, key) + Suppressed(repeats, key) == Count(calls, key);
      closed := file.Switch(existing);
      base := match existing case Some(b) => b case None => [];
      openedAt := |lines|;
      assert base + [] == base;
      TokensTold();
      TimesTold();
    }
  }

  ghost predicate AccountedIn(lines: seq<Line>, from: nat, gone: map<bytes, Repeat>, clock: int, written: bool) {
    && from <= |lines| && (forall key <- gone :: IsKey(key))
    && (!written ==> Reported(lines[from..], gone, clock))
    && forall key <- gone :: gone[key].suppressed > 0 ==> Report(key, gone[key], clock) in lines[from..]
  }

  lemma WithoutOne(repeats: map<bytes, Repeat>, key: bytes)
    requires forall k <- repeats :: IsKey(k)
    ensures |repeats - {key}| <= |repeats| && forall k <- repeats - {key} :: IsKey(k)
  {
    assert |repeats| == |repeats.Keys| && |repeats - {key}| == |(repeats - {key}).Keys|;
    assert (repeats - {key}).Keys == repeats.Keys - {key};
  }

  function Rendered(render: Line -> bytes, lines: seq<Line>): bytes {
    if lines == [] then [] else Rendered(render, lines[..|lines| - 1]) + render(lines[|lines| - 1])
  }

  lemma OneMoreRendered(render: Line -> bytes, lines: seq<Line>, l: Line)
    ensures Rendered(render, lines + [l]) == Rendered(render, lines) + render(l)
  {
    assert (lines + [l])[..|lines|] == lines;
  }
}
