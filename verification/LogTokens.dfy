/** What the logger's lines and its table keep of access tokens (src/common/log.cpp, `write`). */
module LogTokens {
  import opened Bytes
  import opened LogCounts
  import opened LogTimes
  import Redaction
  import opened Secrets

  /** The key a redacted message was logged under, with this tag. */
  ghost predicate LoggedAs(key: bytes, tag: bytes) {
    && |key| >= |tag| + 2 && key[1..|tag| + 1] == tag && key[|tag| + 1] == 0
    && Redaction.NoToken(key[|tag| + 2..], true)
  }

  /** The messages logged, by key and by tag. */
  ghost predicate Tagged(calls: seq<bytes>, tags: seq<bytes>) {
    |calls| == |tags| && forall i | 0 <= i < |calls| :: LoggedAs(calls[i], tags[i])
  }

  /** A line's tag is one that was logged, or was cut off a key before its first NUL. */
  ghost predicate TagsKnown(lines: seq<Line>, tags: seq<bytes>) {
    forall l <- lines :: l.tag in tags || NulFree(l.tag)
  }

  /** The table remembers only messages that were written. */
  ghost predicate EntriesWritten(lines: seq<Line>, repeats: map<bytes, Repeat>)
    requires WellLeveled(lines)
  {
    forall key <- repeats :: exists l <- lines :: LineKey(l) == key
  }

  /** Every message logged was redacted, and every line's tag is known. */
  ghost predicate Traced(lines: seq<Line>, calls: seq<bytes>, tags: seq<bytes>) {
    Tagged(calls, tags) && TagsKnown(lines, tags)
  }

  ghost predicate NoTokens(texts: seq<bytes>) {
    forall text <- texts :: SecretFree(text)
  }

  /** No tag and no text that was written, or is still counted, has an access token in it. */
  ghost predicate TokenFree(lines: seq<Line>, repeats: map<bytes, Repeat>)
    requires forall key <- repeats :: IsKey(key)
  {
    && (forall l <- lines :: SecretFree(l.tag) && SecretFree(l.message))
    && (forall key <- repeats :: SecretFree(TagIn(key)) && SecretFree(MessageIn(key)))
  }

  /** The same of the texts only. */
  ghost predicate TextsFree(lines: seq<Line>, repeats: map<bytes, Repeat>)
    requires forall key <- repeats :: IsKey(key)
  {
    && (forall l <- lines :: SecretFree(l.message))
    && (forall key <- repeats :: SecretFree(MessageIn(key)))
  }

  lemma FreeByCode()
    ensures forall s: bytes :: Redaction.NoToken(s, true) <==> SecretFree(s)
  {
    hide Redaction.NoToken, SecretFree;
    forall s: bytes ensures Redaction.NoToken(s, true) <==> SecretFree(s) {
      Redaction.NoTokenExactly(s);
    }
  }

  /** A key is free of tokens behind its level if and only if tag and text are, wherever it is cut in two. */
  lemma KeyFree(level: nat, tag: bytes, message: bytes)
    requires level < 5
    ensures Redaction.NoToken(KeyOf(level, tag, message)[1..], true) <==>
            Redaction.NoToken(tag, true) && Redaction.NoToken(message, true)
  {
    assert KeyOf(level, tag, message)[1..] == tag + [0] + message;
    Redaction.NulSeparates(tag, message, true);
  }

  lemma KeyLoggedAs(level: nat, tag: bytes, message: bytes)
    requires level < 5 && Redaction.NoToken(message, true)
    ensures LoggedAs(KeyOf(level, tag, message), tag)
  {
    assert KeyOf(level, tag, message)[|tag| + 2..] == message;
  }

  lemma LoggedKeyFree(key: bytes, tag: bytes)
    requires LoggedAs(key, tag)
    ensures Redaction.NoToken(key[1..], true) <==> Redaction.NoToken(tag, true)
  {
    assert key[1..] == tag + [0] + key[|tag| + 2..];
    Redaction.NulSeparates(tag, key[|tag| + 2..], true);
  }

  /** What is counted or written was logged. */
  lemma {:induction false} Counted(calls: seq<bytes>, key: bytes)
    ensures Count(calls, key) > 0 <==> key in calls
  {
    if calls == [] {
    } else {
      Counted(calls[..|calls| - 1], key);
      assert calls == calls[..|calls| - 1] + [calls[|calls| - 1]];
    }
  }

  lemma {:induction false} Stands(lines: seq<Line>, key: bytes)
    requires WellLeveled(lines)
    ensures StandsFor(lines, key) > 0 <==> exists l <- lines :: LineKey(l) == key
  {
    hide KeyOf;
    if lines == [] {
    } else {
      var less, l := lines[..|lines| - 1], lines[|lines| - 1];
      Stands(less, key);
      assert lines == less + [l];
      assert forall k <- lines :: k in less || k == l;
    }
  }

  /** The lines have the keys of the messages that were logged, and no others. */
  lemma LinesAreCalls(lines: seq<Line>, repeats: map<bytes, Repeat>, calls: seq<bytes>, key: bytes)
    requires WellLeveled(lines) && Conserves(lines, repeats, calls) && EntriesWritten(lines, repeats)
    ensures key in calls <==> exists l <- lines :: LineKey(l) == key
  {
    hide KeyOf, StandsFor, Count;
    Counted(calls, key);
    Stands(lines, key);
    assert StandsFor(lines, key) + Suppressed(repeats, key) == Count(calls, key);
  }

  lemma LineWasLogged(lines: seq<Line>, repeats: map<bytes, Repeat>, calls: seq<bytes>, tags: seq<bytes>, l: Line)
    returns (i: nat)
    requires WellLeveled(lines) && Conserves(lines, repeats, calls) && EntriesWritten(lines, repeats)
    requires Tagged(calls, tags) && l in lines
    ensures i < |tags| == |calls| && LoggedAs(LineKey(l), tags[i])
    ensures Redaction.NoToken(tags[i], true) <==> Redaction.NoToken(l.tag, true) && Redaction.NoToken(l.message, true)
  {
    hide KeyOf, Conserves, LoggedAs, Redaction.NoToken;
    LinesAreCalls(lines, repeats, calls, LineKey(l));
    i :| 0 <= i < |calls| && calls[i] == LineKey(l);
    LoggedKeyFree(calls[i], tags[i]);
    KeyFree(l.level, l.tag, l.message);
  }

  lemma TagWasWritten(lines: seq<Line>, repeats: map<bytes, Repeat>, calls: seq<bytes>, tags: seq<bytes>, i: nat)
    returns (l: Line)
    requires WellLeveled(lines) && Conserves(lines, repeats, calls) && EntriesWritten(lines, repeats)
    requires Tagged(calls, tags) && i < |tags|
    ensures l in lines
    ensures Redaction.NoToken(tags[i], true) <==> Redaction.NoToken(l.tag, true) && Redaction.NoToken(l.message, true)
  {
    hide KeyOf, Conserves, LoggedAs, Redaction.NoToken;
    LinesAreCalls(lines, repeats, calls, calls[i]);
    l :| l in lines && LineKey(l) == calls[i];
    LoggedKeyFree(calls[i], tags[i]);
    KeyFree(l.level, l.tag, l.message);
  }

  lemma EntryOfLine(lines: seq<Line>, repeats: map<bytes, Repeat>, key: bytes) returns (l: Line)
    requires WellLeveled(lines) && EntriesWritten(lines, repeats) && key in repeats && IsKey(key)
    ensures l in lines && LineKey(l) == key
    ensures Redaction.NoToken(TagIn(key), true) && Redaction.NoToken(MessageIn(key), true) <==>
            Redaction.NoToken(l.tag, true) && Redaction.NoToken(l.message, true)
  {
    hide KeyOf, IsKey, TagIn, MessageIn, LevelIn, Redaction.NoToken;
    l :| l in lines && LineKey(l) == key;
    SplitKeyIsKey(key);
    KeyFree(l.level, l.tag, l.message);
    KeyFree(LevelIn(key), TagIn(key), MessageIn(key));
  }

  /** Exact condition: lines and table are free of tokens if and only if every tag logged is. */
  lemma TokensComeFromTags(lines: seq<Line>, repeats: map<bytes, Repeat>, calls: seq<bytes>, tags: seq<bytes>)
    requires WellLeveled(lines) && Conserves(lines, repeats, calls) && EntriesWritten(lines, repeats)
    requires Traced(lines, calls, tags)
    requires forall key <- repeats :: IsKey(key)
    ensures TokenFree(lines, repeats) <==> NoTokens(tags)
  {
    hide KeyOf, IsKey, TagIn, MessageIn, Conserves, LoggedAs, EntriesWritten, Tagged, WellLeveled;
    hide Redaction.NoToken, SecretFree;
    FreeByCode();
    if NoTokens(tags) {
      forall l <- lines ensures Redaction.NoToken(l.tag, true) && Redaction.NoToken(l.message, true) {
        var i := LineWasLogged(lines, repeats, calls, tags, l);
        assert tags[i] in tags;
      }
      forall key <- repeats
        ensures Redaction.NoToken(TagIn(key), true) && Redaction.NoToken(MessageIn(key), true)
      {
        var l := EntryOfLine(lines, repeats, key);
      }
    }
    if TokenFree(lines, repeats) {
      forall i | 0 <= i < |tags| ensures Redaction.NoToken(tags[i], true) {
        var l := TagWasWritten(lines, repeats, calls, tags, i);
      }
    }
  }

  /** Texts are free of tokens, whatever the tags hold, as long as no tag has a NUL. */
  lemma TextsStayFree(lines: seq<Line>, repeats: map<bytes, Repeat>, calls: seq<bytes>, tags: seq<bytes>)
    requires WellLeveled(lines) && Conserves(lines, repeats, calls) && EntriesWritten(lines, repeats)
    requires Traced(lines, calls, tags)
    requires (forall key <- repeats :: IsKey(key)) && forall tag <- tags :: NulFree(tag)
    ensures TextsFree(lines, repeats)
  {
    hide KeyOf, IsKey, TagIn, MessageIn, Conserves, LoggedAs, Tagged, NulFree, Redaction.NoToken, SecretFree;
    FreeByCode();
    forall l <- lines ensures Redaction.NoToken(l.message, true) {
      var i := LineWasLogged(lines, repeats, calls, tags, l);
      assert tags[i] in tags;
      OneCut(l.level, l.tag, l.message, tags[i]);
    }
    forall key <- repeats ensures Redaction.NoToken(MessageIn(key), true) {
      var l := EntryOfLine(lines, repeats, key);
      LevelOfKey(l);
      KeySplits(l.level, l.tag, l.message);
    }
  }

  lemma LevelOfKey(l: Line)
    requires l.level < 5 && IsKey(LineKey(l))
    ensures l.level >= WARN
  {
  }

  /** A key can be cut in one place only where there is no NUL before it. */
  lemma OneCut(level: nat, tag: bytes, message: bytes, other: bytes)
    requires level < 5 && NulFree(tag) && NulFree(other) && LoggedAs(KeyOf(level, tag, message), other)
    ensures Redaction.NoToken(message, true)
  {
    hide Redaction.NoToken;
    var key := KeyOf(level, tag, message);
    var rest := key[|other| + 2..];
    assert key[1..] == tag + [0] + message && key[1..] == other + [0] + rest;
    IndexOfPrefix(tag, 0, message);
    IndexOfPrefix(other, 0, rest);
    assert key[|tag| + 2..] == message;
  }

  lemma TimedIsWritten(lines: seq<Line>, repeats: map<bytes, Repeat>)
    requires WellLeveled(lines) && Timed(lines, repeats)
    ensures EntriesWritten(lines, repeats)
  {
    hide KeyOf, SinceLast;
    forall key <- repeats ensures exists l <- lines :: LineKey(l) == key {
      var j: nat :| LastWith(lines, key, j) && lines[j].clock == repeats[key].reported;
      assert lines[j] in lines;
    }
  }

  // ---- The steps the logger takes ----

  lemma OneMoreTag(calls: seq<bytes>, tags: seq<bytes>, l: Line)
    requires Tagged(calls, tags) && l.level < 5 && Redaction.NoToken(l.message, true)
    ensures Tagged(calls + [LineKey(l)], tags + [l.tag])
  {
    KeyLoggedAs(l.level, l.tag, l.message);
    hide KeyOf, LoggedAs, Redaction.NoToken;
  }

  lemma TagIsNulFree(key: bytes)
    requires IsKey(key)
    ensures NulFree(TagIn(key))
  {
    assert TagIn(key) == key[1..][..Split(key) - 1];
  }

  /** A count line. */
  lemma ReportTraced(lines: seq<Line>, calls: seq<bytes>, tags: seq<bytes>, l: Line)
    requires Traced(lines, calls, tags) && NulFree(l.tag)
    ensures Traced(lines + [l], calls, tags)
  {
    hide Tagged, NulFree;
  }

  /** A message that is written. */
  lemma WriteTraced(lines: seq<Line>, calls: seq<bytes>, tags: seq<bytes>, l: Line)
    requires l.level < 5 && Traced(lines, calls, tags) && Redaction.NoToken(l.message, true)
    ensures Traced(lines + [l], calls + [LineKey(l)], tags + [l.tag])
  {
    hide Tagged, NulFree, KeyOf, Redaction.NoToken;
    OneMoreTag(calls, tags, l);
    assert (tags + [l.tag])[|tags|] == l.tag;
  }

  /** A message that is counted. */
  lemma CountTraced(lines: seq<Line>, calls: seq<bytes>, tags: seq<bytes>, l: Line)
    requires l.level < 5 && Traced(lines, calls, tags) && Redaction.NoToken(l.message, true)
    ensures Traced(lines, calls + [LineKey(l)], tags + [l.tag])
  {
    hide Tagged, NulFree, KeyOf, Redaction.NoToken;
    OneMoreTag(calls, tags, l);
  }
}
