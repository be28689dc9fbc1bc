/**
  The promises of a sync, on files: what it keeps, what a second sync does, what `listed` then answers, and what
  becomes of app ids. Each is settled for the tag the program looks for (`OWNER_MARK`) and proved for the tag it
  writes (`OWNER_VALUE`).
 */
module ShortcutTheorems {
  import opened Bytes
  import opened VdfCodec
  import opened Fields
  import opened Shortcuts
  import opened ShortcutEntries
  import opened ShortcutSync
  import Decimal

  // ---- The list in a document and in a file ----

  function Document(file: Option<bytes>): Fallible<Vdf> {
    match file case None => Ok(EMPTY) case Some(b) => Lift(ReadVdf(b))
  }

  /** The entries of a file Steam or a sync has written; none when it does not exist or cannot be read. */
  function FileEntries(file: Option<bytes>): seq<Vdf> {
    var doc := Document(file);
    if doc.Ok? then Entries(doc.value) else []
  }

  /** From position `n` on, every key occurs once in the whole list. */
  ghost predicate FreshKeys(list: seq<Vdf>, n: nat) {
    forall i, j | 0 <= i < j < |list| && n <= j :: list[i].key != list[j].key
  }

  // ---- One sync of a list ----

  ghost predicate ListSynced(cs: seq<Vdf>, out: seq<Vdf>, count: nat, games: seq<Game>, mark: bytes) {
    && Foreign(cs, mark) <= out
    && |out| == |Foreign(cs, mark)| + count && count == |SafePackages(games)|
    && FreshKeys(out, |Foreign(cs, mark)|)
  }

  /** A sync keeps every foreign entry, with its key and in its place, and adds one entry per safe package. */
  lemma SyncKeepsForeign(cs: seq<Vdf>, games: seq<Game>, l: Launcher, mark: bytes)
    requires SyncEntries(cs, games, l, mark).Ok?
    ensures var (out, count) := SyncEntries(cs, games, l, mark).value; ListSynced(cs, out, count, games, mark)
  {
    hide SplitEntries, AddGames, SafePackage, Foreign, Chosen;
    var split := SplitEntries(cs, mark).value;
    var start := Progress({}, Keys(split.retained), 0, []);
    var p := AddGames(start, games, l, split.prior).value;
    RetainedIsForeign(cs, mark);
    AddGamesLists(start, games, l, split.prior);
    ChosenOncePerPackage(games);
    CountPackages(Chosen(games));
    var out := split.retained + p.entries;
    forall i, j | 0 <= i < j < |out| && |split.retained| <= j
      ensures out[i].key != out[j].key
    {
      if i < |split.retained| {
        assert out[i].key in Keys(split.retained);
      }
    }
  }

  /** With the tag `sync` writes, a second sync of the list it made changes nothing. */
  lemma SyncListAgain(cs: seq<Vdf>, games: seq<Game>, l: Launcher)
    requires SyncEntries(cs, games, l, OWNER_VALUE).Ok?
    ensures var (out, count) := SyncEntries(cs, games, l, OWNER_VALUE).value;
      SyncEntries(out, games, l, OWNER_VALUE) == Ok((out, count))
  {
    hide SplitEntries, AddGames, SafePackage, Chosen, Managed, OwnedPackage;
    var split := SplitEntries(cs, OWNER_VALUE).value;
    var start := Progress({}, Keys(split.retained), 0, []);
    var es, c := AddGames(start, games, l, split.prior).value.entries, Chosen(games);
    SplitParts(cs, OWNER_VALUE);
    AddGamesLists(start, games, l, split.prior);
    ChosenOncePerPackage(games);
    forall i | 0 <= i < |c|
      ensures OwnedAs(es[i], c[i].package, OWNER_VALUE) && Managed(es[i], es[i].key, c[i], l) == Ok(es[i])
    {
      assert ListedAs(es[i], c[i], l, split.prior, start.keys);
      ListedEntrySettles(es[i], c[i], l, split.prior, start.keys);
    }
    SplitManaged(split.retained, es, c, OWNER_VALUE);
    var again := SplitEntries(split.retained + es, OWNER_VALUE).value;
    SecondPass(start, games, l, split.prior, again.prior);
  }

  lemma ListedEntrySettles(e: Vdf, g: Game, l: Launcher, prior: map<bytes, Vdf>, taken: set<bytes>)
    requires ListedAs(e, g, l, prior, taken) && SafePackage(g.package)
    requires forall package <- prior :: OwnedAs(prior[package], package, OWNER_VALUE)
    ensures OwnedAs(e, g.package, OWNER_VALUE) && Managed(e, e.key, g, l) == Ok(e)
  {
    hide SafePackage, Managed, OwnedPackage, IdFor, Settings;
    var base := Base(prior, g.package);
    SafePackageIsClean(g.package);
    ManagedIsOwned(base, e.key, g, l);
    ManagedShows(base, e.key, g, l);
    var current := Number(base.children, APP_ID).value;
    IdIsNonzero(current, g, l);
    ManagedAgain(e, e.key, IdFor(current, g, l), g, l);
  }

  // ---- One sync of a document ----

  /** The result has the new list where the old one was (or at the end), and differs nowhere else. */
  ghost predicate DocumentSynced(doc: Vdf, after: Vdf, out: seq<Vdf>) {
    var at := Position(doc.children, SHORTCUTS);
    && at.Ok? && (at.value.Some? ==> doc.children[at.value.value].wire == 0)
    && after == doc.(children := after.children)
    && after.children == match at.value
                         case None => doc.children + [Vdf(0, SHORTCUTS, [], out, 8)]
                         case Some(i) => doc.children[i := doc.children[i].(children := out)]
  }

  lemma SyncedDocument(doc: Vdf, games: seq<Game>, l: Launcher, mark: bytes)
    requires SyncDocument(doc, games, l, mark).Ok?
    ensures var (after, count) := SyncDocument(doc, games, l, mark).value;
      && SyncEntries(Entries(doc), games, l, mark) == Ok((Entries(after), count))
      && DocumentSynced(doc, after, Entries(after))
  {
    hide SyncEntries;
    var after := SyncDocument(doc, games, l, mark).value.0;
    var at := WithList(doc).value.1;
    UniquePosition(after.children, SHORTCUTS, at);
  }

  lemma ListStays(doc: Vdf, games: seq<Game>, l: Launcher, mark: bytes)
    requires SyncDocument(doc, games, l, mark).Ok?
    ensures WithList(doc).Ok?
    ensures var after, at := SyncDocument(doc, games, l, mark).value.0, WithList(doc).value.1;
      at < |after.children| && WithList(after) == Ok((after, at)) && after.children[at].children == Entries(after)
  {
    hide SyncEntries;
    var after := SyncDocument(doc, games, l, mark).value.0;
    UniquePosition(after.children, SHORTCUTS, WithList(doc).value.1);
  }

  lemma SyncDocumentAgain(doc: Vdf, games: seq<Game>, l: Launcher)
    requires SyncDocument(doc, games, l, OWNER_VALUE).Ok?
    ensures var (after, count) := SyncDocument(doc, games, l, OWNER_VALUE).value;
      SyncDocument(after, games, l, OWNER_VALUE) == Ok((after, count))
  {
    hide SyncEntries, WithList, Entries;
    var (after, count) := SyncDocument(doc, games, l, OWNER_VALUE).value;
    SyncedDocument(doc, games, l, OWNER_VALUE);
    ListStays(doc, games, l, OWNER_VALUE);
    var at := WithList(doc).value.1;
    SyncListAgain(Entries(doc), games, l);
    assert after.children[at := after.children[at]] == after.children;
  }

  lemma SyncedListIsWellFormed(cs: seq<Vdf>, games: seq<Game>, l: Launcher, mark: bytes)
    requires SyncEntries(cs, games, l, mark).Ok? && WellFormedFields(cs)
    requires CleanGames(games) && CleanLauncher(l)
    ensures WellFormedFields(SyncEntries(cs, games, l, mark).value.0)
  {
    hide SplitEntries, AddGames, SafePackage, Chosen, Managed, OwnedPackage, WellFormedField;
    var split := SplitEntries(cs, mark).value;
    var start := Progress({}, Keys(split.retained), 0, []);
    var p, c := AddGames(start, games, l, split.prior).value, Chosen(games);
    SplitParts(cs, mark);
    AddGamesLists(start, games, l, split.prior);
    ChosenOncePerPackage(games);
    forall i | 0 <= i < |c|
      ensures WellFormedField(p.entries[i])
    {
      assert ListedAs(p.entries[i], c[i], l, split.prior, start.keys);
      BaseIsWellFormed(cs, split.prior, c[i].package, mark);
      ManagedIsWellFormed(Base(split.prior, c[i].package), p.entries[i].key, c[i], l);
    }
  }

  lemma BaseIsWellFormed(cs: seq<Vdf>, prior: map<bytes, Vdf>, package: bytes, mark: bytes)
    requires WellFormedFields(cs)
    requires forall q <- prior :: prior[q] in cs && OwnedAs(prior[q], q, mark)
    ensures WellFormedField(Base(prior, package)) && Base(prior, package).wire == 0
  {
    if package in prior {
      var e := prior[package];
      assert OwnedAs(e, package, mark) && WellFormedField(e);
    }
  }

  lemma SyncedDocumentIsWellFormed(doc: Vdf, games: seq<Game>, l: Launcher, mark: bytes)
    requires SyncDocument(doc, games, l, mark).Ok? && WellFormed(doc)
    requires CleanGames(games) && CleanLauncher(l)
    ensures WellFormed(SyncDocument(doc, games, l, mark).value.0)
  {
    hide SyncEntries, SyncDocument;
    var after := SyncDocument(doc, games, l, mark).value.0;
    SyncedDocument(doc, games, l, mark);
    var at := Position(doc.children, SHORTCUTS).value;
    assert at.Some? ==> doc.children[at.value] in doc.children;
    EntriesAreWellFormed(doc);
    SyncedListIsWellFormed(Entries(doc), games, l, mark);
    var found := if at.Some? then doc.children[at.value] else Vdf(0, SHORTCUTS, [], [], 8);
    var list := found.(children := Entries(after));
    if at.Some? {
      assert WellFormedField(doc.children[at.value]);
      assert after.children == doc.children[at.value := list];
    } else {
      assert NulFree(SHORTCUTS);
      assert after.children == doc.children + [list];
    }
    assert WellFormedField(list);
    assert forall m <- after.children :: m in doc.children || m == list;
  }

  // ---- One sync of a file ----

  lemma DocumentIsWellFormed(file: Option<bytes>)
    requires Document(file).Ok?
    ensures WellFormed(Document(file).value)
  {
    if file.Some? {
      ReadThenWrite(file.value);
    }
  }

  /** What a sync writes reads back as the document it computed. */
  lemma SyncReadsBack(file: Option<bytes>, games: seq<Game>, l: Launcher, mark: bytes)
    requires SyncBytes(file, games, l, mark).Ok? && CleanGames(games) && CleanLauncher(l)
    ensures var (out, count) := SyncBytes(file, games, l, mark).value;
      && SyncDocument(Document(file).value, games, l, mark).Ok?
      && var (after, n) := SyncDocument(Document(file).value, games, l, mark).value;
      n == count && WriteVdf(after) == Ok(out) && Document(Some(out)) == Ok(after)
  {
    hide SyncDocument, WriteVdf, ReadVdf;
    DocumentIsWellFormed(file);
    SyncedDocumentIsWellFormed(Document(file).value, games, l, mark);
    WellFormedIsWritten(SyncDocument(Document(file).value, games, l, mark).value.0);
  }

  /** Reading back a written file, every foreign entry is there unchanged and in order, and new keys clash with none. */
  lemma FileKeepsForeign(file: Option<bytes>, games: seq<Game>, l: Launcher, mark: bytes)
    requires SyncBytes(file, games, l, mark).Ok? && CleanGames(games) && CleanLauncher(l)
    ensures var (out, count) := SyncBytes(file, games, l, mark).value;
      ListSynced(FileEntries(file), FileEntries(Some(out)), count, games, mark)
  {
    hide SyncDocument, SyncEntries, WriteVdf, ReadVdf;
    SyncReadsBack(file, games, l, mark);
    SyncedDocument(Document(file).value, games, l, mark);
    SyncKeepsForeign(FileEntries(file), games, l, mark);
  }

  /** With the tag `sync` writes: syncing its own output again gives the same bytes. */
  lemma SyncIsIdempotent(file: Option<bytes>, games: seq<Game>, l: Launcher)
    requires SyncBytes(file, games, l, OWNER_VALUE).Ok? && CleanGames(games) && CleanLauncher(l)
    ensures var (out, count) := SyncBytes(file, games, l, OWNER_VALUE).value;
      SyncBytes(Some(out), games, l, OWNER_VALUE) == Ok((out, count))
  {
    hide SyncDocument, WriteVdf, ReadVdf;
    SyncReadsBack(file, games, l, OWNER_VALUE);
    SyncDocumentAgain(Document(file).value, games, l);
  }

  // ---- The tag the program looks for is in no file: every sync adds all games again ----

  lemma {:induction false} SplitReadAll(cs: seq<Vdf>, mark: bytes)
    requires SplitEntries(cs, mark).Ok?
    ensures forall e <- cs :: OwnedPackage(e, mark).Ok?
  {
    hide OwnedPackage, AddEntry;
    if cs == [] {
    } else {
      SplitReadAll(cs[..|cs| - 1], mark);
      assert cs == cs[..|cs| - 1] + [cs[|cs| - 1]];
    }
  }

  lemma NothingIsForeignTo(cs: seq<Vdf>, mark: bytes)
    requires WellFormedFields(cs) && !IsString(mark) && SplitEntries(cs, mark).Ok?
    ensures Foreign(cs, mark) == cs && SplitEntries(cs, mark).value == Split(cs, map[])
  {
    hide OwnedPackage, WellFormedField, SplitEntries, Foreign;
    SplitReadAll(cs, mark);
    forall e <- cs ensures OwnedPackage(e, mark) == Ok([]) {
      NothingIsOwned(e, mark);
    }
    SplitForeign(cs, mark);
    RetainedIsForeign(cs, mark);
  }

  /** The program's sync keeps all entries it finds, its own included, and appends one for every safe package. */
  lemma SyncOnlyAdds(file: Option<bytes>, games: seq<Game>, l: Launcher)
    requires SyncBytes(file, games, l, OWNER_MARK).Ok? && CleanGames(games) && CleanLauncher(l)
    ensures var (out, count) := SyncBytes(file, games, l, OWNER_MARK).value;
      && FileEntries(file) <= FileEntries(Some(out))
      && |FileEntries(Some(out))| == |FileEntries(file)| + |SafePackages(games)|
      && FreshKeys(FileEntries(Some(out)), |FileEntries(file)|)
  {
    hide SyncEntries, SyncDocument, WriteVdf, ReadVdf, OwnedPackage, WellFormedField;
    FileKeepsForeign(file, games, l, OWNER_MARK);
    DocumentIsWellFormed(file);
    EntriesAreWellFormed(Document(file).value);
    SyncReadsBack(file, games, l, OWNER_MARK);
    SyncedDocument(Document(file).value, games, l, OWNER_MARK);
    SyncedListWasSplit(FileEntries(file), games, l, OWNER_MARK);
    MarkIsNoString();
    NothingIsForeignTo(FileEntries(file), OWNER_MARK);
  }

  lemma {:induction false} PutAllDistinct(nodes: seq<Vdf>)
    requires DistinctKeys(nodes)
    ensures PutAll([], nodes) == Ok(nodes)
  {
    if nodes == [] {
    } else {
      var most, n := nodes[..|nodes| - 1], nodes[|nodes| - 1];
      assert nodes == most + [n];
      PutAllDistinct(most);
      assert forall i | 0 <= i < |most| :: most[i] == nodes[i];
      assert Position(most, n.key) == Ok(None);
    }
  }

  lemma NewEntryIsManaged(key: bytes, g: Game, l: Launcher)
    requires NulFree(key)
    ensures Managed(EMPTY, key, g, l).Ok?
  {
    hide Settings, IdFor;
    var id := IdFor(0, g, l);
    var nodes := Settings(id, g, l);
    SettingsKeysDiffer(id, g, l);
    PutAllDistinct(nodes);
    assert forall i | 0 <= i < |nodes| :: nodes[i] in nodes;
    assert Position(nodes, TAGS) == Ok(None);
    assert Position(nodes + [TAGS_NODE], ICON) == Ok(None) by {
      assert TAGS[0] != ICON[0];
    }
  }

  lemma {:induction false} NewGamesAreAdded(start: Progress, games: seq<Game>, l: Launcher)
    ensures AddGames(start, games, l, map[]).Ok?
  {
    hide SafePackage, Managed;
    if games == [] {
    } else {
      var most, g := games[..|games| - 1], games[|games| - 1];
      NewGamesAreAdded(start, most, l);
      var p := AddGames(start, most, l, map[]).value;
      NewEntryIsManaged(Decimal.Print(Decimal.FreshFrom(p.keys, p.next)), g, l);
    }
  }

  /** The program's sync of a list it has just made succeeds too, and lists every game a second time. */
  lemma SecondSyncListsAgain(cs: seq<Vdf>, games: seq<Game>, l: Launcher)
    requires WellFormedFields(cs) && CleanGames(games) && CleanLauncher(l)
    requires SyncEntries(cs, games, l, OWNER_MARK).Ok?
    ensures var out := SyncEntries(cs, games, l, OWNER_MARK).value.0;
      && SyncEntries(out, games, l, OWNER_MARK).Ok?
      && var again := SyncEntries(out, games, l, OWNER_MARK).value.0;
      out <= again && |again| == |out| + |SafePackages(games)|
  {
    hide OwnedPackage, WellFormedField, SafePackage, SplitEntries, AddGames, Foreign;
    var out := SyncEntries(cs, games, l, OWNER_MARK).value.0;
    SyncedListIsWellFormed(cs, games, l, OWNER_MARK);
    SyncedListIsReadable(cs, games, l, OWNER_MARK);
    MarkIsNoString();
    NothingIsForeignTo(out, OWNER_MARK);
    NewGamesAreAdded(Progress({}, Keys(out), 0, []), games, l);
    SyncKeepsForeign(out, games, l, OWNER_MARK);
  }

  lemma SyncedListWasSplit(cs: seq<Vdf>, games: seq<Game>, l: Launcher, mark: bytes)
    requires SyncEntries(cs, games, l, mark).Ok?
    ensures SplitEntries(cs, mark).Ok?
  {
  }

  lemma EntriesAreWellFormed(doc: Vdf)
    requires WellFormed(doc)
    ensures WellFormedFields(Entries(doc))
  {
    var at := Position(doc.children, SHORTCUTS);
    if at.Ok? && at.value.Some? {
      assert doc.children[at.value.value] in doc.children && WellFormedField(doc.children[at.value.value]);
    }
  }

  lemma SyncedDocumentHasList(doc: Vdf, games: seq<Game>, l: Launcher, mark: bytes)
    requires SyncDocument(doc, games, l, mark).Ok?
    ensures var at := Position(SyncDocument(doc, games, l, mark).value.0.children, SHORTCUTS); at.Ok? && at.value.Some?
  {
    hide SyncEntries;
    UniquePosition(SyncDocument(doc, games, l, mark).value.0.children, SHORTCUTS, WithList(doc).value.1);
  }

  lemma {:induction false} NothingToAdd(start: Progress, games: seq<Game>, l: Launcher, prior: map<bytes, Vdf>)
    requires SafePackages(games) == {}
    ensures AddGames(start, games, l, prior) == Ok(start)
  {
    hide SafePackage;
    if games == [] {
    } else {
      var most, g := games[..|games| - 1], games[|games| - 1];
      assert g in games && (g.package in SafePackages(games) || !SafePackage(g.package));
      assert SafePackages(most) <= SafePackages(games);
      NothingToAdd(start, most, l, prior);
    }
  }

  lemma NoGamesNoChange(file: Option<bytes>, games: seq<Game>, l: Launcher)
    requires SyncBytes(file, games, l, OWNER_MARK).Ok? && CleanGames(games) && CleanLauncher(l)
    requires SafePackages(games) == {}
    ensures var first := SyncBytes(file, games, l, OWNER_MARK).value.0;
      SyncBytes(Some(first), games, l, OWNER_MARK) == Ok((first, 0))
  {
    hide SyncDocument, WriteVdf, ReadVdf, SafePackage, SplitEntries;
    var first := SyncBytes(file, games, l, OWNER_MARK).value.0;
    SyncReadsBack(file, games, l, OWNER_MARK);
    SyncedDocumentHasList(Document(file).value, games, l, OWNER_MARK);
    SyncedFileHasNoOwned(file, games, l);
    var doc := Document(Some(first)).value;
    NothingToAdd(Progress({}, Keys(Entries(doc)), 0, []), games, l, map[]);
    assert Entries(doc) + [] == Entries(doc);
    ListStays(Document(file).value, games, l, OWNER_MARK);
    SameListSameDocument(doc, games, l);
  }

  lemma SameListSameDocument(doc: Vdf, games: seq<Game>, l: Launcher)
    requires WithList(doc).Ok? && WithList(doc).value.0 == doc
    requires doc.children[WithList(doc).value.1].children == Entries(doc)
    requires SyncEntries(Entries(doc), games, l, OWNER_MARK) == Ok((Entries(doc), 0))
    ensures SyncDocument(doc, games, l, OWNER_MARK) == Ok((doc, 0))
  {
    hide SyncEntries, WithList, Entries;
    var at := WithList(doc).value.1;
    assert doc.children[at := doc.children[at]] == doc.children;
  }

  /** So a second sync succeeds and leaves the file as it is exactly when no game has a safe package. */
  lemma SecondSyncChangesFile(file: Option<bytes>, games: seq<Game>, l: Launcher)
    requires SyncBytes(file, games, l, OWNER_MARK).Ok? && CleanGames(games) && CleanLauncher(l)
    ensures var first := SyncBytes(file, games, l, OWNER_MARK).value.0;
      var second := SyncBytes(Some(first), games, l, OWNER_MARK);
      (second.Ok? && second.value.0 == first) <==> SafePackages(games) == {}
  {
    hide SyncBytes, FileEntries;
    var first := SyncBytes(file, games, l, OWNER_MARK).value.0;
    if SafePackages(games) == {} {
      NoGamesNoChange(file, games, l);
    } else if SyncBytes(Some(first), games, l, OWNER_MARK).Ok? {
      SyncOnlyAdds(Some(first), games, l);
    }
  }

  // ---- What `listed` answers after a sync ----

  /** The entries a sync of a list wrote, as a later split of the new list finds them. */
  ghost predicate FoundAgain(cs: seq<Vdf>, out: seq<Vdf>, games: seq<Game>, l: Launcher) {
    && SplitEntries(cs, OWNER_VALUE).Ok? && SplitEntries(out, OWNER_VALUE).Ok?
    && var before, after, c := SplitEntries(cs, OWNER_VALUE).value, SplitEntries(out, OWNER_VALUE).value, Chosen(games);
    && after.prior.Keys == Packages(c)
    && (forall g <- c :: g.package in after.prior && ShowsGame(before.prior, after.prior[g.package], g, l))
  }

  ghost predicate ShowsGame(prior: map<bytes, Vdf>, e: Vdf, g: Game, l: Launcher) {
    var current := Number(Base(prior, g.package).children, APP_ID);
    current.Ok? && Shows(e, e.key, IdFor(current.value, g, l), g, l)
  }

  lemma SyncedListIsFoundAgain(cs: seq<Vdf>, games: seq<Game>, l: Launcher)
    requires SyncEntries(cs, games, l, OWNER_VALUE).Ok?
    ensures FoundAgain(cs, SyncEntries(cs, games, l, OWNER_VALUE).value.0, games, l)
  {
    hide SplitEntries, AddGames, SafePackage, Chosen, Managed, OwnedPackage, Shows, Number;
    var split := SplitEntries(cs, OWNER_VALUE).value;
    var start := Progress({}, Keys(split.retained), 0, []);
    var es, c := AddGames(start, games, l, split.prior).value.entries, Chosen(games);
    SplitParts(cs, OWNER_VALUE);
    AddGamesLists(start, games, l, split.prior);
    ChosenOncePerPackage(games);
    forall i | 0 <= i < |c|
      ensures OwnedAs(es[i], c[i].package, OWNER_VALUE) && ShowsGame(split.prior, es[i], c[i], l)
    {
      assert ListedAs(es[i], c[i], l, split.prior, start.keys);
      ListedEntrySettles(es[i], c[i], l, split.prior, start.keys);
      ManagedShows(Base(split.prior, c[i].package), es[i].key, c[i], l);
    }
    SplitManaged(split.retained, es, c, OWNER_VALUE);
  }

  /** With the tag `sync` writes: after a completed sync the file counts as listed, so no restart is pending. */
  lemma SyncedIsListed(file: Option<bytes>, games: seq<Game>, l: Launcher)
    requires SyncBytes(file, games, l, OWNER_VALUE).Ok? && CleanGames(games) && CleanLauncher(l)
    ensures Listed(Some(SyncBytes(file, games, l, OWNER_VALUE).value.0), games, l, OWNER_VALUE)
  {
    hide SyncDocument, SyncEntries, WriteVdf, ReadVdf, SplitEntries, Chosen, Shows, Number, Matches;
    SyncReadsBack(file, games, l, OWNER_VALUE);
    var doc, after := Document(file).value, SyncDocument(Document(file).value, games, l, OWNER_VALUE).value.0;
    SyncedDocument(doc, games, l, OWNER_VALUE);
    SyncedDocumentHasList(doc, games, l, OWNER_VALUE);
    SyncedListIsFoundAgain(Entries(doc), games, l);
    var before, found := SplitEntries(Entries(doc), OWNER_VALUE).value, SplitEntries(Entries(after), OWNER_VALUE).value;
    forall g <- Chosen(games)
      ensures Matches(found.prior[g.package], g, l)
    {
      assert ShowsGame(before.prior, found.prior[g.package], g, l);
      ShownMatches(before.prior, found.prior[g.package], g, l);
    }
  }

  lemma ShownMatches(prior: map<bytes, Vdf>, e: Vdf, g: Game, l: Launcher)
    requires ShowsGame(prior, e, g, l)
    ensures Matches(e, g, l)
  {
    hide Settings, IdFor;
    ShownText(e, e.key, IdFor(Number(Base(prior, g.package).children, APP_ID).value, g, l), g, l);
  }

  /** The program's `listed` finds none of its entries: a file counts as listed only if there is nothing to list. */
  lemma ListedOnlyWithoutGames(input: bytes, games: seq<Game>, l: Launcher)
    requires Listed(Some(input), games, l, OWNER_MARK)
    ensures SafePackages(games) == {}
  {
    hide SplitEntries, Chosen, Matches, OwnedPackage, SafePackage, WellFormedField, Entries;
    ReadThenWrite(input);
    EntriesAreWellFormed(ReadVdf(input).value);
    MarkIsNoString();
    NothingIsForeignTo(Entries(ReadVdf(input).value), OWNER_MARK);
    ChosenOncePerPackage(games);
    assert Packages(Chosen(games)) == {};
  }

  lemma {:induction false} SplitReadable(cs: seq<Vdf>, mark: bytes)
    requires forall e <- cs :: OwnedPackage(e, mark).Ok?
    ensures SplitEntries(cs, mark).Ok?
  {
    hide OwnedPackage;
    if cs == [] {
    } else {
      assert cs[|cs| - 1] in cs;
      SplitReadable(cs[..|cs| - 1], mark);
    }
  }

  lemma ManagedIsReadable(base: Vdf, key: bytes, g: Game, l: Launcher, mark: bytes)
    requires Managed(base, key, g, l).Ok?
    ensures OwnedPackage(Managed(base, key, g, l).value, mark).Ok?
  {
    hide Settings, SafePackage, IdFor, Managed, Text;
    ManagedShows(base, key, g, l);
    ShownText(Managed(base, key, g, l).value, key, IdFor(Number(base.children, APP_ID).value, g, l), g, l);
  }

  lemma SyncedListIsReadable(cs: seq<Vdf>, games: seq<Game>, l: Launcher, mark: bytes)
    requires SyncEntries(cs, games, l, mark).Ok?
    ensures SplitEntries(SyncEntries(cs, games, l, mark).value.0, mark).Ok?
  {
    hide SplitEntries, AddGames, SafePackage, Chosen, Managed, OwnedPackage;
    var split := SplitEntries(cs, mark).value;
    var start := Progress({}, Keys(split.retained), 0, []);
    var es, c := AddGames(start, games, l, split.prior).value.entries, Chosen(games);
    SplitParts(cs, mark);
    AddGamesLists(start, games, l, split.prior);
    forall i | 0 <= i < |es|
      ensures OwnedPackage(es[i], mark).Ok?
    {
      assert ListedAs(es[i], c[i], l, split.prior, start.keys);
      ManagedIsReadable(Base(split.prior, c[i].package), es[i].key, c[i], l, mark);
    }
    SplitReadable(split.retained + es, mark);
  }

  lemma SyncedFileHasNoOwned(file: Option<bytes>, games: seq<Game>, l: Launcher)
    requires SyncBytes(file, games, l, OWNER_MARK).Ok? && CleanGames(games) && CleanLauncher(l)
    ensures var doc := ReadVdf(SyncBytes(file, games, l, OWNER_MARK).value.0);
      && doc.Ok? && Position(doc.value.children, SHORTCUTS).Ok?
      && SplitEntries(Entries(doc.value), OWNER_MARK) == Ok(Split(Entries(doc.value), map[]))
  {
    hide SyncDocument, SyncEntries, WriteVdf, ReadVdf, SplitEntries, OwnedPackage, SafePackage, WellFormedField;
    SyncReadsBack(file, games, l, OWNER_MARK);
    var doc, after := Document(file).value, SyncDocument(Document(file).value, games, l, OWNER_MARK).value.0;
    SyncedDocument(doc, games, l, OWNER_MARK);
    SyncedDocumentHasList(doc, games, l, OWNER_MARK);
    SyncedListIsReadable(Entries(doc), games, l, OWNER_MARK);
    DocumentIsWellFormed(file);
    SyncedDocumentIsWellFormed(doc, games, l, OWNER_MARK);
    EntriesAreWellFormed(after);
    MarkIsNoString();
    NothingIsForeignTo(Entries(after), OWNER_MARK);
  }

  /** After the program's sync the file counts as listed exactly when no game has a safe package. */
  lemma SyncedIsListedWithoutGames(file: Option<bytes>, games: seq<Game>, l: Launcher)
    requires SyncBytes(file, games, l, OWNER_MARK).Ok? && CleanGames(games) && CleanLauncher(l)
    ensures Listed(Some(SyncBytes(file, games, l, OWNER_MARK).value.0), games, l, OWNER_MARK) <==>
      SafePackages(games) == {}
  {
    hide SyncBytes, ReadVdf, SplitEntries, Chosen, Matches, SafePackage, Entries;
    var out := SyncBytes(file, games, l, OWNER_MARK).value.0;
    if Listed(Some(out), games, l, OWNER_MARK) {
      ListedOnlyWithoutGames(out, games, l);
    }
    SyncedFileHasNoOwned(file, games, l);
    ChosenOncePerPackage(games);
    assert forall g <- Chosen(games) :: g.package in Packages(Chosen(games));
  }

  /** Both promises in one: a second sync changes nothing, and `listed` is true, if the tag or the games allow it. */
  lemma TagDecides(file: Option<bytes>, games: seq<Game>, l: Launcher, mark: bytes)
    requires mark == OWNER_MARK || mark == OWNER_VALUE
    requires SyncBytes(file, games, l, mark).Ok? && CleanGames(games) && CleanLauncher(l)
    ensures var first := SyncBytes(file, games, l, mark).value.0;
      var second, good := SyncBytes(Some(first), games, l, mark), mark == OWNER_VALUE || SafePackages(games) == {};
      ((second.Ok? && second.value.0 == first) <==> good) && (Listed(Some(first), games, l, mark) <==> good)
  {
    hide SyncBytes, Listed, SafePackages;
    if mark == OWNER_VALUE {
      SyncIsIdempotent(file, games, l);
      SyncedIsListed(file, games, l);
    } else {
      SecondSyncChangesFile(file, games, l);
      SyncedIsListedWithoutGames(file, games, l);
    }
  }

  // ---- App ids over runs of syncs ----

  /** The app id a file records for a package; zero when it has none. */
  function IdIn(file: Option<bytes>, package: bytes, mark: bytes): uint32 {
    var split := SplitEntries(FileEntries(file), mark);
    if split.Ok? && package in split.value.prior && Number(split.value.prior[package].children, APP_ID).Ok?
    then Number(split.value.prior[package].children, APP_ID).value else 0
  }

  lemma SyncedFileShows(file: Option<bytes>, games: seq<Game>, l: Launcher, g: Game)
    requires SyncBytes(file, games, l, OWNER_VALUE).Ok? && CleanGames(games) && CleanLauncher(l) && g in Chosen(games)
    ensures var out := SyncBytes(file, games, l, OWNER_VALUE).value.0;
      && SplitEntries(FileEntries(file), OWNER_VALUE).Ok? && SplitEntries(FileEntries(Some(out)), OWNER_VALUE).Ok?
      && var before, after := SplitEntries(FileEntries(file), OWNER_VALUE).value.prior,
                              SplitEntries(FileEntries(Some(out)), OWNER_VALUE).value.prior;
      g.package in after && ShowsGame(before, after[g.package], g, l)
  {
    hide SyncDocument, SyncEntries, WriteVdf, ReadVdf, SplitEntries, Chosen, ShowsGame, SafePackage;
    SyncReadsBack(file, games, l, OWNER_VALUE);
    SyncedDocument(Document(file).value, games, l, OWNER_VALUE);
    SyncedListIsFoundAgain(Entries(Document(file).value), games, l);
  }

  /** With the tag `sync` writes: a sync that lists a package gives it an id, and keeps the one it had. */
  lemma SyncKeepsId(file: Option<bytes>, games: seq<Game>, l: Launcher, package: bytes)
    requires SyncBytes(file, games, l, OWNER_VALUE).Ok? && CleanGames(games) && CleanLauncher(l)
    requires package in SafePackages(games)
    ensures var id := IdIn(Some(SyncBytes(file, games, l, OWNER_VALUE).value.0), package, OWNER_VALUE);
      id != 0 && (IdIn(file, package, OWNER_VALUE) != 0 ==> id == IdIn(file, package, OWNER_VALUE))
  {
    hide SyncBytes, SplitEntries, FileEntries, Chosen, Shows, Number, SafePackage, IdFor;
    ChosenOncePerPackage(games);
    var g :| g in Chosen(games) && g.package == package;
    SyncedFileShows(file, games, l, g);
    var out := SyncBytes(file, games, l, OWNER_VALUE).value.0;
    var e := SplitEntries(FileEntries(Some(out)), OWNER_VALUE).value.prior[package];
    var prior := SplitEntries(FileEntries(file), OWNER_VALUE).value.prior;
    var current := Number(Base(prior, package).children, APP_ID).value;
    ShownNumber(e, e.key, IdFor(current, g, l), g, l);
    IdIsNonzero(current, g, l);
    AssignedIdStays(current, g, l);
  }

  lemma AssignedIdStays(current: uint32, g: Game, l: Launcher)
    ensures current != 0 ==> IdFor(current, g, l) == current
  {
  }

  datatype Request = Request(games: seq<Game>, launcher: Launcher)

  /** The file after a run of syncs, each on what the one before left. */
  function Run(file: Option<bytes>, requests: seq<Request>, mark: bytes): Fallible<Option<bytes>>
    decreases requests
  {
    if requests == [] then Ok(file) else
      var r := requests[0];
      var (out, _) :- SyncBytes(file, r.games, r.launcher, mark);
      Run(Some(out), requests[1..], mark)
  }

  ghost predicate CleanRequests(requests: seq<Request>) {
    forall r <- requests :: CleanGames(r.games) && CleanLauncher(r.launcher)
  }

  /**
    Once assigned, an id survives every run of syncs that keep listing the package, under whatever name or executable.
   */
  lemma {:induction false} RunKeepsId(file: Option<bytes>, requests: seq<Request>, package: bytes)
    requires Run(file, requests, OWNER_VALUE).Ok? && CleanRequests(requests)
    requires IdIn(file, package, OWNER_VALUE) != 0 && forall r <- requests :: package in SafePackages(r.games)
    ensures IdIn(Run(file, requests, OWNER_VALUE).value, package, OWNER_VALUE) == IdIn(file, package, OWNER_VALUE)
    decreases requests
  {
    hide SyncBytes, IdIn, SafePackage, CleanGames, CleanLauncher;
    if requests == [] {
    } else {
      var r := requests[0];
      SyncKeepsId(file, r.games, r.launcher, package);
      RunKeepsId(Some(SyncBytes(file, r.games, r.launcher, OWNER_VALUE).value.0), requests[1..], package);
    }
  }

  function TotalListed(requests: seq<Request>): nat {
    if requests == [] then 0 else |SafePackages(requests[0].games)| + TotalListed(requests[1..])
  }

  /** The program's own runs only ever lengthen the list: by one entry per safe package per sync. */
  lemma {:induction false} RunOnlyAdds(file: Option<bytes>, requests: seq<Request>)
    requires Run(file, requests, OWNER_MARK).Ok? && CleanRequests(requests)
    ensures var last := Run(file, requests, OWNER_MARK).value;
      FileEntries(file) <= FileEntries(last) && |FileEntries(last)| == |FileEntries(file)| + TotalListed(requests)
    decreases requests
  {
    hide SyncBytes, FileEntries, SafePackage, CleanGames, CleanLauncher;
    if requests == [] {
    } else {
      var r := requests[0];
      SyncOnlyAdds(file, r.games, r.launcher);
      RunOnlyAdds(Some(SyncBytes(file, r.games, r.launcher, OWNER_MARK).value.0), requests[1..]);
    }
  }
}
