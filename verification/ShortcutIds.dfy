/**
  What becomes of app ids, and of a whole run on files, with the tag the program compares with: every sync makes new
  entries, and each gets its id from the executable and the name alone.
 */
module ShortcutIds {
  import opened Bytes
  import opened VdfCodec
  import opened Fields
  import opened Shortcuts
  import opened ShortcutEntries
  import opened ShortcutSync
  import opened ShortcutTheorems
  import AppId
  import Decimal

  // ---- The id of the newest entry ----

  /** The entry was made for this package, whatever its tag. */
  predicate Launches(e: Vdf, package: bytes) {
    Text(e.children, LAUNCH_OPTIONS) == Ok(LAUNCH + package)
  }

  /** The id of the last entry for a package; zero when there is none. */
  function NewestId(cs: seq<Vdf>, package: bytes): uint32 {
    if cs == [] then 0
    else if Launches(cs[|cs| - 1], package) then
      var id := Number(cs[|cs| - 1].children, APP_ID);
      if id.Ok? then id.value else 0
    else NewestId(cs[..|cs| - 1], package)
  }

  /** What an entry the program has just made shows. */
  ghost predicate MadeFor(e: Vdf, g: Game, l: Launcher) {
    Number(e.children, APP_ID) == Ok(AppId.AppIdOf(l.exe, g.name) as int) && Launches(e, g.package)
  }

  lemma NewEntryIsMadeFor(e: Vdf, g: Game, l: Launcher)
    requires Managed(EMPTY, e.key, g, l) == Ok(e)
    ensures MadeFor(e, g, l)
  {
    hide Managed, Settings, Shows, AppId.AppIdOf;
    ManagedShows(EMPTY, e.key, g, l);
    ShownNumber(e, e.key, IdFor(0, g, l), g, l);
    ShownText(e, e.key, IdFor(0, g, l), g, l);
  }

  /** A sync keeps the list and puts an entry with a computed id behind it for each game. */
  lemma NewEntriesAreMade(cs: seq<Vdf>, games: seq<Game>, l: Launcher)
    requires WellFormedFields(cs) && SyncEntries(cs, games, l, OWNER_MARK).Ok?
    ensures var out, c := SyncEntries(cs, games, l, OWNER_MARK).value.0, Chosen(games);
      && cs <= out && |out| == |cs| + |c| && forall i | 0 <= i < |c| :: MadeFor(out[|cs| + i], c[i], l)
  {
    hide SplitEntries, AddGames, SafePackage, Chosen, Managed, OwnedPackage, MadeFor, WellFormedField;
    var c := Chosen(games);
    var start := Progress({}, Keys(cs), 0, []);
    MarkIsNoString();
    NothingIsForeignTo(cs, OWNER_MARK);
    AddGamesLists(start, games, l, map[]);
    var es := AddGames(start, games, l, map[]).value.entries;
    forall i | 0 <= i < |c| ensures MadeFor(es[i], c[i], l) {
      assert ListedAs(es[i], c[i], l, map[], start.keys);
      NewEntryIsMadeFor(es[i], c[i], l);
    }
  }

  lemma {:induction false} NewestOfMade(cs: seq<Vdf>, es: seq<Vdf>, c: seq<Game>, l: Launcher, g: Game)
    requires |es| == |c| && (forall i | 0 <= i < |c| :: MadeFor(es[i], c[i], l))
    requires DistinctPackages(c) && g in c
    ensures NewestId(cs + es, g.package) == AppId.AppIdOf(l.exe, g.name) as int
  {
    hide AppId.AppIdOf, Text, Number;
    var n := |c| - 1;
    var all := cs + es;
    assert all[|all| - 1] == es[n] && all[..|all| - 1] == cs + es[..n];
    var k :| 0 <= k < |c| && c[k] == g;
    if k < n {
      assert LAUNCH + c[n].package != LAUNCH + g.package by {
        assert (LAUNCH + c[n].package)[|LAUNCH|..] == c[n].package;
        assert (LAUNCH + g.package)[|LAUNCH|..] == g.package;
      }
      assert c[..n][k] == g;
      NewestOfMade(cs, es[..n], c[..n], l, g);
    }
  }

  /**
    After any sync the newest entry of a listed package has the id its executable and name give, whatever it was
    before.
   */
  lemma NewestIdIsComputed(file: Option<bytes>, games: seq<Game>, l: Launcher, g: Game)
    requires SyncBytes(file, games, l, OWNER_MARK).Ok? && CleanGames(games) && CleanLauncher(l) && g in Chosen(games)
    ensures var out := SyncBytes(file, games, l, OWNER_MARK).value.0;
      NewestId(FileEntries(Some(out)), g.package) == AppId.AppIdOf(l.exe, g.name) as int
  {
    hide SyncEntries, SyncDocument, WriteVdf, ReadVdf, Chosen, MadeFor, NewestId, AppId.AppIdOf, Entries;
    var doc := Document(file).value;
    SyncReadsBack(file, games, l, OWNER_MARK);
    SyncedDocument(doc, games, l, OWNER_MARK);
    DocumentIsWellFormed(file);
    EntriesAreWellFormed(doc);
    var cs := Entries(doc);
    NewEntriesAreMade(cs, games, l);
    var out := SyncEntries(cs, games, l, OWNER_MARK).value.0;
    ChosenOncePerPackage(games);
    assert out == cs + out[|cs|..];
    NewestOfMade(cs, out[|cs|..], Chosen(games), l, g);
  }

  /**
    Exact condition: of two syncs, one after the other, that list a package, the second gives its newest entry the same
    id if and only if executable and name give the same id both times.
   */
  lemma IdSurvivesExactly(file: Option<bytes>, first: Request, second: Request, g1: Game, g2: Game)
    requires CleanRequests([first, second]) && Run(file, [first, second], OWNER_MARK).Ok?
    requires g1 in Chosen(first.games) && g2 in Chosen(second.games) && g1.package == g2.package
    ensures Run(file, [first], OWNER_MARK).Ok?
    ensures NewestId(FileEntries(Run(file, [first, second], OWNER_MARK).value), g1.package) ==
            NewestId(FileEntries(Run(file, [first], OWNER_MARK).value), g1.package) <==>
            AppId.AppIdOf(first.launcher.exe, g1.name) == AppId.AppIdOf(second.launcher.exe, g2.name)
  {
    hide SyncBytes, FileEntries, NewestId, Chosen, AppId.AppIdOf, CleanGames, CleanLauncher;
    assert [first, second][1..] == [second] && [second][1..] == [] && [first][1..] == [];
    assert first in [first, second] && second in [first, second];
    var middle := SyncBytes(file, first.games, first.launcher, OWNER_MARK).value.0;
    NewestIdIsComputed(file, first.games, first.launcher, g1);
    NewestIdIsComputed(Some(middle), second.games, second.launcher, g2);
    assert Run(Some(middle), [], OWNER_MARK) == Ok(Some(middle));
    var last := SyncBytes(Some(middle), second.games, second.launcher, OWNER_MARK).value.0;
    assert Run(file, [first], OWNER_MARK) == Run(Some(middle), [], OWNER_MARK);
    assert Run(file, [first, second], OWNER_MARK) == Run(Some(middle), [second], OWNER_MARK);
    assert Run(Some(middle), [second], OWNER_MARK) == Run(Some(last), [], OWNER_MARK) == Ok(Some(last));
    AppId.SameNumber(AppId.AppIdOf(first.launcher.exe, g1.name), AppId.AppIdOf(second.launcher.exe, g2.name));
  }

  // ---- When a sync of a file succeeds ----

  /** Every failure is one of reading, of the list, or of the limits. */
  lemma SyncSucceedsExactly(file: Option<bytes>, games: seq<Game>, l: Launcher, mark: bytes)
    requires CleanGames(games) && CleanLauncher(l)
    ensures SyncBytes(file, games, l, mark).Ok? <==>
            && Document(file).Ok?
            && SyncDocument(Document(file).value, games, l, mark).Ok?
            && WithinLimits(SyncDocument(Document(file).value, games, l, mark).value.0)
  {
    hide SyncDocument, WriteVdf, ReadVdf, WithinLimits;
    if Document(file).Ok? && SyncDocument(Document(file).value, games, l, mark).Ok? {
      DocumentIsWellFormed(file);
      SyncedDocumentIsWellFormed(Document(file).value, games, l, mark);
      WellFormedIsWritten(SyncDocument(Document(file).value, games, l, mark).value.0);
    }
  }

  // ---- For instance: two syncs of one game, with no file at first ----

  lemma {:induction false} SizeIsBounded(children: seq<Vdf>, end: byte, b: nat, c: nat)
    requires forall n <- children :: |EncodeField(n)| <= b && CountField(n) <= c
    ensures |EncodeObject(children, end)| <= 1 + |children| * b && CountFields(children) <= |children| * c
  {
    hide EncodeField, CountField;
    if children == [] {
    } else {
      assert children[0] in children;
      SizeIsBounded(children[1..], end, b, c);
      Product(|children|, b);
      Product(|children|, c);
    }
  }

  lemma Product(n: nat, b: nat)
    requires n > 0
    ensures n * b == b + (n - 1) * b
  {
  }

  lemma ObjectSize(n: Vdf, b: nat, c: nat)
    requires n.wire == 0 && forall m <- n.children :: |EncodeField(m)| <= b && CountField(m) <= c
    ensures |EncodeField(n)| <= 3 + |n.key| + |n.children| * b && CountField(n) <= 1 + |n.children| * c
  {
    SizeIsBounded(n.children, n.end, b, c);
  }

  lemma ScalarSize(n: Vdf)
    requires n.wire != 0
    ensures |EncodeField(n)| == 2 + |n.key| + |n.value| && CountField(n) == 1
  {
  }

  const LONG: nat := 100000

  /** Far longer than any name or path. */
  predicate Moderate(g: Game, l: Launcher) {
    |g.name| <= LONG && |g.package| <= LONG && |l.exe| <= LONG && |l.start| <= LONG
  }

  lemma SettingsSize(id: uint32, g: Game, l: Launcher)
    requires Moderate(g, l)
    ensures forall n <- Settings(id, g, l) :: n.wire != 0 && |EncodeField(n)| <= 2 * LONG && CountField(n) == 1
  {
    hide Ascii, EncodeField, CountField;
    forall n <- Settings(id, g, l) ensures n.wire != 0 && |EncodeField(n)| <= 2 * LONG && CountField(n) == 1 {
      ScalarSize(n);
    }
  }

  lemma TagsSize()
    ensures |EncodeField(TAGS_NODE)| <= 2 * LONG && CountField(TAGS_NODE) <= 2 && Shallow(TAGS_NODE.children, 3)
  {
    ScalarSize(TAGS_NODE.children[0]);
    ObjectSize(TAGS_NODE, 100, 1);
  }

  /** A new entry is its settings and its tag. */
  lemma NewEntry(key: bytes, g: Game, l: Launcher)
    requires NulFree(key)
    ensures Managed(EMPTY, key, g, l) ==
            Ok(Vdf(0, key, [], Settings(IdFor(0, g, l), g, l) + [TAGS_NODE], 8))
  {
    hide Settings, IdFor;
    var id := IdFor(0, g, l);
    var nodes := Settings(id, g, l);
    NewEntryIsManaged(key, g, l);
    SettingsKeysDiffer(id, g, l);
    PutAllDistinct(nodes);
    assert forall i | 0 <= i < |nodes| :: nodes[i] in nodes;
    assert Position(nodes, TAGS) == Ok(None);
  }

  lemma EntrySize(key: bytes, nodes: seq<Vdf>)
    requires |key| <= 10 && |nodes| == 8
    requires forall n <- nodes :: n.wire != 0 && |EncodeField(n)| <= 2 * LONG && CountField(n) == 1
    ensures SmallEntry(Vdf(0, key, [], nodes + [TAGS_NODE], 8))
  {
    hide EncodeField, CountField;
    TagsSize();
    var e := Vdf(0, key, [], nodes + [TAGS_NODE], 8);
    ObjectSize(e, 2 * LONG, 2);
    hide *;
    assert forall n <- e.children :: n in nodes || n == TAGS_NODE;
    ShallowEntry(e);
  }

  lemma ShallowEntry(e: Vdf)
    requires forall n <- e.children :: n.wire != 0 || n == TAGS_NODE
    ensures Shallow(e.children, 2)
  {
    TagsSize();
  }

  lemma NewEntrySize(key: bytes, g: Game, l: Launcher)
    requires NulFree(key) && |key| <= 10 && Moderate(g, l)
    ensures Managed(EMPTY, key, g, l).Ok? && SmallEntry(Managed(EMPTY, key, g, l).value)
  {
    hide Managed, Settings, EncodeField, CountField, IdFor, SmallEntry;
    NewEntry(key, g, l);
    var id := IdFor(0, g, l);
    SettingsSize(id, g, l);
    EightSettings(id, g, l);
    EntrySize(key, Settings(id, g, l));
  }

  lemma EightSettings(id: uint32, g: Game, l: Launcher)
    ensures |Settings(id, g, l)| == 8
  {
  }

  ghost predicate SmallEntry(e: Vdf) {
    |EncodeField(e)| <= 20 * LONG && CountField(e) <= 20 && e.wire == 0 && Shallow(e.children, 2)
  }

  /** A document with a list of a few entries is within the limits. */
  lemma SmallListFits(es: seq<Vdf>)
    requires |es| <= 4 && forall e <- es :: SmallEntry(e)
    ensures WithinLimits(EMPTY.(children := [Vdf(0, SHORTCUTS, [], es, 8)]))
  {
    hide EncodeField, CountField;
    var list := Vdf(0, SHORTCUTS, [], es, 8);
    ObjectSize(list, 20 * LONG, 20);
    SizeIsBounded([list], 8, 3 + 9 + |es| * (20 * LONG), 1 + |es| * 20);
    assert Shallow(es, 1);
    assert Shallow([list], 0);
  }

  /** One more game, in a list none of whose entries is recognised. */
  lemma OneGame(cs: seq<Vdf>, g: Game, l: Launcher)
    requires WellFormedFields(cs) && SafePackage(g.package) && SplitEntries(cs, OWNER_MARK).Ok?
    ensures var key := Decimal.Print(Decimal.FreshFrom(Keys(cs), 0));
      && Managed(EMPTY, key, g, l).Ok?
      && SyncEntries(cs, [g], l, OWNER_MARK) == Ok((cs + [Managed(EMPTY, key, g, l).value], 1))
  {
    hide SplitEntries, SafePackage, Managed, WellFormedField;
    MarkIsNoString();
    NothingIsForeignTo(cs, OWNER_MARK);
    var start := Progress({}, Keys(cs), 0, []);
    var key := Decimal.Print(Decimal.FreshFrom(Keys(cs), 0));
    NewEntryIsManaged(key, g, l);
    assert [g][..0] == [] && AddGames(start, [], l, map[]) == Ok(start);
    assert AddGames(start, [g], l, map[]) == AddGame(start, g, l, map[]);
    assert {} + {g.package} == {g.package} && |{g.package}| == 1;
    var e := Managed(EMPTY, key, g, l).value;
    assert [] + [e] == [e];
  }

  lemma SmallKeys(k: bytes)
    ensures Decimal.FreshFrom({}, 0) == 0 && Decimal.FreshFrom({k}, 0) <= 1
    ensures |Decimal.Print(0)| == 1 && |Decimal.Print(1)| == 1
  {
    Decimal.PrintIsInjective(0);
    Decimal.PrintIsInjective(1);
    assert Decimal.Print(0) != Decimal.Print(1);
  }

  /** A sync of a document without anything but its list, whose entries are few. */
  lemma SyncFits(doc: Vdf, cs: seq<Vdf>, games: seq<Game>, l: Launcher, es: seq<Vdf>)
    requires (doc == EMPTY && cs == []) || doc == EMPTY.(children := [Vdf(0, SHORTCUTS, [], cs, 8)])
    requires SyncEntries(cs, games, l, OWNER_MARK).Ok? && SyncEntries(cs, games, l, OWNER_MARK).value.0 == es
    requires |es| <= 4 && forall e <- es :: SmallEntry(e)
    ensures SyncDocument(doc, games, l, OWNER_MARK).Ok?
    ensures SyncDocument(doc, games, l, OWNER_MARK).value.0 == EMPTY.(children := [Vdf(0, SHORTCUTS, [], es, 8)])
    ensures WithinLimits(SyncDocument(doc, games, l, OWNER_MARK).value.0)
  {
    hide SyncEntries, SmallEntry, WithinLimits;
    SmallListFits(es);
    if doc.children != [] {
      UniquePosition(doc.children, SHORTCUTS, 0);
    }
  }

  lemma FileAfter(file: Option<bytes>, games: seq<Game>, l: Launcher, es: seq<Vdf>)
    requires CleanGames(games) && CleanLauncher(l) && Document(file).Ok?
    requires SyncDocument(Document(file).value, games, l, OWNER_MARK).Ok?
    requires var after := SyncDocument(Document(file).value, games, l, OWNER_MARK).value.0;
             after == EMPTY.(children := [Vdf(0, SHORTCUTS, [], es, 8)]) && WithinLimits(after)
    ensures SyncBytes(file, games, l, OWNER_MARK).Ok?
    ensures var out := SyncBytes(file, games, l, OWNER_MARK).value.0;
      && Document(Some(out)) == Ok(EMPTY.(children := [Vdf(0, SHORTCUTS, [], es, 8)]))
      && FileEntries(Some(out)) == es && WellFormedFields(es)
  {
    hide SyncDocument, SyncEntries, WithinLimits, WriteVdf, ReadVdf, WellFormedField;
    SyncSucceedsExactly(file, games, l, OWNER_MARK);
    SyncReadsBack(file, games, l, OWNER_MARK);
    var doc := EMPTY.(children := [Vdf(0, SHORTCUTS, [], es, 8)]);
    UniquePosition(doc.children, SHORTCUTS, 0);
    DocumentIsWellFormed(Some(SyncBytes(file, games, l, OWNER_MARK).value.0));
    EntriesAreWellFormed(doc);
  }

  /** One more sync of one game, of no file or of one a few such syncs have made. */
  lemma OneMoreSync(file: Option<bytes>, cs: seq<Vdf>, g: Game, l: Launcher)
    requires SafePackage(g.package) && CleanGames([g]) && CleanLauncher(l) && Moderate(g, l)
    requires if file.None? then cs == [] else Document(file) == Ok(EMPTY.(children := [Vdf(0, SHORTCUTS, [], cs, 8)]))
    requires |cs| <= 1 && WellFormedFields(cs) && SplitEntries(cs, OWNER_MARK).Ok? && forall e <- cs :: SmallEntry(e)
    ensures SyncBytes(file, [g], l, OWNER_MARK).Ok?
    ensures var out, es := SyncBytes(file, [g], l, OWNER_MARK).value.0, SyncEntries(cs, [g], l, OWNER_MARK);
      && es.Ok? && cs <= es.value.0 && |es.value.0| == |cs| + 1 && (forall e <- es.value.0 :: SmallEntry(e))
      && Document(Some(out)) == Ok(EMPTY.(children := [Vdf(0, SHORTCUTS, [], es.value.0, 8)]))
      && FileEntries(Some(out)) == es.value.0 && WellFormedFields(es.value.0)
  {
    hide SafePackage, Managed, SyncEntries, SyncDocument, SyncBytes, SmallEntry, WriteVdf, ReadVdf, WellFormedField,
      FileEntries, SplitEntries, WithinLimits, CleanGames, CleanLauncher, Moderate;
    var key := Decimal.Print(Decimal.FreshFrom(Keys(cs), 0));
    assert Keys(cs) == if cs == [] then {} else {cs[0].key};
    SmallKeys(if cs == [] then [] else cs[0].key);
    OneGame(cs, g, l);
    NewEntrySize(key, g, l);
    var es := cs + [Managed(EMPTY, key, g, l).value];
    var doc := if file.None? then EMPTY else EMPTY.(children := [Vdf(0, SHORTCUTS, [], cs, 8)]);
    SyncFits(doc, cs, [g], l, es);
    FileAfter(file, [g], l, es);
  }

  lemma PackageA()
    ensures SafePackage(Ascii("a"))
  {
    assert Ascii("a")[0] == 'a' as int;
    assert !Reserved(Ascii("a"));
  }

  /** Two syncs, under any two names and paths of up to 100000 octets, succeed and leave two entries for one game. */
  lemma TwoSyncsOneGame(name1: bytes, l1: Launcher, name2: bytes, l2: Launcher)
    requires NulFree(name1) && NulFree(name2) && CleanLauncher(l1) && CleanLauncher(l2)
    requires Moderate(Game(Ascii("a"), name1), l1) && Moderate(Game(Ascii("a"), name2), l2)
    ensures var r1, r2 := Request([Game(Ascii("a"), name1)], l1), Request([Game(Ascii("a"), name2)], l2);
      && Run(None, [r1], OWNER_MARK).Ok? && |FileEntries(Run(None, [r1], OWNER_MARK).value)| == 1
      && Run(None, [r1, r2], OWNER_MARK).Ok? && |FileEntries(Run(None, [r1, r2], OWNER_MARK).value)| == 2
  {
    assert SplitEntries([], OWNER_MARK).Ok?;
    hide SafePackage, SyncEntries, SyncBytes, SmallEntry, ReadVdf, WellFormedField, FileEntries, SplitEntries, Moderate;
    var g1, g2 := Game(Ascii("a"), name1), Game(Ascii("a"), name2);
    PackageA();
    OneMoreSync(None, [], g1, l1);
    var out1 := SyncBytes(None, [g1], l1, OWNER_MARK).value.0;
    var cs := SyncEntries([], [g1], l1, OWNER_MARK).value.0;
    SyncedListIsReadable([], [g1], l1, OWNER_MARK);
    OneMoreSync(Some(out1), cs, g2, l2);
    var out2 := SyncBytes(Some(out1), [g2], l2, OWNER_MARK).value.0;
    var r1, r2 := Request([g1], l1), Request([g2], l2);
    assert [r1, r2][1..] == [r2] && [r2][1..] == [] && [r1][1..] == [];
    assert Run(None, [r1], OWNER_MARK) == Run(Some(out1), [], OWNER_MARK) == Ok(Some(out1));
    assert Run(None, [r1, r2], OWNER_MARK) == Run(Some(out1), [r2], OWNER_MARK);
    assert Run(Some(out1), [r2], OWNER_MARK) == Run(Some(out2), [], OWNER_MARK) == Ok(Some(out2));
  }

  /** And if the game was renamed from "A" to "B" in between, its newest entry has another id than the one before. */
  lemma RenamedGameLosesId(l: Launcher)
    requires CleanLauncher(l) && |l.exe| <= LONG && |l.start| <= LONG
    ensures var r1, r2 := Request([Game(Ascii("a"), [0x41])], l), Request([Game(Ascii("a"), [0x42])], l);
      && Run(None, [r1], OWNER_MARK).Ok? && Run(None, [r1, r2], OWNER_MARK).Ok?
      && NewestId(FileEntries(Run(None, [r1, r2], OWNER_MARK).value), Ascii("a")) !=
         NewestId(FileEntries(Run(None, [r1], OWNER_MARK).value), Ascii("a"))
  {
    hide SafePackage, Run, NewestId, FileEntries, AppId.AppIdOf;
    var g1, g2 := Game(Ascii("a"), [0x41]), Game(Ascii("a"), [0x42]);
    PackageA();
    TwoSyncsOneGame([0x41], l, [0x42], l);
    assert Chosen([g1]) == [g1] && Chosen([g2]) == [g2] by {
      assert [g1][..0] == [] && [g2][..0] == [] && Chosen([]) == [];
    }
    AppId.RenamedDiffers(l.exe);
    IdSurvivesExactly(None, Request([g1], l), Request([g2], l), g1, g2);
  }
}
