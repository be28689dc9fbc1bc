/**
  What is in the shortcuts file after a sync, in Steam's own names and bytes: nothing here speaks of the functions that
  make an entry.
 */
module ShortcutFile {
  import opened Bytes
  import opened VdfCodec
  import opened Fields
  import opened Shortcuts
  import opened ShortcutEntries
  import opened ShortcutSync
  import opened ShortcutTheorems
  import AppId
  import Decimal

  // ---- Entries ----

  /** The object has one field of this name, of this wire type and with this payload. */
  ghost predicate HasField(cs: seq<Vdf>, name: bytes, wire: byte, payload: bytes) {
    exists i: nat :: FieldAt(cs, i, name) && cs[i].wire == wire && cs[i].value == payload
  }

  ghost predicate FieldAt(cs: seq<Vdf>, i: nat, name: bytes) {
    i < |cs| && cs[i].key == name && forall j | 0 <= j < |cs| && j != i :: cs[j].key != name
  }

  /** Text fields end in NUL. */
  ghost predicate ShowsTexts(cs: seq<Vdf>, g: Game, l: Launcher) {
    && HasField(cs, Ascii("appname"), 1, g.name + [0])
    && HasField(cs, Ascii("exe"), 1, l.exe + [0])
    && HasField(cs, Ascii("StartDir"), 1, l.start + [0])
    && HasField(cs, Ascii("LaunchOptions"), 1, Ascii("--launch ") + g.package + [0])
  }

  /** Numbers are four octets, the least first: the flags are one, the id is some number but zero. */
  ghost predicate ShowsNumbers(cs: seq<Vdf>) {
    && HasField(cs, Ascii("OpenVR"), 2, [1, 0, 0, 0])
    && HasField(cs, Ascii("AllowOverlay"), 2, [1, 0, 0, 0])
    && HasField(cs, Ascii("AllowDesktopConfig"), 2, [1, 0, 0, 0])
    && exists id: bytes :: HasField(cs, Ascii("appid"), 2, id) && |id| == 4 && id != [0, 0, 0, 0]
  }

  /** An entry from which Steam starts the game. */
  ghost predicate StartsGame(e: Vdf, g: Game, l: Launcher) {
    e.wire == 0 && ShowsTexts(e.children, g, l) && ShowsNumbers(e.children)
  }

  /** The entry is in the document's one list of shortcuts. */
  ghost predicate InList(doc: Vdf, e: Vdf) {
    exists i: nat ::
      FieldAt(doc.children, i, Ascii("shortcuts")) && doc.children[i].wire == 0 && e in doc.children[i].children
  }

  lemma HoldsField(cs: seq<Vdf>, key: bytes, value: bytes, wire: byte)
    requires Holds(cs, Scalar(key, value, wire))
    ensures HasField(cs, key, wire, if wire == 1 then value + [0] else value)
  {
    var i := Position(cs, key).value.value;
    assert FieldAt(cs, i, key);
  }

  lemma One()
    ensures Integer(1) == [1, 0, 0, 0]
  {
  }

  lemma NonzeroInteger(n: uint32)
    requires n != 0
    ensures |Integer(n)| == 4 && Integer(n) != [0, 0, 0, 0]
  {
    IntegerRoundTrip(n, []);
  }

  lemma SettingsHold(cs: seq<Vdf>, id: uint32, g: Game, l: Launcher)
    requires HoldsAll(cs, Settings(id, g, l))
    ensures Holds(cs, Scalar(APP_ID, Integer(id), 2)) && Holds(cs, Scalar(APP_NAME, g.name, 1))
    ensures Holds(cs, Scalar(EXE, l.exe, 1)) && Holds(cs, Scalar(START_DIR, l.start, 1))
    ensures Holds(cs, Scalar(LAUNCH_OPTIONS, LAUNCH + g.package, 1)) && Holds(cs, Scalar(OPEN_VR, Integer(1), 2))
    ensures Holds(cs, Scalar(ALLOW_OVERLAY, Integer(1), 2)) && Holds(cs, Scalar(ALLOW_DESKTOP_CONFIG, Integer(1), 2))
  {
    hide Ascii, Integer, Holds, Scalar;
    var nodes := Settings(id, g, l);
    assert nodes[0] in nodes && nodes[1] in nodes && nodes[2] in nodes && nodes[3] in nodes;
    assert nodes[4] in nodes && nodes[5] in nodes && nodes[6] in nodes && nodes[7] in nodes;
  }

  lemma TextsAreShown(cs: seq<Vdf>, id: uint32, g: Game, l: Launcher)
    requires HoldsAll(cs, Settings(id, g, l))
    ensures ShowsTexts(cs, g, l)
  {
    hide Ascii, Integer, Holds, HoldsAll, HasField, Settings;
    SettingsHold(cs, id, g, l);
    HoldsField(cs, APP_NAME, g.name, 1);
    HoldsField(cs, EXE, l.exe, 1);
    HoldsField(cs, START_DIR, l.start, 1);
    HoldsField(cs, LAUNCH_OPTIONS, LAUNCH + g.package, 1);
  }

  lemma NumbersAreShown(cs: seq<Vdf>, id: uint32, g: Game, l: Launcher)
    requires HoldsAll(cs, Settings(id, g, l)) && id != 0
    ensures ShowsNumbers(cs)
  {
    hide Ascii, Integer, Holds, HoldsAll, HasField, Settings;
    SettingsHold(cs, id, g, l);
    One();
    NonzeroInteger(id);
    HoldsField(cs, APP_ID, Integer(id), 2);
    HoldsField(cs, OPEN_VR, Integer(1), 2);
    HoldsField(cs, ALLOW_OVERLAY, Integer(1), 2);
    HoldsField(cs, ALLOW_DESKTOP_CONFIG, Integer(1), 2);
  }

  /** Managing an entry makes it such an entry. */
  lemma ManagedStartsGame(base: Vdf, key: bytes, g: Game, l: Launcher)
    requires Managed(base, key, g, l).Ok? && base.wire == 0
    ensures StartsGame(Managed(base, key, g, l).value, g, l)
  {
    hide Managed, IdFor, Settings, HoldsAll, ShowsTexts, ShowsNumbers;
    ManagedShows(base, key, g, l);
    var e := Managed(base, key, g, l).value;
    var id := IdFor(Number(base.children, APP_ID).value, g, l);
    IdIsNonzero(Number(base.children, APP_ID).value, g, l);
    TextsAreShown(e.children, id, g, l);
    NumbersAreShown(e.children, id, g, l);
    ManagedWire(base, key, g, l);
  }

  lemma ManagedWire(base: Vdf, key: bytes, g: Game, l: Launcher)
    requires Managed(base, key, g, l).Ok?
    ensures Managed(base, key, g, l).value.wire == base.wire
  {
  }

  /** The first game with its package is the one listed. */
  lemma {:induction false} FirstIsChosen(games: seq<Game>, i: nat)
    requires i < |games| && SafePackage(games[i].package)
    requires forall j | 0 <= j < i :: games[j].package != games[i].package
    ensures games[i] in Chosen(games)
  {
    hide SafePackage;
    var n := |games| - 1;
    if i < n {
      FirstIsChosen(games[..n], i);
    } else {
      ChosenOncePerPackage(games[..n]);
      assert forall g <- Chosen(games[..n]) :: g in games[..n];
    }
  }

  lemma ListedStartsGame(cs: seq<Vdf>, games: seq<Game>, l: Launcher, mark: bytes, g: Game)
    requires SyncEntries(cs, games, l, mark).Ok? && WellFormedFields(cs) && g in Chosen(games)
    ensures exists e :: e in SyncEntries(cs, games, l, mark).value.0 && StartsGame(e, g, l)
  {
    hide SplitEntries, AddGames, SafePackage, Chosen, Managed, OwnedPackage, WellFormedField, StartsGame;
    var split := SplitEntries(cs, mark).value;
    var start := Progress({}, Keys(split.retained), 0, []);
    var es, c := AddGames(start, games, l, split.prior).value.entries, Chosen(games);
    SplitParts(cs, mark);
    AddGamesLists(start, games, l, split.prior);
    var i :| 0 <= i < |c| && c[i] == g;
    assert ListedAs(es[i], c[i], l, split.prior, start.keys);
    BaseIsWellFormed(cs, split.prior, g.package, mark);
    ManagedStartsGame(Base(split.prior, g.package), es[i].key, g, l);
    assert (split.retained + es)[|split.retained| + i] == es[i];
  }

  /**
    After a sync, with whatever tag, the file has in its list an entry that starts each game: the first of each safe
    package, with that game's name.
   */
  lemma GamesAreInFile(file: Option<bytes>, games: seq<Game>, l: Launcher, mark: bytes, i: nat)
    requires SyncBytes(file, games, l, mark).Ok? && CleanGames(games) && CleanLauncher(l)
    requires i < |games| && SafePackage(games[i].package)
    requires forall j | 0 <= j < i :: games[j].package != games[i].package
    ensures var out := SyncBytes(file, games, l, mark).value.0;
      ReadVdf(out).Ok? && exists e :: InList(ReadVdf(out).value, e) && StartsGame(e, games[i], l)
  {
    hide SyncEntries, SyncDocument, WriteVdf, ReadVdf, Chosen, StartsGame, Entries, SafePackage, WellFormed;
    var doc := Document(file).value;
    SyncReadsBack(file, games, l, mark);
    SyncedDocument(doc, games, l, mark);
    SyncedDocumentHasList(doc, games, l, mark);
    DocumentIsWellFormed(file);
    EntriesAreWellFormed(doc);
    FirstIsChosen(games, i);
    ListedStartsGame(Entries(doc), games, l, mark, games[i]);
    var e :| e in SyncEntries(Entries(doc), games, l, mark).value.0 && StartsGame(e, games[i], l);
    ListIsThere(doc, games, l, mark, e);
  }

  lemma ListIsThere(doc: Vdf, games: seq<Game>, l: Launcher, mark: bytes, e: Vdf)
    requires SyncDocument(doc, games, l, mark).Ok? && e in Entries(SyncDocument(doc, games, l, mark).value.0)
    ensures InList(SyncDocument(doc, games, l, mark).value.0, e)
  {
    hide SyncEntries, SyncDocument, WithList, Ascii;
    var after := SyncDocument(doc, games, l, mark).value.0;
    SyncedDocumentHasList(doc, games, l, mark);
    var i := Position(after.children, SHORTCUTS).value.value;
    assert FieldAt(after.children, i, SHORTCUTS);
    ListStays(doc, games, l, mark);
    ListIsObject(after, i);
  }

  lemma ListIsObject(doc: Vdf, i: nat)
    requires WithList(doc).Ok? && Position(doc.children, SHORTCUTS) == Ok(Some(i))
    ensures doc.children[i].wire == 0
  {
  }

  // ---- Whose an entry is ----

  /** The entry carries the tag, and its launch options name the package. */
  ghost predicate Carries(e: Vdf, mark: bytes, package: bytes) {
    && (exists i: nat :: FieldAt(e.children, i, Ascii("tags")) && e.children[i].wire == 0 &&
                    exists n :: n in e.children[i].children && n.wire == 1 && n.value == mark)
    && HasField(e.children, Ascii("LaunchOptions"), 1, Ascii("--launch ") + package + [0])
  }

  /** Exact condition: an entry is a package's if and only if it carries the tag and launches that safe package. */
  lemma OwnedExactly(e: Vdf, mark: bytes, package: bytes)
    requires WellFormedFields(e.children) && package != []
    ensures OwnedPackage(e, mark) == Ok(package) <==> Carries(e, mark, package) && SafePackage(package)
  {
    hide SafePackage, WellFormedField, Ascii;
    if Carries(e, mark, package) && SafePackage(package) {
      CarriedIsOwned(e, mark, package);
    }
    if OwnedPackage(e, mark) == Ok(package) {
      OwnedIsCarried(e, mark, package);
    }
  }

  lemma FieldPosition(cs: seq<Vdf>, i: nat, name: bytes)
    requires FieldAt(cs, i, name)
    ensures Position(cs, name) == Ok(Some(i))
  {
    UniquePosition(cs, name, i);
  }

  lemma FieldText(cs: seq<Vdf>, name: bytes, text: bytes)
    requires HasField(cs, name, 1, text + [0])
    ensures Text(cs, name) == Ok(text)
  {
    hide Position;
    var i: nat :| FieldAt(cs, i, name) && cs[i].wire == 1 && cs[i].value == text + [0];
    FieldPosition(cs, i, name);
    assert (text + [0])[..|text|] == text;
  }

  lemma CarriedIsOwned(e: Vdf, mark: bytes, package: bytes)
    requires Carries(e, mark, package) && SafePackage(package)
    ensures OwnedPackage(e, mark) == Ok(package)
  {
    hide SafePackage, Ascii, Position, Text, HasField;
    var i: nat :| FieldAt(e.children, i, TAGS) && i < |e.children| && e.children[i].wire == 0 &&
      exists n :: n in e.children[i].children && n.wire == 1 && n.value == mark;
    FieldPosition(e.children, i, TAGS);
    FieldText(e.children, LAUNCH_OPTIONS, LAUNCH + package);
    assert (LAUNCH + package)[|LAUNCH|..] == package;
  }

  lemma OwnedIsCarried(e: Vdf, mark: bytes, package: bytes)
    requires WellFormedFields(e.children) && package != [] && OwnedPackage(e, mark) == Ok(package)
    ensures Carries(e, mark, package) && SafePackage(package)
  {
    hide SafePackage, WellFormedField, Ascii;
    var i := Position(e.children, TAGS).value.value;
    assert FieldAt(e.children, i, TAGS);
    var k := Position(e.children, LAUNCH_OPTIONS).value;
    LaunchIsNotEmpty();
    var value := e.children[k.value].value;
    assert e.children[k.value] in e.children;
    StringEnds(e.children[k.value]);
    var options := value[..|value| - 1];
    assert options == LAUNCH + options[|LAUNCH|..] && value == options + [0];
    assert FieldAt(e.children, k.value, LAUNCH_OPTIONS);
  }

  lemma LaunchIsNotEmpty()
    ensures |LAUNCH| == 9
  {
  }

  lemma StringEnds(n: Vdf)
    requires WellFormedField(n) && n.wire == 1
    ensures n.value != [] && n.value[|n.value| - 1] == 0
  {
  }

  // ---- What `listed` looks at ----

  /** The text of an entry's field, or nothing if there is none. */
  ghost predicate ShowsText(cs: seq<Vdf>, name: bytes, text: bytes) {
    HasField(cs, name, 1, text + [0]) || (text == [] && forall payload: bytes :: !HasField(cs, name, 1, payload))
  }

  lemma TextIsShown(cs: seq<Vdf>, name: bytes, text: bytes)
    requires WellFormedFields(cs) && Text(cs, name) == Ok(text)
    ensures ShowsText(cs, name, text)
  {
    hide Position, WellFormedField;
    var p := Position(cs, name).value;
    if p.Some? && cs[p.value].wire == 1 {
      var value := cs[p.value].value;
      assert cs[p.value] in cs;
      StringEnds(cs[p.value]);
      assert value == value[..|value| - 1] + [0];
      assert FieldAt(cs, p.value, name);
    } else {
      forall payload: bytes ensures HasField(cs, name, 1, payload) ==> p.Some? && cs[p.value].wire == 1 {
        FieldIsFound(cs, name, payload);
      }
    }
  }

  lemma FieldIsFound(cs: seq<Vdf>, name: bytes, payload: bytes)
    requires Position(cs, name).Ok?
    ensures var p := Position(cs, name).value;
      HasField(cs, name, 1, payload) ==> p.Some? && cs[p.value].wire == 1
  {
    if HasField(cs, name, 1, payload) {
      var i: nat :| FieldAt(cs, i, name) && cs[i].wire == 1 && cs[i].value == payload;
      FieldPosition(cs, i, name);
    }
  }

  /** An entry of a list for this game, with its name, executable and folder. */
  ghost predicate IsUpToDate(e: Vdf, mark: bytes, g: Game, l: Launcher) {
    && Carries(e, mark, g.package) && ShowsText(e.children, Ascii("appname"), g.name)
    && ShowsText(e.children, Ascii("exe"), l.exe) && ShowsText(e.children, Ascii("StartDir"), l.start)
  }

  /** A file counts as listed only if each game has an entry of its own with its name, executable and folder. */
  lemma ListedShows(input: bytes, games: seq<Game>, l: Launcher, mark: bytes, i: nat)
    requires Listed(Some(input), games, l, mark) && i < |games| && SafePackage(games[i].package)
    requires forall j | 0 <= j < i :: games[j].package != games[i].package
    ensures ReadVdf(input).Ok? && exists e :: e in Entries(ReadVdf(input).value) && IsUpToDate(e, mark, games[i], l)
  {
    hide SplitEntries, Chosen, SafePackage, OwnedPackage, WellFormedField, ReadVdf, Entries, Ascii, Carries, ShowsText;
    var g, doc := games[i], ReadVdf(input).value;
    FirstIsChosen(games, i);
    ReadThenWrite(input);
    EntriesAreWellFormed(doc);
    var split := SplitEntries(Entries(doc), mark).value;
    SplitParts(Entries(doc), mark);
    var e := split.prior[g.package];
    assert OwnedAs(e, g.package, mark) && Matches(e, g, l);
    ChildrenAreWellFormed(e, mark);
    OwnedExactly(e, mark, g.package);
    TextIsShown(e.children, APP_NAME, g.name);
    TextIsShown(e.children, EXE, l.exe);
    TextIsShown(e.children, START_DIR, l.start);
  }

  lemma ChildrenAreWellFormed(e: Vdf, mark: bytes)
    requires WellFormedField(e)
    ensures WellFormedFields(e.children)
  {
  }

  // ---- The first file, octet by octet ----

  function TextField(name: bytes, text: bytes): bytes {
    [1] + name + [0] + text + [0]
  }

  function NumberField(name: bytes, octets: bytes): bytes {
    [2] + name + [0] + octets
  }

  /** The least octet first. */
  function FourOctets(n: uint32): bytes {
    [n % 0x100, n / 0x100 % 0x100, n / 0x1_0000 % 0x100, n / 0x100_0000]
  }

  function TextFields(g: Game, l: Launcher): bytes {
    TextField(Ascii("appname"), g.name) + TextField(Ascii("exe"), l.exe) + TextField(Ascii("StartDir"), l.start) +
    TextField(Ascii("LaunchOptions"), Ascii("--launch ") + g.package)
  }

  function FlagFields(): bytes {
    NumberField(Ascii("OpenVR"), [1, 0, 0, 0]) + NumberField(Ascii("AllowOverlay"), [1, 0, 0, 0]) +
    NumberField(Ascii("AllowDesktopConfig"), [1, 0, 0, 0])
  }

  /** The fields of a new entry, in the order of the file. */
  function NewFields(id: uint32, g: Game, l: Launcher): bytes {
    NumberField(Ascii("appid"), FourOctets(id)) + TextFields(g, l) + FlagFields() +
    ObjectField(Ascii("tags"), TextField(Ascii("0"), Ascii("RiftLift")))
  }

  /** An object: its type and name, its fields, its end marker. */
  function ObjectField(name: bytes, fields: bytes): bytes {
    [0] + name + [0] + fields + [8]
  }

  function FirstFile(id: uint32, g: Game, l: Launcher): bytes {
    ObjectField(Ascii("shortcuts"), ObjectField(Ascii("0"), NewFields(id, g, l))) + [8]
  }

  /** The encodings of the fields, joined. */
  function AllFields(cs: seq<Vdf>): bytes {
    if cs == [] then [] else EncodeField(cs[0]) + AllFields(cs[1..])
  }

  lemma {:induction false} ObjectIsFields(cs: seq<Vdf>, end: byte)
    ensures EncodeObject(cs, end) == AllFields(cs) + [end]
  {
    hide EncodeField;
    if cs == [] {
      assert [] + [end] == [end];
    } else {
      ObjectIsFields(cs[1..], end);
    }
  }

  lemma {:induction false} FieldsJoin(a: seq<Vdf>, b: seq<Vdf>)
    ensures AllFields(a + b) == AllFields(a) + AllFields(b)
  {
    hide EncodeField;
    if a == [] {
      assert a + b == b;
    } else {
      assert (a + b)[1..] == a[1..] + b;
      FieldsJoin(a[1..], b);
    }
  }

  lemma OneField(n: Vdf)
    ensures AllFields([n]) == EncodeField(n)
  {
    hide EncodeField;
    assert [n][1..] == [] && EncodeField(n) + [] == EncodeField(n);
  }

  lemma ScalarField(key: bytes, value: bytes, wire: byte)
    requires wire == 1 || wire == 2
    ensures AllFields([Scalar(key, value, wire)]) ==
            if wire == 1 then TextField(key, value) else NumberField(key, value)
  {
    OneField(Scalar(key, value, wire));
  }

  lemma ObjectIsField(key: bytes, children: seq<Vdf>)
    ensures AllFields([Vdf(0, key, [], children, 8)]) == ObjectField(key, AllFields(children))
  {
    hide AllFields;
    OneField(Vdf(0, key, [], children, 8));
    ObjectIsFields(children, 8);
  }

  lemma SettingsFields(id: uint32, g: Game, l: Launcher)
    ensures AllFields(Settings(id, g, l)) ==
            NumberField(Ascii("appid"), FourOctets(id)) + TextFields(g, l) + FlagFields()
  {
    hide AllFields, Ascii, TextField, NumberField;
    var n, t, f := [Scalar(APP_ID, Integer(id), 2)], SettingsTexts(g, l), SettingsFlags();
    assert Settings(id, g, l) == n + t + f;
    FieldsJoin(n + t, f);
    FieldsJoin(n, t);
    ScalarField(APP_ID, Integer(id), 2);
    SettingsTextFields(g, l);
    SettingsFlagFields();
    assert Integer(id) == FourOctets(id);
  }

  function SettingsTexts(g: Game, l: Launcher): seq<Vdf> {
    [Scalar(APP_NAME, g.name, 1)] + [Scalar(EXE, l.exe, 1)] + [Scalar(START_DIR, l.start, 1)] +
    [Scalar(LAUNCH_OPTIONS, LAUNCH + g.package, 1)]
  }

  lemma SettingsTextFields(g: Game, l: Launcher)
    ensures AllFields(SettingsTexts(g, l)) == TextFields(g, l)
  {
    hide AllFields, Ascii, TextField, NumberField;
    var a, b := [Scalar(APP_NAME, g.name, 1)], [Scalar(EXE, l.exe, 1)];
    var c, d := [Scalar(START_DIR, l.start, 1)], [Scalar(LAUNCH_OPTIONS, LAUNCH + g.package, 1)];
    FieldsJoin(a + b + c, d);
    FieldsJoin(a + b, c);
    FieldsJoin(a, b);
    ScalarField(APP_NAME, g.name, 1);
    ScalarField(EXE, l.exe, 1);
    ScalarField(START_DIR, l.start, 1);
    ScalarField(LAUNCH_OPTIONS, LAUNCH + g.package, 1);
  }

  function SettingsFlags(): seq<Vdf> {
    [Scalar(OPEN_VR, Integer(1), 2)] + [Scalar(ALLOW_OVERLAY, Integer(1), 2)] +
    [Scalar(ALLOW_DESKTOP_CONFIG, Integer(1), 2)]
  }

  lemma SettingsFlagFields()
    ensures AllFields(SettingsFlags()) == FlagFields()
  {
    hide AllFields, Ascii, TextField, NumberField;
    var a, b, c := [Scalar(OPEN_VR, Integer(1), 2)], [Scalar(ALLOW_OVERLAY, Integer(1), 2)],
      [Scalar(ALLOW_DESKTOP_CONFIG, Integer(1), 2)];
    FieldsJoin(a + b, c);
    FieldsJoin(a, b);
    One();
    ScalarField(OPEN_VR, Integer(1), 2);
    ScalarField(ALLOW_OVERLAY, Integer(1), 2);
    ScalarField(ALLOW_DESKTOP_CONFIG, Integer(1), 2);
  }

  /** A new entry is its settings and the tag. */
  lemma NewEntry(key: bytes, g: Game, l: Launcher)
    requires NulFree(key)
    ensures Managed(EMPTY, key, g, l) == Ok(Vdf(0, key, [], Settings(IdFor(0, g, l), g, l) + [TAGS_NODE], 8))
  {
    hide Settings, IdFor;
    var id := IdFor(0, g, l);
    var nodes := Settings(id, g, l);
    SettingsKeysDiffer(id, g, l);
    PutAllDistinct(nodes);
    assert forall i | 0 <= i < |nodes| :: nodes[i] in nodes;
    assert Position(nodes, TAGS) == Ok(None);
    assert Position(nodes + [TAGS_NODE], ICON) == Ok(None) by {
      assert TAGS[0] != ICON[0];
    }
  }

  lemma NewEntryFields(key: bytes, g: Game, l: Launcher)
    requires NulFree(key)
    ensures Managed(EMPTY, key, g, l).Ok?
    ensures AllFields([Managed(EMPTY, key, g, l).value]) == ObjectField(key, NewFields(IdFor(0, g, l), g, l))
  {
    hide AllFields, Ascii, TextField, NumberField, Managed, Settings, TextFields, FlagFields, IdFor;
    var id := IdFor(0, g, l);
    NewEntry(key, g, l);
    ObjectIsField(key, Settings(id, g, l) + [TAGS_NODE]);
    FieldsJoin(Settings(id, g, l), [TAGS_NODE]);
    SettingsFields(id, g, l);
    ScalarField(Ascii("0"), OWNER_MARK, 1);
    ObjectIsField(TAGS, [Scalar(Ascii("0"), OWNER_MARK, 1)]);
  }

  /** The list a first sync makes. */
  lemma FirstList(g: Game, l: Launcher, mark: bytes)
    requires SafePackage(g.package)
    ensures Managed(EMPTY, Ascii("0"), g, l).Ok?
    ensures SyncEntries([], [g], l, mark) == Ok(([Managed(EMPTY, Ascii("0"), g, l).value], 1))
  {
    hide SafePackage, Managed;
    assert NulFree(Ascii("0"));
    NewEntryIsManaged(Ascii("0"), g, l);
    ManagedKey(EMPTY, Ascii("0"), g, l);
    var start := Progress({}, Keys([]), 0, []);
    assert Keys([]) == {};
    assert Decimal.Print(0) == Ascii("0") && Decimal.FreshFrom({}, 0) == 0;
    assert [g][..0] == [] && AddGames(start, [], l, map[]) == Ok(start);
    assert SplitEntries([], mark) == Ok(Split([], map[]));
    var e := Managed(EMPTY, Ascii("0"), g, l).value;
    assert AddGame(start, g, l, map[]).value.entries == [] + [e] == [e];
    assert {} + {g.package} == {g.package};
  }

  /** With no file at first, a sync of one game writes exactly these octets, whatever tag it looks for. */
  lemma FirstSyncWrites(g: Game, l: Launcher, mark: bytes)
    requires SafePackage(g.package) && SyncBytes(None, [g], l, mark).Ok?
    ensures SyncBytes(None, [g], l, mark) == Ok((FirstFile(AppId.AppIdOf(l.exe, g.name) as int, g, l), 1))
  {
    hide SafePackage, SyncEntries, WriteVdf, NewFields, Managed, ObjectField, AllFields, EncodeObject, AppId.AppIdOf;
    FirstList(g, l, mark);
    var list := Vdf(0, SHORTCUTS, [], [Managed(EMPTY, Ascii("0"), g, l).value], 8);
    FirstDocument(g, l, mark, list);
    WriteIsEncode(Vdf(0, [], [], [list], 8));
    ObjectIsFields([list], 8);
    ObjectIsField(SHORTCUTS, list.children);
    NewEntryFields(Ascii("0"), g, l);
  }

  lemma FirstDocument(g: Game, l: Launcher, mark: bytes, list: Vdf)
    requires SyncEntries([], [g], l, mark) == Ok((list.children, 1)) && list == Vdf(0, SHORTCUTS, [], list.children, 8)
    ensures SyncDocument(EMPTY, [g], l, mark) == Ok((Vdf(0, [], [], [list], 8), 1))
  {
    hide SyncEntries;
    var empty := Vdf(0, SHORTCUTS, [], [], 8);
    assert [] + [empty] == [empty] && [empty][0 := list] == [list];
  }
}
