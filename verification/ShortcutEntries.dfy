/** What the fields of one managed entry are, and that managing it again changes nothing. */
module ShortcutEntries {
  import opened Bytes
  import opened VdfCodec
  import opened Fields
  import opened Shortcuts
  import AppId

  predicate CleanLauncher(l: Launcher) {
    NulFree(l.exe) && NulFree(l.start)
  }

  predicate CleanGames(games: seq<Game>) {
    forall g <- games :: NulFree(g.name)
  }

  lemma SafePackageIsClean(s: bytes)
    requires SafePackage(s)
    ensures s != [] && NulFree(s)
  {
    assert forall c <- s :: PackageByte(c);
  }

  lemma SettingsKeysDiffer(id: uint32, g: Game, l: Launcher)
    ensures DistinctKeys(Settings(id, g, l))
    ensures forall n <- Settings(id, g, l) :: n.key != TAGS && n.key != ICON
  {
    hide Ascii, Integer;
  }

  lemma IdIsNonzero(current: uint32, g: Game, l: Launcher)
    ensures IdFor(current, g, l) != 0
  {
    hide AppId.AppIdOf;
    AppId.AppIdIsCrc32(l.exe, g.name);
    WordIsNonzero(AppId.AppIdOf(l.exe, g.name));
  }

  lemma WordIsNonzero(w: bv32)
    requires w != 0
    ensures w as int != 0
  {
  }

  /** Everything a listed game's entry shows: its settings, its tag, and the package it belongs to. */
  ghost predicate Shows(e: Vdf, key: bytes, id: uint32, g: Game, l: Launcher) {
    e.key == key && HoldsAll(e.children, Settings(id, g, l)) && Position(e.children, ICON).Ok? &&
    Position(e.children, TAGS).Ok? && Position(e.children, TAGS).value.Some?
  }

  lemma ManagedShows(base: Vdf, key: bytes, g: Game, l: Launcher)
    requires Managed(base, key, g, l).Ok?
    ensures Number(base.children, APP_ID).Ok?
    ensures Shows(Managed(base, key, g, l).value, key, IdFor(Number(base.children, APP_ID).value, g, l), g, l)
    ensures var tags := Position(base.children, TAGS);
      tags.Ok? && TagsNode(Managed(base, key, g, l).value) ==
        if tags.value.Some? then base.children[tags.value.value] else TAGS_NODE
  {
    var id := IdFor(Number(base.children, APP_ID).value, g, l);
    SettingsKeysDiffer(id, g, l);
    PutAllEffect(base.children, Settings(id, g, l));
    var cs := PutAll(base.children, Settings(id, g, l)).value;
    assert Unaffected(base.children, cs, TAGS);
    if Position(cs, TAGS).value.None? {
      PutNodeEffect(cs, TAGS_NODE);
      forall n <- Settings(id, g, l)
        ensures Holds(cs + [TAGS_NODE], n)
      {
        assert Unaffected(cs, cs + [TAGS_NODE], n.key);
      }
    }
  }

  ghost function TagsNode(e: Vdf): Vdf {
    var tags := Position(e.children, TAGS);
    if tags.Ok? && tags.value.Some? then e.children[tags.value.value] else e
  }

  lemma ShownNumber(e: Vdf, key: bytes, id: uint32, g: Game, l: Launcher)
    requires Shows(e, key, id, g, l)
    ensures Number(e.children, APP_ID) == Ok(id)
  {
    assert Settings(id, g, l)[0] in Settings(id, g, l);
    IntegerRoundTrip(id, APP_ID);
  }

  lemma HeldText(cs: seq<Vdf>, key: bytes, value: bytes)
    requires Holds(cs, Scalar(key, value, 1))
    ensures Text(cs, key) == Ok(value)
  {
    assert (value + [0])[..|value|] == value;
  }

  lemma ShownText(e: Vdf, key: bytes, id: uint32, g: Game, l: Launcher)
    requires Shows(e, key, id, g, l)
    ensures Text(e.children, APP_NAME) == Ok(g.name)
    ensures Text(e.children, EXE) == Ok(l.exe)
    ensures Text(e.children, START_DIR) == Ok(l.start)
    ensures Text(e.children, LAUNCH_OPTIONS) == Ok(LAUNCH + g.package)
  {
    var nodes := Settings(id, g, l);
    assert nodes[1] in nodes && nodes[2] in nodes && nodes[3] in nodes && nodes[4] in nodes;
    hide Holds, Text;
    HeldText(e.children, APP_NAME, g.name);
    HeldText(e.children, EXE, l.exe);
    HeldText(e.children, START_DIR, l.start);
    HeldText(e.children, LAUNCH_OPTIONS, LAUNCH + g.package);
  }

  /** Managing an entry a second time, for the same game and under the same key, changes nothing. */
  lemma ManagedAgain(e: Vdf, key: bytes, id: uint32, g: Game, l: Launcher)
    requires Shows(e, key, id, g, l) && id != 0
    ensures Managed(e, key, g, l) == Ok(e)
  {
    ShownNumber(e, key, id, g, l);
    PutAllAgain(e.children, Settings(id, g, l));
  }

  /** With the tag `sync` writes, a managed entry is recognised as the game's. */
  lemma ManagedIsOwned(base: Vdf, key: bytes, g: Game, l: Launcher)
    requires Managed(base, key, g, l).Ok? && SafePackage(g.package)
    requires base == EMPTY || OwnedPackage(base, OWNER_VALUE) == Ok(g.package)
    ensures OwnedPackage(Managed(base, key, g, l).value, OWNER_VALUE) == Ok(g.package)
  {
    hide Settings, SafePackage, IdFor, Managed, Text;
    var e := Managed(base, key, g, l).value;
    ManagedShows(base, key, g, l);
    ShownText(e, key, IdFor(Number(base.children, APP_ID).value, g, l), g, l);
    var options := LAUNCH + g.package;
    assert options[|LAUNCH|..] == g.package;
    SafePackageIsClean(g.package);
    assert TAGS_NODE.children[0] in TAGS_NODE.children;
  }

  /** Exact condition: a new entry is recognised if and only if the tag compared with is the one written. */
  lemma NewIsOwned(key: bytes, g: Game, l: Launcher, mark: bytes)
    requires Managed(EMPTY, key, g, l).Ok? && SafePackage(g.package)
    ensures OwnedPackage(Managed(EMPTY, key, g, l).value, mark) == Ok(if mark == OWNER_VALUE then g.package else [])
  {
    hide Settings, SafePackage, IdFor, Managed, Text;
    var e := Managed(EMPTY, key, g, l).value;
    ManagedShows(EMPTY, key, g, l);
    ShownText(e, key, IdFor(Number(EMPTY.children, APP_ID).value, g, l), g, l);
    var options := LAUNCH + g.package;
    assert options[|LAUNCH|..] == g.package;
    SafePackageIsClean(g.package);
    assert TAGS_NODE.children[0] in TAGS_NODE.children;
  }

  lemma ManagedIsWellFormed(base: Vdf, key: bytes, g: Game, l: Launcher)
    requires Managed(base, key, g, l).Ok? && WellFormedField(base) && base.wire == 0
    requires NulFree(key) && NulFree(g.name) && CleanLauncher(l) && SafePackage(g.package)
    ensures WellFormedField(Managed(base, key, g, l).value) && Managed(base, key, g, l).value.wire == 0
  {
    var id := IdFor(Number(base.children, APP_ID).value, g, l);
    hide Settings, SafePackage, IdFor;
    SafePackageIsClean(g.package);
    SettingsAreWellFormed(id, g, l);
    PutAllKeepsWellFormed(base.children, Settings(id, g, l));
    TagsNodeIsWellFormed();
  }

  lemma TagsNodeIsWellFormed()
    ensures WellFormedField(TAGS_NODE)
  {
    StringIsWellFormed(Ascii("0"), OWNER_MARK);
  }

  lemma StringIsWellFormed(key: bytes, value: bytes)
    requires NulFree(key) && NulFree(value)
    ensures WellFormedField(Scalar(key, value, 1))
  {
    assert (value + [0])[..|value|] == value;
  }

  lemma IntegerIsWellFormed(key: bytes, value: uint32)
    requires NulFree(key)
    ensures WellFormedField(Scalar(key, Integer(value), 2))
  {
  }

  lemma KeysAreNulFree()
    ensures NulFree(APP_ID) && NulFree(APP_NAME) && NulFree(EXE) && NulFree(START_DIR) && NulFree(LAUNCH_OPTIONS)
    ensures NulFree(OPEN_VR) && NulFree(ALLOW_OVERLAY) && NulFree(ALLOW_DESKTOP_CONFIG) && NulFree(LAUNCH)
  {
    hide Ascii;
  }

  lemma OptionsAreNulFree(package: bytes)
    requires NulFree(package)
    ensures NulFree(LAUNCH + package)
  {
    KeysAreNulFree();
  }

  lemma SettingsAreWellFormed(id: uint32, g: Game, l: Launcher)
    requires NulFree(g.name) && CleanLauncher(l) && NulFree(g.package)
    ensures WellFormedFields(Settings(id, g, l))
  {
    hide WellFormedField, Integer, Ascii, NulFree;
    KeysAreNulFree();
    OptionsAreNulFree(g.package);
    IntegerIsWellFormed(APP_ID, id);
    IntegerIsWellFormed(OPEN_VR, 1);
    IntegerIsWellFormed(ALLOW_OVERLAY, 1);
    IntegerIsWellFormed(ALLOW_DESKTOP_CONFIG, 1);
    StringIsWellFormed(APP_NAME, g.name);
    StringIsWellFormed(EXE, l.exe);
    StringIsWellFormed(START_DIR, l.start);
    StringIsWellFormed(LAUNCH_OPTIONS, LAUNCH + g.package);
  }

  /** The program looks for a tag no string payload can equal: nothing read from a file is ever its own. */
  lemma NothingIsOwned(e: Vdf, mark: bytes)
    requires WellFormedField(e) && !IsString(mark) && OwnedPackage(e, mark).Ok?
    ensures OwnedPackage(e, mark) == Ok([])
  {
    var tags := Position(e.children, TAGS).value;
    if tags.Some? && e.children[tags.value].wire == 0 {
      var node := e.children[tags.value];
      assert node in e.children && WellFormedField(node);
      assert WellFormedFields(node.children);
    }
  }

  lemma MarkIsNoString()
    ensures !IsString(OWNER_MARK)
  {
    assert OWNER_MARK[7] == 't' as int;
  }
}
