/**
  Listing RiftLift's games in Steam's shortcuts file (src/common/steam_library.cpp, `owned_package`, `listed`, `sync`).

  Entries already in the file that carry RiftLift's tag are replaced, all others are kept. The functions take the
  tag's bytes as a parameter: `OWNER_MARK` is what the program compares with, `OWNER_VALUE` what it writes.
 */
module Shortcuts {
  import opened Bytes
  import opened VdfCodec
  import opened Fields
  import AppId
  import Decimal

  const SHORTCUTS := Ascii("shortcuts")
  const APP_ID := Ascii("appid")
  const APP_NAME := Ascii("appname")
  const EXE := Ascii("exe")
  const START_DIR := Ascii("StartDir")
  const LAUNCH_OPTIONS := Ascii("LaunchOptions")
  const OPEN_VR := Ascii("OpenVR")
  const ALLOW_OVERLAY := Ascii("AllowOverlay")
  const ALLOW_DESKTOP_CONFIG := Ascii("AllowDesktopConfig")
  const TAGS := Ascii("tags")
  const ICON := Ascii("icon")
  const LAUNCH := Ascii("--launch ")

  /** The bytes `owned_package` looks for: the name without its terminator. */
  const OWNER_MARK := Ascii("RiftLift")

  /** The bytes `sync` writes in a tag, as every string payload ending in NUL. */
  const OWNER_VALUE := OWNER_MARK + [0]

  const TAGS_NODE := Vdf(0, TAGS, [], [Scalar(Ascii("0"), OWNER_MARK, 1)], 8)

  datatype Game = Game(package: bytes, name: bytes)

  /** The quoted executable and its quoted folder. */
  datatype Launcher = Launcher(exe: bytes, start: bytes)

  // ---- Package names (src/common/paths.cpp, `safe_name` and `safe_package`) ----

  predicate Letter(c: byte) {
    'a' as int <= c <= 'z' as int || 'A' as int <= c <= 'Z' as int
  }

  predicate PackageByte(c: byte) {
    Letter(c) || '0' as int <= c <= '9' as int || c == '.' as int || c == '_' as int || c == '-' as int
  }

  function Upper(c: byte): byte {
    if 'a' as int <= c <= 'z' as int then c - 32 else c
  }

  predicate Reserved(base: bytes) {
    var name := seq(|base|, i requires 0 <= i < |base| => Upper(base[i]));
    name == Ascii("CON") || name == Ascii("PRN") || name == Ascii("AUX") || name == Ascii("NUL") ||
    (|name| == 4 && (name[..3] == Ascii("COM") || name[..3] == Ascii("LPT")) && '1' as int <= name[3] <= '9' as int)
  }

  /** `safe_name`'s character tests are left out: `PackageByte` is stricter than each of them. */
  predicate SafePackage(s: bytes) {
    && s != [] && |s| <= 220 && s[|s| - 1] != '.' as int
    && !Reserved(s[..IndexOf(s, '.' as int)])
    && s[0] != '.' as int && s[0] != '-' as int
    && (forall i | 0 <= i < |s| - 1 :: !(s[i] == '.' as int && s[i + 1] == '.' as int))
    && (forall c <- s :: PackageByte(c))
  }

  // ---- One entry ----

  /** The package an entry belongs to, empty for an entry that is not RiftLift's. */
  function OwnedPackage(e: Vdf, mark: bytes): Fallible<bytes> {
    var tags :- Position(e.children, TAGS);
    if tags.None? || e.children[tags.value].wire != 0 then Ok([])
    else
      var options :- Text(e.children, LAUNCH_OPTIONS);
      if !Marked(e.children[tags.value].children, mark) || !(LAUNCH <= options) then Ok([])
      else Ok(if SafePackage(options[|LAUNCH|..]) then options[|LAUNCH|..] else [])
  }

  predicate Marked(tags: seq<Vdf>, mark: bytes) {
    exists n <- tags :: n.wire == 1 && n.value == mark
  }

  /** The fields every managed entry is given, in the order they are put. */
  function Settings(id: uint32, g: Game, l: Launcher): seq<Vdf> {
    [Scalar(APP_ID, Integer(id), 2), Scalar(APP_NAME, g.name, 1), Scalar(EXE, l.exe, 1),
     Scalar(START_DIR, l.start, 1), Scalar(LAUNCH_OPTIONS, LAUNCH + g.package, 1), Scalar(OPEN_VR, Integer(1), 2),
     Scalar(ALLOW_OVERLAY, Integer(1), 2), Scalar(ALLOW_DESKTOP_CONFIG, Integer(1), 2)]
  }

  /** An id once given stays; otherwise it is computed from the executable and the name. */
  function IdFor(current: uint32, g: Game, l: Launcher): uint32 {
    if current != 0 then current else AppId.AppIdOf(l.exe, g.name) as int
  }

  /** The entry for a game, made from the one it had (or from an empty one). */
  function Managed(base: Vdf, key: bytes, g: Game, l: Launcher): Fallible<Vdf> {
    var current :- Number(base.children, APP_ID);
    var cs :- PutAll(base.children, Settings(IdFor(current, g, l), g, l));
    var tags :- Position(cs, TAGS);
    var tagged := if tags.None? then cs + [TAGS_NODE] else cs;
    var _ :- Position(tagged, ICON);
    Ok(base.(key := key, children := tagged))
  }

  // ---- The list ----

  /** The foreign entries, and RiftLift's by package; of two with the same package the first counts. */
  datatype Split = Split(retained: seq<Vdf>, prior: map<bytes, Vdf>)

  function SplitEntries(cs: seq<Vdf>, mark: bytes): Fallible<Split> {
    if cs == [] then Ok(Split([], map[])) else
      var split :- SplitEntries(cs[..|cs| - 1], mark);
      var package :- OwnedPackage(cs[|cs| - 1], mark);
      Ok(AddEntry(split, cs[|cs| - 1], package))
  }

  function AddEntry(split: Split, e: Vdf, package: bytes): Split {
    if package == [] then split.(retained := split.retained + [e])
    else if package in split.prior then split
    else split.(prior := split.prior[package := e])
  }

  /** How far the loop over the games has come. */
  datatype Progress = Progress(packages: set<bytes>, keys: set<bytes>, next: nat, entries: seq<Vdf>)

  function Keys(cs: seq<Vdf>): set<bytes> {
    set e <- cs :: e.key
  }

  function Base(prior: map<bytes, Vdf>, package: bytes): Vdf {
    if package in prior then prior[package] else EMPTY
  }

  function AddGame(p: Progress, g: Game, l: Launcher, prior: map<bytes, Vdf>): Fallible<Progress> {
    if !SafePackage(g.package) || g.package in p.packages then Ok(p) else
      var n := Decimal.FreshFrom(p.keys, p.next);
      var entry :- Managed(Base(prior, g.package), Decimal.Print(n), g, l);
      Ok(Progress(p.packages + {g.package}, p.keys + {entry.key}, n + 1, p.entries + [entry]))
  }

  function AddGames(start: Progress, games: seq<Game>, l: Launcher, prior: map<bytes, Vdf>): Fallible<Progress> {
    if games == [] then Ok(start) else
      var p :- AddGames(start, games[..|games| - 1], l, prior);
      AddGame(p, games[|games| - 1], l, prior)
  }

  /** The list's new entries, the foreign ones first. */
  function SyncEntries(cs: seq<Vdf>, games: seq<Game>, l: Launcher, mark: bytes): Fallible<(seq<Vdf>, nat)> {
    var split :- SplitEntries(cs, mark);
    var p :- AddGames(Progress({}, Keys(split.retained), 0, []), games, l, split.prior);
    Ok((split.retained + p.entries, |p.packages|))
  }

  // ---- The file ----

  /** The document with a list of shortcuts in it, and where the list is. */
  function WithList(doc: Vdf): (r: Fallible<(Vdf, nat)>)
    ensures r.Ok? ==> r.value.1 < |r.value.0.children|
  {
    var at :- Position(doc.children, SHORTCUTS);
    match at
    case None => Ok((doc.(children := doc.children + [Vdf(0, SHORTCUTS, [], [], 8)]), |doc.children|))
    case Some(i) => if doc.children[i].wire != 0 then Err(NotAnObject) else Ok((doc, i))
  }

  function SyncDocument(doc: Vdf, games: seq<Game>, l: Launcher, mark: bytes): Fallible<(Vdf, nat)> {
    var found :- WithList(doc);

    var list := found.0.children[found.1];
    var entries :- SyncEntries(list.children, games, l, mark);
    Ok((found.0.(children := found.0.children[found.1 := list.(children := entries.0)]), entries.1))
  }

  function Lift<T>(r: Result<T, VdfCodec.Error>): Fallible<T> {
    match r
    case Ok(v) => Ok(v)
    case Err(e) => Err(Codec(e))
  }

  /** The bytes a sync computes for a file (or for no file), and the number of games it lists. */
  function SyncBytes(file: Option<bytes>, games: seq<Game>, l: Launcher, mark: bytes): Fallible<(bytes, nat)> {
    var doc :- match file case None => Ok(EMPTY) case Some(b) => Lift(ReadVdf(b));
    var synced :- SyncDocument(doc, games, l, mark);
    var out :- Lift(WriteVdf(synced.0));
    Ok((out, synced.1))
  }

  // ---- Whether a restart of Steam is due ----

  function Entries(doc: Vdf): seq<Vdf> {
    var at := Position(doc.children, SHORTCUTS);
    if at.Ok? && at.value.Some? then doc.children[at.value.value].children else []
  }

  predicate Matches(e: Vdf, g: Game, l: Launcher) {
    Text(e.children, APP_NAME) == Ok(g.name) && Text(e.children, EXE) == Ok(l.exe) &&
      Text(e.children, START_DIR) == Ok(l.start)
  }

  /** The games the loops over `games` act on: the first of each safe package, in order. */
  function Chosen(games: seq<Game>): seq<Game> {
    if games == [] then [] else
      var c, g := Chosen(games[..|games| - 1]), games[|games| - 1];
      if !SafePackage(g.package) || g.package in Packages(c) then c else c + [g]
  }

  function Packages(games: seq<Game>): set<bytes> {
    set g <- games :: g.package
  }

  /** `listed`: every chosen game has an up-to-date entry and RiftLift has no other; false when anything throws. */
  predicate Listed(file: Option<bytes>, games: seq<Game>, l: Launcher, mark: bytes) {
    match file
    case None => games == []
    case Some(b) =>
      var doc := ReadVdf(b);
      doc.Ok? && Position(doc.value.children, SHORTCUTS).Ok? &&
      var split := SplitEntries(Entries(doc.value), mark);
      split.Ok? &&
      (forall g <- Chosen(games) :: g.package in split.value.prior && Matches(split.value.prior[g.package], g, l)) &&
      (forall package <- split.value.prior :: package in Packages(Chosen(games)))
  }
}
