/** The program's loops over the shortcuts file, proved against the functions of module Shortcuts. */
module SteamLibrary {
  import opened Bytes
  import opened VdfCodec
  import opened Fields
  import opened ShortcutFile
  import opened Shortcuts
  import AppId
  import Decimal

  method NumberField(cs: seq<Vdf>, key: bytes) returns (r: Fallible<uint32>)
    ensures r == Number(cs, key)
  {
    var at :- FindField(cs, key);
    r := Ok(if at.Some? then NumberOf(cs[at.value]) else 0);
  }

  /** The settings are put one after another, each replacing the field it finds. */
  method ManageEntry(base: Vdf, key: bytes, g: Game, l: Launcher) returns (r: Fallible<Vdf>)
    ensures r == Managed(base, key, g, l)
    ensures r.Ok? && base.wire == 0 ==> StartsGame(r.value, g, l)
  {
    hide Settings, PutAll, PutNode, Position, StartsGame;
    var id :- NumberField(base.children, APP_ID);
    if id == 0 {
      var computed := AppId.ComputeAppId(l.exe, g.name);
      id := computed as int;
    }
    ghost var current := Number(base.children, APP_ID).value;
    assert id == IdFor(current, g, l);
    var cs :- PutSettings(base.children, id, g, l);
    var tags :- FindField(cs, TAGS);
    if tags.None? {
      TagIsNew();
      var tagged := Put([], Ascii("0"), OWNER_MARK, 1);
      cs := cs + [Vdf(0, TAGS, [], tagged.value, 8)];
    }
    var _ :- FindField(cs, ICON);
    if base.wire == 0 {
      ManagedStartsGame(base, key, g, l);
    }
    return Ok(base.(key := key, children := cs));
  }

  lemma TagIsNew()
    ensures PutNode([], Scalar(Ascii("0"), OWNER_MARK, 1)) == Ok(TAGS_NODE.children)
  {
    var n := Scalar(Ascii("0"), OWNER_MARK, 1);
    assert [] + [n] == [n];
  }

  method PutSettings(start: seq<Vdf>, id: uint32, g: Game, l: Launcher) returns (r: Fallible<seq<Vdf>>)
    ensures r == PutAll(start, Settings(id, g, l))
  {
    hide PutAll, PutNode, Integer, Ascii, Settings, Scalar;
    ghost var nodes := Settings(id, g, l);
    InOrder(id, g, l);
    FirstPut(start, nodes);
    PutNext(start, nodes, 0);
    var cs :- Put(start, Ascii("appid"), Integer(id), 2);
    PutNext(start, nodes, 1);
    cs :- Put(cs, Ascii("appname"), g.name, 1);
    PutNext(start, nodes, 2);
    cs :- Put(cs, Ascii("exe"), l.exe, 1);
    PutNext(start, nodes, 3);
    cs :- Put(cs, Ascii("StartDir"), l.start, 1);
    PutNext(start, nodes, 4);
    cs :- Put(cs, Ascii("LaunchOptions"), Ascii("--launch ") + g.package, 1);
    PutNext(start, nodes, 5);
    cs :- Put(cs, Ascii("OpenVR"), Integer(1), 2);
    PutNext(start, nodes, 6);
    cs :- Put(cs, Ascii("AllowOverlay"), Integer(1), 2);
    PutNext(start, nodes, 7);
    cs :- Put(cs, Ascii("AllowDesktopConfig"), Integer(1), 2);
    return Ok(cs);
  }

  lemma InOrder(id: uint32, g: Game, l: Launcher)
    ensures var nodes := Settings(id, g, l);
      && |nodes| == 8 && nodes[0] == Scalar(Ascii("appid"), Integer(id), 2)
      && nodes[1] == Scalar(Ascii("appname"), g.name, 1) && nodes[2] == Scalar(Ascii("exe"), l.exe, 1)
      && nodes[3] == Scalar(Ascii("StartDir"), l.start, 1)
      && nodes[4] == Scalar(Ascii("LaunchOptions"), Ascii("--launch ") + g.package, 1)
      && nodes[5] == Scalar(Ascii("OpenVR"), Integer(1), 2)
      && nodes[6] == Scalar(Ascii("AllowOverlay"), Integer(1), 2)
      && nodes[7] == Scalar(Ascii("AllowDesktopConfig"), Integer(1), 2)
  {
  }

  lemma FirstPut(start: seq<Vdf>, nodes: seq<Vdf>)
    ensures PutAll(start, nodes[..0]) == Ok(start)
  {
  }

  /** What one more put does to the series, whether it fails or not. */
  lemma PutNext(start: seq<Vdf>, nodes: seq<Vdf>, i: nat)
    requires i < |nodes| && PutAll(start, nodes[..i]).Ok?
    ensures PutAll(start, nodes[..i + 1]) == PutNode(PutAll(start, nodes[..i]).value, nodes[i])
    ensures PutAll(start, nodes[..i + 1]).Err? ==> PutAll(start, nodes) == PutAll(start, nodes[..i + 1])
    ensures i + 1 == |nodes| ==> nodes[..i + 1] == nodes
  {
    hide PutNode;
    assert nodes[..i + 1][..i] == nodes[..i];
    PutAllFails(start, nodes, i + 1);
  }

  lemma {:induction false} PutAllFails(cs: seq<Vdf>, nodes: seq<Vdf>, i: nat)
    requires i <= |nodes|
    ensures PutAll(cs, nodes[..i]).Err? ==> PutAll(cs, nodes) == PutAll(cs, nodes[..i])
    decreases |nodes| - i
  {
    if i < |nodes| {
      assert nodes[..i + 1][..i] == nodes[..i];
      PutAllFails(cs, nodes, i + 1);
    } else {
      assert nodes[..i] == nodes;
    }
  }

  lemma {:induction false} SplitFails(cs: seq<Vdf>, mark: bytes, i: nat)
    requires i <= |cs|
    ensures SplitEntries(cs[..i], mark).Err? ==> SplitEntries(cs, mark) == SplitEntries(cs[..i], mark)
    decreases |cs| - i
  {
    if i < |cs| {
      assert cs[..i + 1][..i] == cs[..i];
      SplitFails(cs, mark, i + 1);
    } else {
      assert cs[..i] == cs;
    }
  }

  lemma {:induction false} AddGamesFails(start: Progress, games: seq<Game>, l: Launcher, prior: map<bytes, Vdf>, i: nat)
    requires i <= |games|
    ensures AddGames(start, games[..i], l, prior).Err? ==>
      AddGames(start, games, l, prior) == AddGames(start, games[..i], l, prior)
    decreases |games| - i
  {
    if i < |games| {
      assert games[..i + 1][..i] == games[..i];
      AddGamesFails(start, games, l, prior, i + 1);
    } else {
      assert games[..i] == games;
    }
  }

  method FindOwnedPackage(e: Vdf, mark: bytes) returns (r: Fallible<bytes>)
    ensures r == OwnedPackage(e, mark)
  {
    var tags :- FindField(e.children, TAGS);
    if tags.None? || e.children[tags.value].wire != 0 {
      return Ok([]);
    }
    var ours := Marked(e.children[tags.value].children, mark);
    var at :- FindField(e.children, LAUNCH_OPTIONS);
    var options: bytes := [];
    if at.Some? && e.children[at.value].wire == 1 && e.children[at.value].value != [] {
      var value := e.children[at.value].value;
      options := value[..|value| - 1];
    }
    if !ours || !(LAUNCH <= options) {
      return Ok([]);
    }
    var package := options[|LAUNCH|..];
    return Ok(if SafePackage(package) then package else []);
  }

  method SplitList(cs: seq<Vdf>, mark: bytes) returns (r: Fallible<Split>)
    ensures r == SplitEntries(cs, mark)
  {
    hide OwnedPackage;
    var retained: seq<Vdf> := [];
    var prior: map<bytes, Vdf> := map[];
    for i := 0 to |cs|
      invariant SplitEntries(cs[..i], mark) == Ok(Split(retained, prior))
    {
      assert cs[..i + 1][..i] == cs[..i];
      SplitFails(cs, mark, i + 1);
      var package :- FindOwnedPackage(cs[i], mark);
      if package == [] {
        retained := retained + [cs[i]];
      } else if package !in prior {
        prior := prior[package := cs[i]];
      }
    }
    assert cs[..|cs|] == cs;
    return Ok(Split(retained, prior));
  }

  method ListGames(start: Progress, games: seq<Game>, l: Launcher, prior: map<bytes,
        Vdf>) returns (r: Fallible<Progress>)
    ensures r == AddGames(start, games, l, prior)
  {
    hide SafePackage, Managed, StartsGame;
    var packages, keys, next, entries := start.packages, start.keys, start.next, start.entries;
    for i := 0 to |games|
      invariant AddGames(start, games[..i], l, prior) == Ok(Progress(packages, keys, next, entries))
    {
      assert games[..i + 1][..i] == games[..i];
      AddGamesFails(start, games, l, prior, i + 1);
      var g := games[i];
      if SafePackage(g.package) && g.package !in packages {
        packages := packages + {g.package};
        next := Decimal.FindFresh(keys, next);
        var entry :- ManageEntry(if g.package in prior then prior[g.package] else EMPTY, Decimal.Print(next), g, l);
        next := next + 1;
        keys := keys + {entry.key};
        entries := entries + [entry];
      }
    }
    assert games[..|games|] == games;
    return Ok(Progress(packages, keys, next, entries));
  }

  lemma {:induction false} ChosenPrefix(games: seq<Game>, i: nat)
    requires i <= |games|
    ensures Chosen(games[..i]) <= Chosen(games)
    decreases |games| - i
  {
    hide SafePackage;
    if i < |games| {
      assert games[..i + 1][..i] == games[..i];
      ChosenPrefix(games, i + 1);
    } else {
      assert games[..i] == games;
    }
  }

  method IsListed(file: Option<bytes>, games: seq<Game>, l: Launcher, mark: bytes) returns (b: bool)
    ensures b == Listed(file, games, l, mark)
  {
    hide SafePackage, OwnedPackage, SplitEntries, Matches;
    if file.None? {
      return games == [];
    }
    var doc := Read(file.value);
    if doc.Err? {
      return false;
    }
    var at := FindField(doc.value.children, SHORTCUTS);
    if at.Err? {
      return false;
    }
    var split := SplitList(if at.value.Some? then doc.value.children[at.value.value].children else [], mark);
    if split.Err? {
      return false;
    }
    b := MatchesGames(split.value.prior, games, l);
  }

  /** The second half of the check: the entries are those of the games, each with its settings. */
  method MatchesGames(owned: map<bytes, Vdf>, games: seq<Game>, l: Launcher) returns (b: bool)
    ensures b <==>
            && (forall g <- Chosen(games) :: g.package in owned && Matches(owned[g.package], g, l))
            && forall package <- owned :: package in Packages(Chosen(games))
  {
    hide SafePackage, Matches;
    var packages: set<bytes> := {};
    for i := 0 to |games|
      invariant packages == Packages(Chosen(games[..i]))
      invariant forall g <- Chosen(games[..i]) :: g.package in owned && Matches(owned[g.package], g, l)
    {
      assert games[..i + 1][..i] == games[..i];
      var g := games[i];
      if SafePackage(g.package) && g.package !in packages {
        ChosenPrefix(games, i + 1);
        var before := Chosen(games[..i]);
        assert Chosen(games[..i + 1]) == before + [g];
        assert Packages(before + [g]) == Packages(before) + {g.package};
        assert g in Chosen(games[..i + 1]) && g in Chosen(games);
        packages := packages + {g.package};
        if g.package !in owned || !Matches(owned[g.package], g, l) {
          return false;
        }
      }
    }
    assert games[..|games|] == games;
    return forall package <- owned :: package in packages;
  }

  datatype SyncResult = SyncResult(pending: bool, games: nat)

  /** The account's shortcuts file and the copy of it kept beside it. */
  class ShortcutsFile {
    var content: Option<bytes>
    var backup: Option<bytes>

    method SyncedBytes(games: seq<Game>, l: Launcher) returns (r: Fallible<(bytes, nat)>)
      ensures r == SyncBytes(content, games, l, OWNER_MARK)
    {
      hide SplitEntries, AddGames, ReadVdf, WriteVdf;
      var doc := EMPTY;
      if content.Some? {
        var read := Read(content.value);
        doc :- Lift(read);
      }
      var at :- FindField(doc.children, SHORTCUTS);
      if at.None? {
        doc := doc.(children := doc.children + [Vdf(0, SHORTCUTS, [], [], 8)]);
      } else if doc.children[at.value].wire != 0 {
        return Err(NotAnObject);
      }
      var i := if at.None? then |doc.children| - 1 else at.value;
      var split :- SplitList(doc.children[i].children, OWNER_MARK);
      var keys := set e <- split.retained :: e.key;
      var p :- ListGames(Progress({}, keys, 0, []), games, l, split.prior);
      var list := doc.children[i].(children := split.retained + p.entries);
      doc := doc.(children := doc.children[i := list]);
      var written := Write(doc);
      var out :- Lift(written);
      return Ok((out, |p.packages|));
    }

    /**
      One sync. `running` are the answers of the three probes for a running Steam, `meanwhile` is what the file
      holds when it is looked at again: to judge a sync put off after the list was made, or just before the file is
      replaced.
     */
    method Sync(games: seq<Game>, l: Launcher, running: (bool, bool, bool), meanwhile: Option<bytes>)
      returns (r: Fallible<SyncResult>)
      modifies this
      ensures var synced := SyncBytes(old(content), games, l, OWNER_MARK);
        if running.0 then r == Ok(SyncResult(!Listed(old(content), games, l, OWNER_MARK), |games|)) && unchanged(this)
        else if synced.Err? then r == Err(synced.error) && unchanged(this)
        else if running.1 || running.2 then
          && r == Ok(SyncResult(!Listed(meanwhile, games, l, OWNER_MARK), |games|))
          && content == meanwhile && unchanged(`backup)
        else if old(content) == Some(synced.value.0) then r == Ok(SyncResult(false, synced.value.1)) && unchanged(this)
        else if meanwhile != old(content) then
          r == Err(ChangedDuringSync) && content == meanwhile && unchanged(`backup)
        else
          && r == Ok(SyncResult(false, synced.value.1)) && content == Some(synced.value.0)
          && backup == if old(content).Some? then old(content) else old(backup)
    {
      hide SyncBytes, Listed;
      if running.0 {
        var listed := IsListed(content, games, l, OWNER_MARK);
        return Ok(SyncResult(!listed, |games|));
      }
      var synced :- SyncedBytes(games, l);
      if running.1 || running.2 {
        content := meanwhile;
        var listed := IsListed(content, games, l, OWNER_MARK);
        return Ok(SyncResult(!listed, |games|));
      }
      if content != Some(synced.0) {
        if meanwhile != content {
          content := meanwhile;
          return Err(ChangedDuringSync);
        }
        if content.Some? {
          backup := content;
        }
        content := Some(synced.0);
      }
      return Ok(SyncResult(false, synced.1));
    }
  }
}
