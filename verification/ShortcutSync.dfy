/**
  What a sync does to the list as a whole: what it keeps, what it adds, and what a second sync then finds.
 */
module ShortcutSync {
  import opened Bytes
  import opened VdfCodec
  import opened Fields
  import opened Shortcuts
  import opened ShortcutEntries
  import Decimal

  // ---- The games a sync lists: the first of each safe package, in order ----

  /** The safe packages among the games, each counted once. */
  function SafePackages(games: seq<Game>): set<bytes> {
    set g <- games | SafePackage(g.package) :: g.package
  }

  lemma {:induction false} ChosenOncePerPackage(games: seq<Game>)
    ensures Packages(Chosen(games)) == SafePackages(games)
    ensures forall g <- Chosen(games) :: g in games && SafePackage(g.package)
    ensures DistinctPackages(Chosen(games))
  {
    hide SafePackage, SafePackages, Packages, DistinctPackages;
    if games == [] {
      NothingChosen();
    } else {
      var most, g := games[..|games| - 1], games[|games| - 1];
      ChosenOncePerPackage(most);
      assert games == most + [g];
      OneMoreSafe(most, g);
      OneMoreDistinct(Chosen(most), g);
    }
  }

  lemma NothingChosen()
    ensures Packages([]) == SafePackages([]) && DistinctPackages([])
  {
  }

  lemma OneMoreSafe(most: seq<Game>, g: Game)
    ensures SafePackages(most + [g]) == SafePackages(most) + (if SafePackage(g.package) then {g.package} else {})
  {
    hide SafePackage;
  }

  lemma OneMoreDistinct(c: seq<Game>, g: Game)
    requires DistinctPackages(c)
    ensures Packages(c + [g]) == Packages(c) + {g.package}
    ensures g.package !in Packages(c) ==> DistinctPackages(c + [g])
  {
    assert forall i | 0 <= i < |c| :: c[i].package in Packages(c);
  }

  ghost predicate DistinctPackages(c: seq<Game>) {
    forall i, j | 0 <= i < j < |c| :: c[i].package != c[j].package
  }

  lemma {:induction false} CountPackages(c: seq<Game>)
    requires DistinctPackages(c)
    ensures |Packages(c)| == |c|
  {
    if c == [] {
    } else {
      var most, g := c[..|c| - 1], c[|c| - 1];
      CountPackages(most);
      assert c == most + [g];
      assert Packages(c) == Packages(most) + {g.package};
      assert g.package !in Packages(most);
    }
  }

  /** The loop over the games has listed exactly these, under keys nobody else has. */
  ghost predicate Lists(p: Progress, start: Progress, c: seq<Game>, l: Launcher, prior: map<bytes, Vdf>) {
    && |p.entries| == |c|
    && p.packages == Packages(c)
    && p.keys == start.keys + Keys(p.entries)
    && (forall i | 0 <= i < |c| :: ListedAs(p.entries[i], c[i], l, prior, start.keys))
    && (forall i, j | 0 <= i < j < |c| :: p.entries[i].key != p.entries[j].key)
  }

  ghost predicate ListedAs(e: Vdf, g: Game, l: Launcher, prior: map<bytes, Vdf>, taken: set<bytes>) {
    Managed(Base(prior, g.package), e.key, g, l) == Ok(e) && e.key !in taken && NulFree(e.key)
  }

  ghost predicate Fresh(start: Progress) {
    start.packages == {} && start.entries == []
  }

  /** One more game is listed: its entry has a key that is new to every entry. */
  lemma ListsOneMore(p: Progress, start: Progress, c: seq<Game>, g: Game, l: Launcher, prior: map<bytes, Vdf>,
        q: Progress)
    requires Lists(p, start, c, l, prior)
    requires AddGame(p, g, l, prior) == Ok(q) && SafePackage(g.package) && g.package !in p.packages
    ensures Lists(q, start, c + [g], l, prior)
  {
    hide SafePackage, Managed;
    var e := q.entries[|p.entries|];
    ManagedKey(Base(prior, g.package), Decimal.Print(Decimal.FreshFrom(p.keys, p.next)), g, l);
    assert q.entries == p.entries + [e] && e.key !in p.keys;
    assert Packages(c + [g]) == Packages(c) + {g.package};
    assert Keys(p.entries + [e]) == Keys(p.entries) + {e.key};
    forall i | 0 <= i < |c| ensures p.entries[i].key != e.key {
      assert p.entries[i] in p.entries && p.entries[i].key in Keys(p.entries);
    }
  }

  lemma {:induction false} AddGamesLists(start: Progress, games: seq<Game>, l: Launcher, prior: map<bytes, Vdf>)
    requires Fresh(start) && AddGames(start, games, l, prior).Ok?
    ensures Lists(AddGames(start, games, l, prior).value, start, Chosen(games), l, prior)
  {
    hide SafePackage, Managed, ListedAs;
    if games == [] {
      assert start.keys + Keys([]) == start.keys;
    } else {
      var most, g := games[..|games| - 1], games[|games| - 1];
      AddGamesLists(start, most, l, prior);
      var p, q := AddGames(start, most, l, prior).value, AddGames(start, games, l, prior).value;
      if SafePackage(g.package) && g.package !in p.packages {
        ListsOneMore(p, start, Chosen(most), g, l, prior, q);
      }
    }
  }

  lemma ManagedKey(base: Vdf, key: bytes, g: Game, l: Launcher)
    requires Managed(base, key, g, l).Ok?
    ensures Managed(base, key, g, l).value.key == key
  {
  }

  // ---- The entries already there: foreign ones stay, RiftLift's are found by package ----

  /** The entries that belong to no package, in their order. */
  ghost function Foreign(cs: seq<Vdf>, mark: bytes): seq<Vdf> {
    if cs == [] then [] else
      (if OwnedPackage(cs[0], mark) == Ok([]) then [cs[0]] else []) + Foreign(cs[1..], mark)
  }

  lemma {:induction false} ForeignConcat(a: seq<Vdf>, b: seq<Vdf>, mark: bytes)
    ensures Foreign(a + b, mark) == Foreign(a, mark) + Foreign(b, mark)
  {
    hide OwnedPackage;
    if a == [] {
      assert a + b == b;
    } else {
      assert (a + b)[1..] == a[1..] + b;
      ForeignConcat(a[1..], b, mark);
    }
  }

  ghost predicate OwnedAs(e: Vdf, package: bytes, mark: bytes) {
    package != [] && OwnedPackage(e, mark) == Ok(package)
  }

  lemma {:induction false} RetainedIsForeign(cs: seq<Vdf>, mark: bytes)
    requires SplitEntries(cs, mark).Ok?
    ensures SplitEntries(cs, mark).value.retained == Foreign(cs, mark)
  {
    hide OwnedPackage;
    if cs == [] {
    } else {
      var most, e := cs[..|cs| - 1], cs[|cs| - 1];
      assert cs == most + [e];
      RetainedIsForeign(most, mark);
      ForeignConcat(most, [e], mark);
      assert [e][1..] == [];
    }
  }

  ghost predicate PartsOf(s: Split, cs: seq<Vdf>, mark: bytes) {
    && (forall e <- s.retained :: e in cs && OwnedPackage(e, mark) == Ok([]))
    && (forall package <- s.prior :: s.prior[package] in cs && OwnedAs(s.prior[package], package, mark))
  }

  lemma {:induction false} SplitParts(cs: seq<Vdf>, mark: bytes)
    requires SplitEntries(cs, mark).Ok?
    ensures PartsOf(SplitEntries(cs, mark).value, cs, mark)
  {
    hide OwnedPackage;
    if cs == [] {
    } else {
      var most, e := cs[..|cs| - 1], cs[|cs| - 1];
      assert forall x :: x in cs <==> x in most || x == e;
      SplitParts(most, mark);
    }
  }

  /** Splitting foreign entries alone keeps them all. */
  lemma {:induction false} SplitForeign(cs: seq<Vdf>, mark: bytes)
    requires forall e <- cs :: OwnedPackage(e, mark) == Ok([])
    ensures SplitEntries(cs, mark) == Ok(Split(cs, map[]))
  {
    hide OwnedPackage;
    if cs == [] {
    } else {
      var most, e := cs[..|cs| - 1], cs[|cs| - 1];
      assert cs == most + [e] && e in cs;
      SplitForeign(most, mark);
    }
  }

  ghost predicate AllOwned(es: seq<Vdf>, c: seq<Game>, mark: bytes) {
    |es| == |c| && DistinctPackages(c) && forall i | 0 <= i < |c| :: OwnedAs(es[i], c[i].package, mark)
  }

  ghost predicate FoundBy(prior: map<bytes, Vdf>, es: seq<Vdf>, c: seq<Game>) {
    |es| == |c| && prior.Keys == Packages(c) && forall i | 0 <= i < |c| ::
      c[i].package in prior && prior[c[i].package] == es[i]
  }

  lemma FoundOneMore(prior: map<bytes, Vdf>, es: seq<Vdf>, c: seq<Game>, e: Vdf, g: Game)
    requires FoundBy(prior, es, c) && DistinctPackages(c + [g])
    ensures g.package !in prior && FoundBy(prior[g.package := e], es + [e], c + [g])
  {
    var d := c + [g];
    assert forall i | 0 <= i < |c| :: d[i] == c[i] && d[i].package != d[|c|].package;
    assert Packages(d) == Packages(c) + {g.package};
  }

  /** Splitting foreign entries followed by one entry for each of distinct packages finds exactly those. */
  lemma {:induction false} SplitManaged(foreign: seq<Vdf>, es: seq<Vdf>, c: seq<Game>, mark: bytes)
    requires forall e <- foreign :: OwnedPackage(e, mark) == Ok([])
    requires AllOwned(es, c, mark)
    ensures SplitEntries(foreign + es, mark).Ok?
    ensures var s := SplitEntries(foreign + es, mark).value; s.retained == foreign && FoundBy(s.prior, es, c)
  {
    hide OwnedPackage, FoundBy;
    if es == [] {
      assert foreign + es == foreign;
      SplitForeign(foreign, mark);
      FoundNone();
    } else {
      var n := |es| - 1;
      var all := foreign + es;
      assert all[..|all| - 1] == foreign + es[..n] && all[|all| - 1] == es[n];
      SplitManaged(foreign, es[..n], c[..n], mark);
      assert c == c[..n] + [c[n]] && es == es[..n] + [es[n]];
      FoundOneMore(SplitEntries(foreign + es[..n], mark).value.prior, es[..n], c[..n], es[n], c[n]);
    }
  }

  lemma FoundNone()
    ensures FoundBy(map[], [], [])
  {
  }

  // ---- A second pass over the games finds each entry as the first left it ----

  lemma {:induction false} SecondPass(start: Progress, games: seq<Game>, l: Launcher, prior: map<bytes, Vdf>,
                                      again: map<bytes, Vdf>)
    requires Fresh(start) && AddGames(start, games, l, prior).Ok?
    requires var es, c := AddGames(start, games, l, prior).value.entries, Chosen(games);
      forall i | 0 <= i < |es| :: i < |c| && Settled(es[i], c[i], l, again)
    ensures AddGames(start, games, l, again) == AddGames(start, games, l, prior)
  {
    hide SafePackage, Managed, Settled;
    if games == [] {
    } else {
      var most, g := games[..|games| - 1], games[|games| - 1];
      var p, q := AddGames(start, most, l, prior).value, AddGames(start, games, l, prior).value;
      AddGamesLists(start, most, l, prior);
      AddGamesLists(start, games, l, prior);
      hide Lists;
      assert forall i | 0 <= i < |p.entries| :: q.entries[i] == p.entries[i] && Chosen(games)[i] == Chosen(most)[i];
      SecondPass(start, most, l, prior, again);
      if q != p {
        SecondStep(p, g, l, prior, again);
      }
    }
  }

  lemma SecondStep(p: Progress, g: Game, l: Launcher, prior: map<bytes, Vdf>, again: map<bytes, Vdf>)
    requires AddGame(p, g, l, prior).Ok? && AddGame(p, g, l, prior).value != p
    requires var q := AddGame(p, g, l, prior).value;
      |q.entries| == |p.entries| + 1 && Settled(q.entries[|p.entries|], g, l, again)
    ensures AddGame(p, g, l, again) == AddGame(p, g, l, prior)
  {
    hide SafePackage, Managed;
    ManagedKey(Base(prior, g.package), Decimal.Print(Decimal.FreshFrom(p.keys, p.next)), g, l);
  }

  ghost predicate Settled(e: Vdf, g: Game, l: Launcher, again: map<bytes, Vdf>) {
    g.package in again && again[g.package] == e && Managed(e, e.key, g, l) == Ok(e)
  }
}
