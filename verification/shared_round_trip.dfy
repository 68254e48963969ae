/** What a save stores and refuses, and what loading gives back. */
module SharedRoundTrip {
  import opened Common
  import opened SharedPaths
  import opened SharedConfig
  import opened SharedConfigLaws
  import opened SharedLoad

  // Which settings are saved.

  predicate PathStorable(path: Option<RawPath>, mount: RawPath) {
    path.Some? ==> Storable(path.value, mount)
  }

  predicate PathsStorable(s: Settings, mount: RawPath) {
    && PathStorable(s.defaultFolder, mount)
    && forall i | 0 <= i < |s.torrents| :: PathStorable(s.torrents[i].downloadPath, mount)
  }

  function StoredPath(path: Option<RawPath>, mount: RawPath): Option<RawPath> {
    if path.None? then None else Some(Names(Told(path.value, mount)))
  }

  lemma OptionStored(path: Option<RawPath>, mount: RawPath)
    ensures EncodedOption(path, mount) ==
            if PathStorable(path, mount) then Some(StoredPath(path, mount)) else None
  {
    if path.Some? {
      StoredExactly(path.value, mount);
    }
  }

  lemma {:induction false} CatalogStored(ts: seq<Torrent>, mount: RawPath)
    ensures EncodedTorrents(ts, mount).Some? <==>
              forall i | 0 <= i < |ts| :: PathStorable(ts[i].downloadPath, mount)
    ensures EncodedTorrents(ts, mount).Some? ==>
              && |EncodedTorrents(ts, mount).value| == |ts|
              && forall i | 0 <= i < |ts| ::
                   EncodedTorrents(ts, mount).value[i] ==
                   ts[i].(downloadPath := StoredPath(ts[i].downloadPath, mount))
    decreases |ts|
  {
    if ts != [] {
      var front, last := ts[..|ts| - 1], ts[|ts| - 1];
      CatalogStored(front, mount);
      OptionStored(last.downloadPath, mount);
      assert forall i | 0 <= i < |front| :: front[i] == ts[i];
    }
  }

  /** A save succeeds exactly if the files parse and every path that is set can be stored. Otherwise
      it writes nothing at all. What is stored of a path are its named components below the mount;
      everything else in the catalog is as in the settings. */
  lemma SavesExactly(f: Files, s: Settings, mount: RawPath, stamp: nat, failing: Option<Failure>)
    ensures Save(f, s, mount, stamp, None).ok <==> f.readable && PathsStorable(s, mount)
    ensures !(f.readable && PathsStorable(s, mount)) ==> Save(f, s, mount, stamp, failing) == Saved(f, [], false)
    ensures
      Save(f, s, mount, stamp, None).ok ==>
        var stored := Save(f, s, mount, stamp, None).files.layers;
        && stored.settings.defaultFolder == StoredPath(s.defaultFolder, mount)
        && stored.settings.fields == s.sharedFields && stored.host.fields == s.hostFields
        && stored.host.clientPort == (if s.randomizePort then 0 else s.clientPort)
        && |stored.catalog| == |s.torrents|
        && forall i | 0 <= i < |s.torrents| ::
             stored.catalog[i] == s.torrents[i].(downloadPath := StoredPath(s.torrents[i].downloadPath, mount))
  {
    OptionStored(s.defaultFolder, mount);
    CatalogStored(s.torrents, mount);
    if f.readable && PathsStorable(s, mount) {
      WrittenInOrder(f, s, mount, stamp);
      SaveStores(f, s, mount, stamp);
    }
  }

  // Metadata.

  /** The last entry under a hash counts. */
  lemma {:induction false} LastEntryCounts(entries: MetadataFile, h: Hash)
    ensures h in ByHash(entries) <==> exists i :: 0 <= i < |entries| && entries[i].hash == h
    ensures h in ByHash(entries) ==>
              exists i :: 0 <= i < |entries| && entries[i].hash == h && ByHash(entries)[h] == entries[i]
                          && forall j | i < j < |entries| :: entries[j].hash != h
    decreases |entries|
  {
    if entries != [] {
      var front, last := entries[..|entries| - 1], entries[|entries| - 1];
      LastEntryCounts(front, h);
      assert forall i | 0 <= i < |front| :: front[i] == entries[i];
      if last.hash == h {
        assert entries[|front|] == last;
      } else if h in ByHash(front) {
        var i :| 0 <= i < |front| && front[i].hash == h && ByHash(front)[h] == front[i]
                 && forall j | i < j < |front| :: front[j].hash != h;
        assert entries[i].hash == h && forall j | i < j < |entries| :: entries[j].hash != h;
      }
    }
  }

  /** The name a torrent's entry bears: its own, else the stored one, else the announced one. */
  function NameFor(known: map<Hash, Entry>, t: Torrent): string
    requires t.hash.Some?
  {
    if t.name != "" then t.name
    else if t.hash.value in known then known[t.hash.value].name
    else if t.announced.Some? then t.announced.value.name
    else ""
  }

  /** The content of a torrent's entry: the stored one, else the announced one, else nothing. */
  function ContentFor(known: map<Hash, Entry>, t: Torrent): Content
    requires t.hash.Some?
  {
    if t.hash.value in known then known[t.hash.value].content
    else if t.announced.Some? then t.announced.value.content
    else Content(0, false, [])
  }

  /** Synchronized metadata hold one entry per torrent with a hash, in catalog order, with the
      torrent's own name and priorities and with what was known or announced of its content. */
  lemma {:induction false} MetadataAfterSync(existing: MetadataFile, ts: seq<Torrent>, i: nat)
    requires DistinctHashes(ts) && i < |ts| && ts[i].hash.Some?
    ensures |Synced(existing, ts)| == CountHashed(ts) && CountHashed(ts[..i]) < CountHashed(ts)
    ensures
      var known := ByHash(existing);
      Synced(existing, ts)[CountHashed(ts[..i])] ==
      Entry(ts[i].hash.value, NameFor(known, ts[i]), ContentFor(known, ts[i]), ts[i].priorities)
    decreases |ts|
  {
    var known := ByHash(existing);
    var front := ts[..|ts| - 1];
    SyncLength(known, ts);
    SyncLength(known, front);
    DistinctFront(ts);
    if i == |front| {
      LastStep(known, ts);
      ByHashMatches(existing);
    } else {
      assert front[..i] == ts[..i];
      MetadataAfterSync(existing, front, i);
      if ts[|ts| - 1].hash.Some? {
        LastStep(known, ts);
      }
    }
  }

  // Loading.

  /** A stored path that a host can follow. */
  predicate Followable(path: Option<RawPath>) {
    path.Some? ==> Nameable(path.value)
  }

  function FollowedPath(path: Option<RawPath>, mount: RawPath): Option<RawPath> {
    if path.None? then None else Some(mount + Names(path.value))
  }

  lemma OptionResolves(path: Option<RawPath>, mount: RawPath)
    ensures ResolvedOption(path, mount) ==
            if Followable(path) then Some(FollowedPath(path, mount)) else None
  {
    if path.Some? {
      ResolvedExactly(path.value, mount);
    }
  }

  lemma {:induction false} CatalogResolves(catalog: CatalogFile, mount: RawPath)
    ensures ResolvedTorrents(catalog, mount).Some? <==>
              forall i | 0 <= i < |catalog| :: Followable(catalog[i].downloadPath)
    ensures ResolvedTorrents(catalog, mount).Some? ==>
              && |ResolvedTorrents(catalog, mount).value| == |catalog|
              && forall i | 0 <= i < |catalog| ::
                   ResolvedTorrents(catalog, mount).value[i] ==
                   catalog[i].(downloadPath := FollowedPath(catalog[i].downloadPath, mount))
    decreases |catalog|
  {
    if catalog != [] {
      CatalogResolves(catalog[..|catalog| - 1], mount);
      OptionResolves(catalog[|catalog| - 1].downloadPath, mount);
    }
  }

  /** A torrent as its catalog entry and the metadata describe it. */
  predicate ToldBy(t: Torrent, stored: Torrent, known: map<Hash, Entry>, mount: RawPath) {
    var told := stored.hash.Some? && stored.hash.value in known;
    && t.name == (if told && stored.name == "" then known[stored.hash.value].name else stored.name)
    && t.priorities == (if told then known[stored.hash.value].priorities else stored.priorities)
    && t.downloadPath == FollowedPath(stored.downloadPath, mount)
    && t.hash == stored.hash && t.announced == stored.announced && t.fields == stored.fields
  }

  /** Whatever the files hold, a host with an absolute mount loads settings exactly if the files parse
      and no stored path climbs or is absolute. It then sees its own id if it has one and the
      cluster's if not, the paths below its mount, and the names and priorities of the metadata. */
  lemma LoadTells(f: Files, mount: RawPath)
    requires IsAbsolute(mount)
    ensures
      Loaded(f, mount).Some? <==>
        && f.readable && Followable(f.layers.settings.defaultFolder)
        && forall i | 0 <= i < |f.layers.catalog| :: Followable(f.layers.catalog[i].downloadPath)
    ensures
      Loaded(f, mount).Some? ==>
        var t, l := Loaded(f, mount).value, f.layers;
        && t.clientId == (if l.host.clientId.Some? then l.host.clientId.value else l.settings.clientId)
        && t.defaultFolder == Some(if l.settings.defaultFolder.None? then mount
                                   else mount + Names(l.settings.defaultFolder.value))
        && t.clientPort == l.host.clientPort && (t.randomizePort <==> l.host.clientPort == 0)
        && t.sharedFields == l.settings.fields && t.hostFields == l.host.fields
        && |t.torrents| == |l.catalog|
        && forall i | 0 <= i < |l.catalog| :: ToldBy(t.torrents[i], l.catalog[i], ByHash(f.metadata), mount)
  {
    OptionResolves(f.layers.settings.defaultFolder, mount);
    CatalogResolves(f.layers.catalog, mount);
    if ResolvedOption(f.layers.settings.defaultFolder, mount).Some? && ResolvedTorrents(f.layers.catalog, mount).Some? {
      var folder := ResolvedOption(f.layers.settings.defaultFolder, mount).value;
      var found := ResolvedTorrents(f.layers.catalog, mount).value;
      var described := DescribedAll(ByHash(f.metadata), found);
      forall i | 0 <= i < |found|
        ensures ToldBy(described[i], f.layers.catalog[i], ByHash(f.metadata), mount)
        ensures PathStorable(described[i].downloadPath, mount)
      {
        FoundStorable(f.layers.catalog[i].downloadPath, mount);
      }
      FoundStorable(f.layers.settings.defaultFolder, mount);
      OptionStored(Some(if folder.Some? then folder.value else mount), mount);
      CatalogStored(described, mount);
    }
  }

  lemma FoundStorable(path: Option<RawPath>, mount: RawPath)
    requires IsAbsolute(mount)
    ensures PathStorable(Some(mount), mount)
    ensures path.Some? ==> PathStorable(Some(mount + Names(path.value)), mount)
  {
    if path.Some? {
      NamesAreNormal(path.value);
      assert (mount + Names(path.value))[|mount|..] == Names(path.value);
    }
    assert mount[|mount|..] == [];
  }

  // Loading what was saved.

  /** Where a path is found after it was stored: below the mount. */
  function FoundPath(path: Option<RawPath>, mount: RawPath): Option<RawPath> {
    if path.None? then None else Some(mount + Names(Told(path.value, mount)))
  }

  function FilledName(known: map<Hash, Entry>, t: Torrent): string {
    if t.hash.None? then t.name else NameFor(known, t)
  }

  /** A torrent as it comes back. */
  function Returned(known: map<Hash, Entry>, t: Torrent, mount: RawPath): Torrent {
    t.(downloadPath := FoundPath(t.downloadPath, mount), name := FilledName(known, t))
  }

  lemma {:induction false} NamesAreNormal(path: RawPath)
    ensures AllNormal(Names(path))
    decreases |path|
  {
    if path != [] {
      NamesAreNormal(path[1..]);
    }
  }

  lemma StoredIsFound(path: Option<RawPath>, mount: RawPath)
    ensures ResolvedOption(StoredPath(path, mount), mount) == Some(FoundPath(path, mount))
  {
    if path.Some? {
      var names := Names(Told(path.value, mount));
      NamesAreNormal(Told(path.value, mount));
      NamesAll(names);
      ResolvedExactly(names, mount);
    }
  }

  lemma {:induction false} CatalogFound(catalog: CatalogFile, ts: seq<Torrent>, mount: RawPath)
    requires |catalog| == |ts|
    requires forall i | 0 <= i < |ts| :: catalog[i] == ts[i].(downloadPath := StoredPath(ts[i].downloadPath, mount))
    ensures ResolvedTorrents(catalog, mount).Some?
    ensures
      var found := ResolvedTorrents(catalog, mount).value;
      |found| == |ts|
      && forall i | 0 <= i < |ts| :: found[i] == ts[i].(downloadPath := FoundPath(ts[i].downloadPath, mount))
    decreases |ts|
  {
    if ts != [] {
      CatalogFound(catalog[..|ts| - 1], ts[..|ts| - 1], mount);
      StoredIsFound(ts[|ts| - 1].downloadPath, mount);
    }
  }

  lemma DescribedReturns(f: Files, ts: seq<Torrent>, synced: MetadataFile, i: nat, found: Torrent, mount: RawPath)
    requires DistinctHashes(ts) && i < |ts| && synced == Synced(f.metadata, ts)
    requires found == ts[i].(downloadPath := FoundPath(ts[i].downloadPath, mount))
    ensures Described(ByHash(synced), found) == Returned(ByHash(f.metadata), ts[i], mount)
  {
    if ts[i].hash.Some? {
      ByHashMatches(f.metadata);
      SyncedByHash(ByHash(f.metadata), ts, i);
    }
  }

  /** Loading after a save, on the host that saved: everything comes back as it was saved, except that
      a randomized port comes back as port 0, paths come back below the mount without dots, an unset
      default folder as the mount, and a missing name as the one in the metadata. */
  lemma LoadAfterSave(f: Files, s: Settings, mount: RawPath, stamp: nat)
    requires Save(f, s, mount, stamp, None).ok && DistinctHashes(s.torrents) && IsAbsolute(mount)
    ensures Loaded(Save(f, s, mount, stamp, None).files, mount).Some?
    ensures
      var known, t := ByHash(f.metadata), Loaded(Save(f, s, mount, stamp, None).files, mount).value;
      && t.clientId == s.clientId
      && t.defaultFolder == Some(if s.defaultFolder.Some? then FoundPath(s.defaultFolder, mount).value else mount)
      && t.clientPort == (if s.randomizePort then 0 else s.clientPort)
      && (t.randomizePort <==> s.randomizePort || s.clientPort == 0)
      && t.sharedFields == s.sharedFields && t.hostFields == s.hostFields
      && |t.torrents| == |s.torrents|
      && forall i | 0 <= i < |s.torrents| :: t.torrents[i] == Returned(known, s.torrents[i], mount)
  {
    var after := Save(f, s, mount, stamp, None).files;
    SaveStoresWell(f, s, mount, stamp);
    LoadedLayers(after, mount);
    SavesExactly(f, s, mount, stamp, None);
    SaveStores(f, s, mount, stamp);
    OwnIdAfterSave(f, s, mount, stamp);
    StoredIsFound(s.defaultFolder, mount);
    CatalogFound(after.layers.catalog, s.torrents, mount);
    var found := ResolvedTorrents(after.layers.catalog, mount).value;
    forall i | 0 <= i < |s.torrents|
      ensures DescribedAll(ByHash(after.metadata), found)[i] == Returned(ByHash(f.metadata), s.torrents[i], mount)
    {
      DescribedReturns(f, s.torrents, after.metadata, i, found[i], mount);
    }
  }

  /** A path that comes back as it is. */
  predicate Settles(path: Option<RawPath>, mount: RawPath) {
    path.Some? ==> Below(path.value, mount) && AllNormal(path.value[|mount|..])
  }

  lemma FoundSame(path: Option<RawPath>, mount: RawPath)
    requires IsAbsolute(mount) && PathStorable(path, mount)
    ensures FoundPath(path, mount) == path <==> Settles(path, mount)
  {
    if path.Some? {
      var p := path.value;
      var names := Names(Told(p, mount));
      NamesAreNormal(Told(p, mount));
      assert (mount + names)[|mount|..] == names;
      if Settles(path, mount) {
        NamesAll(p[|mount|..]);
        assert p == mount + p[|mount|..];
      }
    }
  }

  /** Exactly the settings that were saved come back if and only if a default folder is set, the paths
      are plain ones below the mount, no name is filled in, and the port is 0 exactly if randomized. */
  lemma SameSettingsReturnExactly(f: Files, s: Settings, mount: RawPath, stamp: nat)
    requires Save(f, s, mount, stamp, None).ok && DistinctHashes(s.torrents) && IsAbsolute(mount)
    ensures
      Loaded(Save(f, s, mount, stamp, None).files, mount) == Some(s) <==>
        && s.defaultFolder.Some? && Settles(s.defaultFolder, mount)
        && (s.randomizePort <==> s.clientPort == 0)
        && forall i | 0 <= i < |s.torrents| ::
             Settles(s.torrents[i].downloadPath, mount)
             && FilledName(ByHash(f.metadata), s.torrents[i]) == s.torrents[i].name
  {
    LoadAfterSave(f, s, mount, stamp);
    SavesExactly(f, s, mount, stamp, None);
    FoundSame(s.defaultFolder, mount);
    var t := Loaded(Save(f, s, mount, stamp, None).files, mount).value;
    forall i | 0 <= i < |s.torrents|
      ensures t.torrents[i] == s.torrents[i] <==>
                Settles(s.torrents[i].downloadPath, mount)
                && FilledName(ByHash(f.metadata), s.torrents[i]) == s.torrents[i].name
    {
      FoundSame(s.torrents[i].downloadPath, mount);
      assert t.torrents[i] == Returned(ByHash(f.metadata), s.torrents[i], mount);
    }
    assert t.torrents == s.torrents <==> forall i | 0 <= i < |s.torrents| :: t.torrents[i] == s.torrents[i];
  }
}
