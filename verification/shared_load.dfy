/** Loading the shared files, and when saving what was loaded writes nothing. */
module SharedLoad {
  import opened Common
  import opened SharedPaths
  import opened SharedConfig
  import opened SharedConfigLaws

  // Loading.

  function ResolvedOption(path: Option<RawPath>, mount: RawPath): Option<Option<RawPath>> {
    if path.None? then Some(None)
    else
      match Resolved(path.value, mount)
      case None => None
      case Some(p) => Some(Some(p))
  }

  function ResolvedTorrents(catalog: CatalogFile, mount: RawPath): Option<seq<Torrent>> {
    if catalog == [] then Some([])
    else
      var last := catalog[|catalog| - 1];
      match (ResolvedTorrents(catalog[..|catalog| - 1], mount), ResolvedOption(last.downloadPath, mount))
      case (Some(front), Some(path)) => Some(front + [last.(downloadPath := path)])
      case _ => None
  }

  /** The priorities of the torrent's metadata entry, and its name if the torrent has none. */
  function Described(known: map<Hash, Entry>, t: Torrent): Torrent {
    if t.hash.None? || t.hash.value !in known then t
    else
      var entry := known[t.hash.value];
      t.(priorities := entry.priorities, name := if t.name == "" then entry.name else t.name)
  }

  function DescribedAll(known: map<Hash, Entry>, ts: seq<Torrent>): seq<Torrent> {
    seq(|ts|, i requires 0 <= i < |ts| => Described(known, ts[i]))
  }

  /** The settings a host gets from the files; nothing if a file does not parse, or a path climbs or
      leaves the mount. */
  function Loaded(f: Files, mount: RawPath): Option<Settings> {
    match (ResolvedOption(f.layers.settings.defaultFolder, mount), ResolvedTorrents(f.layers.catalog, mount))
    case (Some(folder), Some(torrents)) =>
      if !f.readable then None else
      var s := Settings(
        if f.layers.host.clientId.Some? then f.layers.host.clientId.value else f.layers.settings.clientId,
        Some(if folder.Some? then folder.value else mount),
        DescribedAll(ByHash(f.metadata), torrents),
        f.layers.host.clientPort,
        f.layers.host.clientPort == 0,
        f.layers.settings.fields,
        f.layers.host.fields);
      if EncodedOption(s.defaultFolder, mount).Some? && EncodedTorrents(s.torrents, mount).Some? then Some(s) else None
    case _ => None
  }

  // Files as saves leave them.

  predicate PlainPath(path: Option<RawPath>) {
    path.Some? ==> AllNormal(path.value)
  }

  predicate PlainPaths(ts: seq<Torrent>) {
    forall i | 0 <= i < |ts| :: PlainPath(ts[i].downloadPath)
  }

  /** Paths are relative and plain, and metadata match the catalog. */
  predicate WellStored(f: Files) {
    && f.readable
    && PlainPath(f.layers.settings.defaultFolder) && PlainPaths(f.layers.catalog)
    && DistinctHashes(f.layers.catalog) && Synced(f.metadata, f.layers.catalog) == f.metadata
  }

  /** A host's own id is not the cluster's. */
  predicate OwnIdDiffers(l: Layers) {
    l.host.clientId != Some(l.settings.clientId)
  }

  /** The same torrents, wherever their payload lies. */
  predicate SameButPaths(a: seq<Torrent>, b: seq<Torrent>) {
    |a| == |b| && forall i | 0 <= i < |a| :: a[i] == b[i].(downloadPath := a[i].downloadPath)
  }

  lemma {:induction false} SyncIgnoresPaths(known: map<Hash, Entry>, a: seq<Torrent>, b: seq<Torrent>)
    requires SameButPaths(a, b)
    ensures SyncAll(known, a) == SyncAll(known, b)
    decreases |a|
  {
    if a != [] {
      SyncIgnoresPaths(known, a[..|a| - 1], b[..|b| - 1]);
    }
  }

  lemma EncodedIsPlain(path: Option<RawPath>, mount: RawPath)
    requires EncodedOption(path, mount).Some?
    ensures PlainPath(EncodedOption(path, mount).value)
  {
    if path.Some? {
      ResolvesUnderMount(path.value, mount, mount);
    }
  }

  lemma {:induction false} EncodedTorrentsPlain(ts: seq<Torrent>, mount: RawPath)
    requires EncodedTorrents(ts, mount).Some?
    ensures PlainPaths(EncodedTorrents(ts, mount).value) && SameButPaths(EncodedTorrents(ts, mount).value, ts)
    decreases |ts|
  {
    if ts != [] {
      EncodedTorrentsPlain(ts[..|ts| - 1], mount);
      EncodedIsPlain(ts[|ts| - 1].downloadPath, mount);
    }
  }

  /** Every save leaves the files well stored, and the host that saved no id that is the cluster's. */
  lemma SaveStoresWell(f: Files, s: Settings, mount: RawPath, stamp: nat)
    requires Save(f, s, mount, stamp, None).ok && DistinctHashes(s.torrents)
    ensures WellStored(Save(f, s, mount, stamp, None).files)
    ensures OwnIdDiffers(Save(f, s, mount, stamp, None).files.layers)
  {
    var after := Save(f, s, mount, stamp, None).files;
    SaveStores(f, s, mount, stamp);
    EncodedIsPlain(s.defaultFolder, mount);
    EncodedTorrentsPlain(s.torrents, mount);
    DistinctIsIdempotent(f.metadata, s.torrents);
    SyncIgnoresPaths(ByHash(after.metadata), after.layers.catalog, s.torrents);
  }

  // Resolving and encoding again.

  lemma PlainReturns(path: Option<RawPath>, mount: RawPath)
    requires PlainPath(path) && IsAbsolute(mount)
    ensures ResolvedOption(path, mount).Some?
    ensures EncodedOption(ResolvedOption(path, mount).value, mount) == Some(path)
  {
    if path.Some? {
      NormalizedFixed(path.value);
      assert (mount + path.value)[|mount|..] == path.value;
    }
  }

  lemma {:induction false} TorrentsResolve(catalog: CatalogFile, mount: RawPath)
    requires PlainPaths(catalog) && IsAbsolute(mount)
    ensures ResolvedTorrents(catalog, mount).Some?
    ensures SameButPaths(ResolvedTorrents(catalog, mount).value, catalog)
    decreases |catalog|
  {
    if catalog != [] {
      TorrentsResolve(catalog[..|catalog| - 1], mount);
      PlainReturns(catalog[|catalog| - 1].downloadPath, mount);
    }
  }

  lemma DescribedSnoc(known: map<Hash, Entry>, front: seq<Torrent>, last: Torrent)
    ensures DescribedAll(known, front + [last]) == DescribedAll(known, front) + [Described(known, last)]
  {
  }

  /** Encoding what was resolved and described gives the described catalog. */
  lemma {:induction false} TorrentsReturn(known: map<Hash, Entry>, catalog: CatalogFile, mount: RawPath)
    requires PlainPaths(catalog) && IsAbsolute(mount)
    ensures ResolvedTorrents(catalog, mount).Some?
    ensures EncodedTorrents(DescribedAll(known, ResolvedTorrents(catalog, mount).value), mount) ==
            Some(DescribedAll(known, catalog))
    decreases |catalog|
  {
    if catalog == [] {
      assert ResolvedTorrents(catalog, mount) == Some([]);
    } else {
      var front, last := catalog[..|catalog| - 1], catalog[|catalog| - 1];
      assert catalog == front + [last];
      TorrentsReturn(known, front, mount);
      PlainReturns(last.downloadPath, mount);
      TorrentReturns(known, ResolvedTorrents(front, mount).value, front, last, mount);
    }
  }

  lemma TorrentReturns(
    known: map<Hash, Entry>, resolved: seq<Torrent>, front: CatalogFile, last: Torrent, mount: RawPath)
    requires PlainPath(last.downloadPath) && IsAbsolute(mount)
    requires EncodedTorrents(DescribedAll(known, resolved), mount) == Some(DescribedAll(known, front))
    ensures ResolvedOption(last.downloadPath, mount).Some?
    ensures
      var path := ResolvedOption(last.downloadPath, mount).value;
      EncodedTorrents(DescribedAll(known, resolved + [last.(downloadPath := path)]), mount) ==
      Some(DescribedAll(known, front + [last]))
  {
    PlainReturns(last.downloadPath, mount);
    var there := last.(downloadPath := ResolvedOption(last.downloadPath, mount).value);
    DescribedSnoc(known, resolved, there);
    DescribedSnoc(known, front, last);
    var all := DescribedAll(known, resolved) + [Described(known, there)];
    assert all[..|all| - 1] == DescribedAll(known, resolved);
    assert Described(known, last) == Described(known, there).(downloadPath := last.downloadPath);
  }

  /** The layers that saving the loaded settings would write. */
  lemma LoadedLayers(f: Files, mount: RawPath)
    requires WellStored(f) && IsAbsolute(mount)
    ensures Loaded(f, mount).Some?
    ensures
      var folder := f.layers.settings.defaultFolder;
      FromSettings(Loaded(f, mount).value, mount, f.layers) ==
      Some(f.layers.(
             settings := f.layers.settings.(defaultFolder := Some(if folder.Some? then folder.value else [])),
             catalog := DescribedAll(ByHash(f.metadata), f.layers.catalog),
             host := if OwnIdDiffers(f.layers) then f.layers.host else f.layers.host.(clientId := None)))
  {
    PlainReturns(f.layers.settings.defaultFolder, mount);
    TorrentsReturn(ByHash(f.metadata), f.layers.catalog, mount);
    assert mount[|mount|..] == [];
    assert Encoded(mount, mount) == Some([]);
  }

  /** A torrent without a name whose metadata entry has one. */
  predicate NameMissing(f: Files, t: Torrent) {
    t.name == "" && t.hash.Some? && t.hash.value in ByHash(f.metadata) && ByHash(f.metadata)[t.hash.value].name != ""
  }

  predicate NamesComplete(f: Files) {
    forall i | 0 <= i < |f.layers.catalog| :: !NameMissing(f, f.layers.catalog[i])
  }

  lemma StoredEntry(f: Files, i: nat)
    requires WellStored(f) && i < |f.layers.catalog| && f.layers.catalog[i].hash.Some?
    ensures
      var t, known := f.layers.catalog[i], ByHash(f.metadata);
      t.hash.value in known && known[t.hash.value] == EntryFor(known, t)
  {
    ByHashMatches(f.metadata);
    SyncedByHash(ByHash(f.metadata), f.layers.catalog, i);
  }

  lemma DescribedUnlessNamed(f: Files, i: nat)
    requires WellStored(f) && i < |f.layers.catalog|
    ensures
      var t := f.layers.catalog[i];
      Described(ByHash(f.metadata), t) == t <==> !NameMissing(f, t)
  {
    if f.layers.catalog[i].hash.Some? {
      StoredEntry(f, i);
    }
  }

  lemma DescribedSameExactly(f: Files)
    requires WellStored(f)
    ensures DescribedAll(ByHash(f.metadata), f.layers.catalog) == f.layers.catalog <==> NamesComplete(f)
  {
    var known, ts := ByHash(f.metadata), f.layers.catalog;
    forall i | 0 <= i < |ts|
      ensures DescribedAll(known, ts)[i] == ts[i] <==> !NameMissing(f, ts[i])
    {
      DescribedUnlessNamed(f, i);
    }
    if NamesComplete(f) {
      assert forall i | 0 <= i < |ts| :: DescribedAll(known, ts)[i] == ts[i];
    }
  }

  lemma DescribedSameButPaths(known: map<Hash, Entry>, a: seq<Torrent>, b: seq<Torrent>)
    requires SameButPaths(a, b)
    ensures SameButPaths(DescribedAll(known, a), DescribedAll(known, b))
  {
  }

  lemma DescribedDistinct(known: map<Hash, Entry>, a: seq<Torrent>, b: seq<Torrent>)
    requires SameButPaths(a, b) && DistinctHashes(b)
    ensures DistinctHashes(DescribedAll(known, a))
  {
    assert forall i | 0 <= i < |a| :: DescribedAll(known, a)[i].hash == b[i].hash;
  }

  lemma LoadedTorrents(f: Files, mount: RawPath)
    requires WellStored(f) && IsAbsolute(mount)
    ensures Loaded(f, mount).Some?
    ensures SameButPaths(Loaded(f, mount).value.torrents, DescribedAll(ByHash(f.metadata), f.layers.catalog))
    ensures DistinctHashes(Loaded(f, mount).value.torrents)
  {
    var resolved := ResolvedTorrents(f.layers.catalog, mount);
    LoadedLayers(f, mount);
    TorrentsResolve(f.layers.catalog, mount);
    DescribedSameButPaths(ByHash(f.metadata), resolved.value, f.layers.catalog);
    DescribedDistinct(ByHash(f.metadata), resolved.value, f.layers.catalog);
  }

  /** A host - the one that saved last or any other, with the share mounted anywhere - that loads the
      files and saves what it loaded writes nothing exactly if a default folder is stored, no torrent
      lacks a name that its metadata have, and no id stored for this host has become the cluster's. */
  lemma LoadThenSaveSilentExactly(f: Files, mount: RawPath, stamp: nat)
    requires WellStored(f) && IsAbsolute(mount)
    ensures Loaded(f, mount).Some?
    ensures
      var again := Save(f, Loaded(f, mount).value, mount, stamp, None);
      && again.ok
      && (again == Saved(f, [], true) <==>
            f.layers.settings.defaultFolder.Some? && NamesComplete(f) && OwnIdDiffers(f.layers))
  {
    LoadedLayers(f, mount);
    DescribedSameExactly(f);
    SaveStores(f, Loaded(f, mount).value, mount, stamp);
    if NamesComplete(f) {
      MetadataSettled(f, mount);
    }
  }

  lemma MetadataSettled(f: Files, mount: RawPath)
    requires WellStored(f) && IsAbsolute(mount) && NamesComplete(f) && Loaded(f, mount).Some?
    ensures Synced(f.metadata, Loaded(f, mount).value.torrents) == f.metadata
  {
    LoadedTorrents(f, mount);
    DescribedSameExactly(f);
    SyncIgnoresPaths(ByHash(f.metadata), Loaded(f, mount).value.torrents, f.layers.catalog);
  }

  /** The name of a described torrent is missing only if its entry has none either. */
  lemma NameIsFilled(f: Files, s: Settings, synced: MetadataFile, i: nat)
    requires WellStored(f) && DistinctHashes(s.torrents)
    requires SameButPaths(s.torrents, DescribedAll(ByHash(f.metadata), f.layers.catalog))
    requires synced == Synced(f.metadata, s.torrents) && i < |s.torrents| && s.torrents[i].hash.Some?
    requires s.torrents[i].name == ""
    ensures s.torrents[i].hash.value in ByHash(synced)
    ensures ByHash(synced)[s.torrents[i].hash.value].name == ""
  {
    ByHashMatches(f.metadata);
    StoredEntry(f, i);
    SyncedByHash(ByHash(f.metadata), s.torrents, i);
  }

  lemma NamesAreFilled(f: Files, mount: RawPath, stamp: nat)
    requires WellStored(f) && IsAbsolute(mount) && Loaded(f, mount).Some?
    requires Save(f, Loaded(f, mount).value, mount, stamp, None).ok
    ensures NamesComplete(Save(f, Loaded(f, mount).value, mount, stamp, None).files)
  {
    var s := Loaded(f, mount).value;
    var after := Save(f, s, mount, stamp, None).files;
    LoadedTorrents(f, mount);
    SaveStores(f, s, mount, stamp);
    EncodedTorrentsPlain(s.torrents, mount);
    forall i | 0 <= i < |after.layers.catalog|
      ensures !NameMissing(after, after.layers.catalog[i])
    {
      assert after.layers.catalog[i].name == s.torrents[i].name && after.layers.catalog[i].hash == s.torrents[i].hash;
      if s.torrents[i].hash.Some? && s.torrents[i].name == "" {
        NameIsFilled(f, s, after.metadata, i);
      }
    }
  }

  /** The share as another host sees it: its own host file beside the shared ones. */
  function SeenBy(f: Files, host: HostFile): Files {
    f.(layers := f.layers.(host := host))
  }

  lemma NamesSeenBy(f: Files, host: HostFile)
    requires NamesComplete(f)
    ensures NamesComplete(SeenBy(f, host))
  {
    assert forall i | 0 <= i < |f.layers.catalog| ::
        NameMissing(SeenBy(f, host), f.layers.catalog[i]) == NameMissing(f, f.layers.catalog[i]);
  }

  /** What a load and save leaves: everything complete, under the same cluster id. */
  lemma LoadAndSaveCompletes(f: Files, mount: RawPath, stamp: nat)
    requires WellStored(f) && IsAbsolute(mount)
    ensures Loaded(f, mount).Some? && Save(f, Loaded(f, mount).value, mount, stamp, None).ok
    ensures
      var after := Save(f, Loaded(f, mount).value, mount, stamp, None).files;
      && WellStored(after) && NamesComplete(after) && OwnIdDiffers(after.layers)
      && after.layers.settings.defaultFolder.Some?
      && after.layers.settings.clientId == f.layers.settings.clientId
  {
    LoadThenSaveSilentExactly(f, mount, stamp);
    LoadedTorrents(f, mount);
    LoadedLayers(f, mount);
    var s := Loaded(f, mount).value;
    SaveStoresWell(f, s, mount, stamp);
    SaveStores(f, s, mount, stamp);
    NamesAreFilled(f, mount, stamp);
  }

  /** One load and save settles the shared files for every host. Another host, whatever its own file
      holds and wherever it mounts the share, then loads and saves without writing anything exactly
      if the id stored for it is not the cluster's; otherwise it writes its own file once. */
  lemma LoadAndSaveSettles(
    f: Files, here: RawPath, other: HostFile, there: RawPath, stamp: nat, later: nat)
    requires WellStored(f) && IsAbsolute(here) && IsAbsolute(there)
    ensures Loaded(f, here).Some?
    ensures
      var seen := SeenBy(Save(f, Loaded(f, here).value, here, stamp, None).files, other);
      && Loaded(seen, there).Some?
      && Save(seen, Loaded(seen, there).value, there, later, None) ==
           if other.clientId != Some(f.layers.settings.clientId) then Saved(seen, [], true)
           else Saved(SeenBy(seen, other.(clientId := None)), [HostKind], true)
  {
    LoadAndSaveCompletes(f, here, stamp);
    var after := Save(f, Loaded(f, here).value, here, stamp, None).files;
    NamesSeenBy(after, other);
    CompleteSave(SeenBy(after, other), there, later);
  }

  lemma CompleteSave(f: Files, mount: RawPath, stamp: nat)
    requires WellStored(f) && IsAbsolute(mount) && NamesComplete(f) && f.layers.settings.defaultFolder.Some?
    ensures Loaded(f, mount).Some?
    ensures Save(f, Loaded(f, mount).value, mount, stamp, None) ==
            if OwnIdDiffers(f.layers) then Saved(f, [], true)
            else Saved(SeenBy(f, f.layers.host.(clientId := None)), [HostKind], true)
  {
    LoadedLayers(f, mount);
    DescribedSameExactly(f);
    MetadataSettled(f, mount);
  }

  /** Two hosts: the cluster's id is "y" and host B has the id "x" of its own. Host A, which has none,
      saves the id "x". Everything B could complete is complete, yet its load and save writes. */
  lemma TwoHostInstance(stamp: nat, later: nat)
    ensures
      var mount: RawPath := [RootDir];
      var b := HostFile(Some("x"), 1, map[]);
      var f := Files(Layers(SettingsFile("y", Some([]), map[]), [], HostFile(None, 1, map[])), [], 7, true);
      var after := Save(f, Settings("x", Some(mount), [], 1, false, map[], map[]), mount, stamp, None);
      var seen := SeenBy(after.files, b);
      && WellStored(SeenBy(f, b)) && OwnIdDiffers(SeenBy(f, b).layers) && after.ok
      && WellStored(seen) && NamesComplete(seen) && seen.layers.settings.defaultFolder.Some?
      && Loaded(seen, mount).Some?
      && Save(seen, Loaded(seen, mount).value, mount, later, None).written == [HostKind]
  {
    var mount: RawPath := [RootDir];
    var b := HostFile(Some("x"), 1, map[]);
    var f := Files(Layers(SettingsFile("y", Some([]), map[]), [], HostFile(None, 1, map[])), [], 7, true);
    assert "x"[0] != "y"[0];
    assert mount[|mount|..] == [] && Encoded(mount, mount) == Some([]);
    var after := Save(f, Settings("x", Some(mount), [], 1, false, map[], map[]), mount, stamp, None);
    SaveStoresWell(f, Settings("x", Some(mount), [], 1, false, map[], map[]), mount, stamp);
    CompleteSave(SeenBy(after.files, b), mount, later);
  }
}
