/** The shared backend as it runs: the files of the share, compared and replaced one after another. */
module SharedConfigBackend {
  import opened Common
  import opened SharedPaths
  import opened SharedConfig
  import opened SharedConfigLaws
  import opened SharedLoad

  method EncodeSharedDataPath(path: RawPath, mount: RawPath) returns (encoded: Option<RawPath>)
    ensures encoded == Encoded(path, mount)
    ensures encoded == if Storable(path, mount) then Some(Names(Told(path, mount))) else None
    ensures encoded.Some? ==> AllNormal(encoded.value)
  {
    StoredExactly(path, mount);
    if !IsAbsolute(path) {
      encoded := NormalizeSharedRelativePath(path);
    } else if mount <= path {
      encoded := NormalizeSharedRelativePath(path[|mount|..]);
    } else {
      encoded := None;
    }
  }

  method EncodeOption(path: Option<RawPath>, mount: RawPath) returns (encoded: Option<Option<RawPath>>)
    ensures encoded == EncodedOption(path, mount)
  {
    if path.None? {
      return Some(None);
    }
    var p := EncodeSharedDataPath(path.value, mount);
    encoded := if p.None? then None else Some(p);
  }

  lemma {:induction false} EncodedPrefix(ts: seq<Torrent>, mount: RawPath, n: nat)
    requires n <= |ts| && EncodedTorrents(ts[..n], mount).None?
    ensures EncodedTorrents(ts, mount).None?
    decreases |ts| - n
  {
    if n < |ts| {
      assert ts[..n + 1][..n] == ts[..n];
      EncodedPrefix(ts, mount, n + 1);
    } else {
      assert ts[..n] == ts;
    }
  }

  method EncodeCatalog(ts: seq<Torrent>, mount: RawPath) returns (catalog: Option<CatalogFile>)
    ensures catalog == EncodedTorrents(ts, mount)
  {
    var out: CatalogFile := [];
    for i := 0 to |ts|
      invariant EncodedTorrents(ts[..i], mount) == Some(out)
    {
      assert ts[..i + 1][..i] == ts[..i];
      var path := EncodeOption(ts[i].downloadPath, mount);
      if path.None? {
        EncodedPrefix(ts, mount, i + 1);
        return None;
      }
      out := out + [ts[i].(downloadPath := path.value)];
    }
    assert ts[..|ts|] == ts;
    catalog := Some(out);
  }

  method CollectByHash(entries: MetadataFile) returns (known: map<Hash, Entry>)
    ensures known == ByHash(entries)
  {
    known := map[];
    for i := 0 to |entries|
      invariant known == ByHash(entries[..i])
    {
      assert entries[..i + 1][..i] == entries[..i];
      known := known[entries[i].hash := entries[i]];
    }
    assert entries[..|entries|] == entries;
  }

  method SyncTorrentMetadata(existing: MetadataFile, ts: seq<Torrent>) returns (entries: MetadataFile)
    ensures entries == Synced(existing, ts)
    ensures DistinctHashes(ts) ==> Synced(entries, ts) == entries
  {
    var left := CollectByHash(existing);
    entries := [];
    for i := 0 to |ts|
      invariant Sync(entries, left) == SyncAll(ByHash(existing), ts[..i])
    {
      assert ts[..i + 1][..i] == ts[..i];
      var t := ts[i];
      if t.hash.Some? {
        var entry := Placeholder(t);
        if t.hash.value in left {
          entry := left[t.hash.value];
        }
        left := left - {t.hash.value};
        if t.name != "" {
          entry := entry.(name := t.name);
        }
        entry := entry.(priorities := t.priorities);
        entries := entries + [entry];
      }
    }
    assert ts[..|ts|] == ts;
    if DistinctHashes(ts) {
      DistinctIsIdempotent(existing, ts);
    }
  }

  method ResolveOption(path: Option<RawPath>, mount: RawPath) returns (resolved: Option<Option<RawPath>>)
    ensures resolved == ResolvedOption(path, mount)
  {
    if path.None? {
      return Some(None);
    }
    var relative := NormalizeSharedRelativePath(path.value);
    resolved := if relative.None? then None else Some(Some(mount + relative.value));
  }

  lemma {:induction false} ResolvedPrefix(catalog: CatalogFile, mount: RawPath, n: nat)
    requires n <= |catalog| && ResolvedTorrents(catalog[..n], mount).None?
    ensures ResolvedTorrents(catalog, mount).None?
    decreases |catalog| - n
  {
    if n < |catalog| {
      assert catalog[..n + 1][..n] == catalog[..n];
      ResolvedPrefix(catalog, mount, n + 1);
    } else {
      assert catalog[..n] == catalog;
    }
  }

  method ResolveCatalog(catalog: CatalogFile, mount: RawPath) returns (torrents: Option<seq<Torrent>>)
    ensures torrents == ResolvedTorrents(catalog, mount)
  {
    var out: seq<Torrent> := [];
    for i := 0 to |catalog|
      invariant ResolvedTorrents(catalog[..i], mount) == Some(out)
    {
      assert catalog[..i + 1][..i] == catalog[..i];
      var path := ResolveOption(catalog[i].downloadPath, mount);
      if path.None? {
        ResolvedPrefix(catalog, mount, i + 1);
        return None;
      }
      out := out + [catalog[i].(downloadPath := path.value)];
    }
    assert catalog[..|catalog|] == catalog;
    torrents := Some(out);
  }

  method ApplyMetadata(torrents: seq<Torrent>, metadata: MetadataFile) returns (described: seq<Torrent>)
    ensures described == DescribedAll(ByHash(metadata), torrents)
  {
    var known := CollectByHash(metadata);
    described := torrents;
    for i := 0 to |torrents|
      invariant |described| == |torrents| && described[i..] == torrents[i..]
      invariant forall j | 0 <= j < i :: described[j] == Described(known, torrents[j])
    {
      var t := torrents[i];
      assert described[i] == described[i..][0] == torrents[i..][0];
      if t.hash.Some? && t.hash.value in known {
        var entry := known[t.hash.value];
        t := t.(priorities := entry.priorities);
        if t.name == "" && entry.name != "" {
          t := t.(name := entry.name);
        }
        described := described[i := t];
      }
      assert described[i + 1..] == torrents[i + 1..];
    }
  }

  class SharedConfigBackend {
    const mount: RawPath
    var settings: SettingsFile
    var catalog: CatalogFile
    var host: HostFile
    var metadata: MetadataFile
    var revision: nat
    var readable: bool

    ghost function State(): Files
      reads this
    {
      Files(Layers(settings, catalog, host), metadata, revision, readable)
    }

    constructor (mount: RawPath, files: Files)
      ensures this.mount == mount && State() == files
    {
      this.mount := mount;
      settings := files.layers.settings;
      catalog := files.layers.catalog;
      host := files.layers.host;
      metadata := files.metadata;
      revision := files.revision;
      readable := files.readable;
    }

    method LayersFrom(s: Settings) returns (next: Option<Layers>)
      ensures next == FromSettings(s, mount, State().layers)
    {
      var folder := EncodeOption(s.defaultFolder, mount);
      var encoded := EncodeCatalog(s.torrents, mount);
      if folder.None? || encoded.None? {
        return None;
      }
      var clusterId := if host.clientId.Some? then settings.clientId else s.clientId;
      var nextHost := HostLayer(s, clusterId);
      var id := s.clientId;
      if host.clientId.Some? && nextHost.clientId.Some? {
        id := settings.clientId;
      }
      next := Some(Layers(SettingsFile(id, folder.value, s.sharedFields), encoded.value, nextHost));
    }

    method LoadSettings() returns (loaded: Option<Settings>)
      ensures loaded == Loaded(State(), mount)
    {
      if !readable {
        return None;
      }
      var folder := ResolveOption(settings.defaultFolder, mount);
      var torrents := ResolveCatalog(catalog, mount);
      if folder.None? || torrents.None? {
        return None;
      }
      var described := ApplyMetadata(torrents.value, metadata);
      var id := if host.clientId.Some? then host.clientId.value else settings.clientId;
      var defaultFolder := Some(if folder.value.Some? then folder.value.value else mount);
      var port := host.clientPort;
      var s := Settings(id, defaultFolder, described, port, port == 0, settings.fields, host.fields);
      var encodedFolder := EncodeOption(s.defaultFolder, mount);
      var encoded := EncodeCatalog(s.torrents, mount);
      loaded := if encodedFolder.Some? && encoded.Some? then Some(s) else None;
    }

    static predicate Fails(failing: Option<Failure>, kind: FileKind) {
      failing.Some? && KindOf(failing.value) == kind
    }

    method LeaveBehind(x: Failure)
      modifies this
      ensures State() == LeftBehind(old(State()), x)
    {
      match x
      case SettingsFails(left) =>
        if left.Some? { settings := left.value; } else { readable := false; }
      case CatalogFails(left) =>
        if left.Some? { catalog := left.value; } else { readable := false; }
      case MetadataFails(left) => metadata := left;
      case HostFails(left) =>
        if left.Some? { host := left.value; } else { readable := false; }
      case RevisionFails(left) => revision := left;
    }

    /** `failing` is the write that fails, if any; a failed write ends the save. */
    method SaveSettings(s: Settings, stamp: nat, failing: Option<Failure>) returns (written: seq<FileKind>, ok: bool)
      modifies this
      ensures Saved(State(), written, ok) == Save(old(State()), s, mount, stamp, failing)
    {
      written := [];
      if !readable {
        return [], false;
      }
      var next := LayersFrom(s);
      if next.None? {
        return [], false;
      }
      ghost var f := State();
      var settingsChanged := next.value.settings != settings;
      if settingsChanged {
        if Fails(failing, SettingsKind) {
          LeaveBehind(failing.value);
          return written, false;
        }
        settings := next.value.settings;
        written := written + [SettingsKind];
      }
      var nextMetadata := SyncTorrentMetadata(metadata, s.torrents);
      written, ok := SaveRest(next.value, nextMetadata, settingsChanged, stamp, failing, written, f);
    }

    /** Everything behind the settings. */
    method SaveRest(
      next: Layers, nextMetadata: MetadataFile, settingsChanged: bool, stamp: nat, failing: Option<Failure>,
      before: seq<FileKind>, ghost f: Files)
      returns (written: seq<FileKind>, ok: bool)
      requires State() == f.(layers := f.layers.(settings := settings))
      requires settingsChanged == (next.settings != f.layers.settings)
      modifies this
      ensures Saved(State(), written, ok) ==
              PutRest(Saved(old(State()), before, true), f, next, nextMetadata, stamp, failing)
    {
      written := before;
      ghost var one := Saved(State(), written, true);
      var catalogChanged := next.catalog != catalog;
      var metadataChanged := nextMetadata != metadata;
      if catalogChanged {
        if Fails(failing, CatalogKind) {
          LeaveBehind(failing.value);
          return written, false;
        }
        catalog := next.catalog;
        written := written + [CatalogKind];
      }
      ghost var two := Put(one, catalogChanged, CatalogKind, State(), failing);
      assert two == Saved(State(), written, true);
      if metadataChanged {
        if Fails(failing, MetadataKind) {
          LeaveBehind(failing.value);
          return written, false;
        }
        metadata := nextMetadata;
        written := written + [MetadataKind];
      }
      ghost var three := Put(two, metadataChanged, MetadataKind, State(), failing);
      assert three == Saved(State(), written, true);
      if next.host != host {
        if Fails(failing, HostKind) {
          LeaveBehind(failing.value);
          return written, false;
        }
        host := next.host;
        written := written + [HostKind];
      }
      if settingsChanged || catalogChanged || metadataChanged {
        if Fails(failing, RevisionKind) {
          LeaveBehind(failing.value);
          return written, false;
        }
        revision := stamp;
        written := written + [RevisionKind];
      }
      ok := true;
    }
  }
}
