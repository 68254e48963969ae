/** The layered configuration of a cluster: settings and catalog shared by all hosts, a layer of each
    host's own, and torrent metadata. A save writes only the files whose contents changed. */
module SharedConfig {
  import opened Common
  import opened SharedPaths

  /** Fields that are copied between layers as they are. */
  type Fields = map<string, string>

  type Hash = string

  type Priorities = map<nat, nat>

  datatype Content = Content(size: nat, multiFile: bool, files: seq<(string, nat)>)

  const NO_CONTENT := Content(0, false, [])

  /** What a magnet link says about its payload. */
  datatype Announced = Announced(name: string, content: Content)

  /** A torrent in the settings; `hash` and `announced` are read off its source. */
  datatype Torrent = Torrent(
    hash: Option<Hash>,
    announced: Option<Announced>,
    name: string,
    priorities: Priorities,
    downloadPath: Option<RawPath>,
    fields: Fields)

  datatype Settings = Settings(
    clientId: string,
    defaultFolder: Option<RawPath>,
    torrents: seq<Torrent>,
    clientPort: nat,
    randomizePort: bool,
    sharedFields: Fields,
    hostFields: Fields)

  datatype SettingsFile = SettingsFile(clientId: string, defaultFolder: Option<RawPath>, fields: Fields)

  type CatalogFile = seq<Torrent>

  datatype HostFile = HostFile(clientId: Option<string>, clientPort: nat, fields: Fields)

  datatype Entry = Entry(hash: Hash, name: string, content: Content, priorities: Priorities)

  type MetadataFile = seq<Entry>

  // Encoding the layers.

  function EncodedOption(path: Option<RawPath>, mount: RawPath): Option<Option<RawPath>> {
    if path.None? then Some(None)
    else
      match Encoded(path.value, mount)
      case None => None
      case Some(p) => Some(Some(p))
  }

  function EncodedTorrents(ts: seq<Torrent>, mount: RawPath): Option<CatalogFile> {
    if ts == [] then Some([])
    else
      var last := ts[|ts| - 1];
      match (EncodedTorrents(ts[..|ts| - 1], mount), EncodedOption(last.downloadPath, mount))
      case (Some(front), Some(path)) => Some(front + [last.(downloadPath := path)])
      case _ => None
  }

  datatype Layers = Layers(settings: SettingsFile, catalog: CatalogFile, host: HostFile)

  /** The client id that counts as the cluster's: the one on file if this host has its own. */
  function ClusterId(current: Layers, s: Settings): string {
    if current.host.clientId.Some? then current.settings.clientId else s.clientId
  }

  function HostLayer(s: Settings, clusterId: string): HostFile {
    HostFile(if s.clientId != clusterId then Some(s.clientId) else None,
             if s.randomizePort then 0 else s.clientPort,
             s.hostFields)
  }

  function FromSettings(s: Settings, mount: RawPath, current: Layers): Option<Layers> {
    match (EncodedOption(s.defaultFolder, mount), EncodedTorrents(s.torrents, mount))
    case (Some(folder), Some(catalog)) =>
      var host := HostLayer(s, ClusterId(current, s));
      var id := if current.host.clientId.Some? && host.clientId.Some? then current.settings.clientId else s.clientId;
      Some(Layers(SettingsFile(id, folder, s.sharedFields), catalog, host))
    case _ => None
  }

  // Synchronizing metadata.

  function Placeholder(t: Torrent): Entry
    requires t.hash.Some?
  {
    if t.announced.Some? then Entry(t.hash.value, t.announced.value.name, t.announced.value.content, t.priorities)
    else Entry(t.hash.value, t.name, NO_CONTENT, t.priorities)
  }

  function Overridden(e: Entry, t: Torrent): Entry {
    e.(name := if t.name != "" then t.name else e.name, priorities := t.priorities)
  }

  /** By hash; of several entries with one hash the last counts. */
  function ByHash(entries: MetadataFile): map<Hash, Entry> {
    if entries == [] then map[]
    else ByHash(entries[..|entries| - 1])[entries[|entries| - 1].hash := entries[|entries| - 1]]
  }

  datatype Sync = Sync(entries: MetadataFile, left: map<Hash, Entry>)

  function SyncOne(s: Sync, t: Torrent): Sync {
    if t.hash.None? then s
    else
      var h := t.hash.value;
      var base := if h in s.left then s.left[h] else Placeholder(t);
      Sync(s.entries + [Overridden(base, t)], s.left - {h})
  }

  function SyncAll(known: map<Hash, Entry>, ts: seq<Torrent>): Sync {
    if ts == [] then Sync([], known) else SyncOne(SyncAll(known, ts[..|ts| - 1]), ts[|ts| - 1])
  }

  function Synced(existing: MetadataFile, ts: seq<Torrent>): MetadataFile {
    SyncAll(ByHash(existing), ts).entries
  }

  // Saving.

  /** What the files read as; `readable` tells whether settings, catalog and host file parse. */
  datatype Files = Files(layers: Layers, metadata: MetadataFile, revision: nat, readable: bool)

  datatype FileKind = SettingsKind | CatalogKind | MetadataKind | HostKind | RevisionKind

  /** A write that fails, with what its file reads as afterwards. A failure before the rename leaves
      the old contents, one behind it the new ones or a torn file; an empty file reads as defaults,
      others may not parse. Metadata that do not parse read as none. */
  datatype Failure =
    | SettingsFails(settings: Option<SettingsFile>)
    | CatalogFails(catalog: Option<CatalogFile>)
    | MetadataFails(metadata: MetadataFile)
    | HostFails(host: Option<HostFile>)
    | RevisionFails(revision: nat)

  function KindOf(x: Failure): FileKind {
    match x
    case SettingsFails(_) => SettingsKind
    case CatalogFails(_) => CatalogKind
    case MetadataFails(_) => MetadataKind
    case HostFails(_) => HostKind
    case RevisionFails(_) => RevisionKind
  }

  predicate Parses(x: Failure) {
    match x
    case SettingsFails(left) => left.Some?
    case CatalogFails(left) => left.Some?
    case HostFails(left) => left.Some?
    case _ => true
  }

  function LeftBehind(f: Files, x: Failure): Files {
    if !Parses(x) then f.(readable := false)
    else
      match x
      case SettingsFails(left) => f.(layers := f.layers.(settings := left.value))
      case CatalogFails(left) => f.(layers := f.layers.(catalog := left.value))
      case MetadataFails(left) => f.(metadata := left)
      case HostFails(left) => f.(layers := f.layers.(host := left.value))
      case RevisionFails(left) => f.(revision := left)
  }

  datatype Saved = Saved(files: Files, written: seq<FileKind>, ok: bool)

  function Put(s: Saved, changed: bool, kind: FileKind, files: Files, failing: Option<Failure>): Saved {
    if !s.ok || !changed then s
    else if failing.Some? && KindOf(failing.value) == kind then
      Saved(LeftBehind(s.files, failing.value), s.written, false)
    else Saved(files, s.written + [kind], true)
  }

  /** The catalog, the metadata, the host file and the revision marker, in this order. */
  function PutRest(
    one: Saved, f: Files, next: Layers, metadata: MetadataFile, stamp: nat, failing: Option<Failure>): Saved
  {
    var two := Put(one, next.catalog != f.layers.catalog, CatalogKind,
                   one.files.(layers := one.files.layers.(catalog := next.catalog)), failing);
    var three := Put(two, metadata != f.metadata, MetadataKind, two.files.(metadata := metadata), failing);
    var four := Put(three, next.host != f.layers.host, HostKind,
                    three.files.(layers := three.files.layers.(host := next.host)), failing);
    Put(four, next.settings != f.layers.settings || next.catalog != f.layers.catalog || metadata != f.metadata,
        RevisionKind, four.files.(revision := stamp), failing)
  }

  /** The files in the order they are written; `failing` is the write that fails, if any. The files
      are read first, and one that does not parse ends the save. */
  function Save(f: Files, s: Settings, mount: RawPath, stamp: nat, failing: Option<Failure>): Saved {
    match if f.readable then FromSettings(s, mount, f.layers) else None
    case None => Saved(f, [], false)
    case Some(next) =>
      var one := Put(Saved(f, [], true), next.settings != f.layers.settings, SettingsKind,
                     f.(layers := f.layers.(settings := next.settings)), failing);
      PutRest(one, f, next, Synced(f.metadata, s.torrents), stamp, failing)
  }

  // Laws of a save.

  /** A successful save leaves exactly the encoded layers and the synchronized metadata, and changes
      the revision only along with something shared. */
  lemma SaveStores(f: Files, s: Settings, mount: RawPath, stamp: nat)
    requires Save(f, s, mount, stamp, None).ok
    ensures
      var after := Save(f, s, mount, stamp, None);
      && f.readable && after.files.readable
      && FromSettings(s, mount, f.layers) == Some(after.files.layers)
      && after.files.metadata == Synced(f.metadata, s.torrents)
      && after.files.revision ==
           (if after.files.layers.settings != f.layers.settings || after.files.layers.catalog != f.layers.catalog
               || after.files.metadata != f.metadata
            then stamp else f.revision)
      && (after.written == [] <==> after.files.layers == f.layers && after.files.metadata == f.metadata)
  {
  }

  lemma RestKeepsSettings(
    one: Saved, f: Files, next: Layers, metadata: MetadataFile, stamp: nat, failing: Option<Failure>)
    ensures PutRest(one, f, next, metadata, stamp, failing).files.layers.settings ==
            one.files.layers.settings
  {
  }

  /** A host with an id of its own never changes the cluster's; any other host sets it. Only a failed
      write of the settings can leave another id behind. */
  lemma ClusterIdAfterSave(f: Files, s: Settings, mount: RawPath, stamp: nat, failing: Option<Failure>)
    ensures
      var after := Save(f, s, mount, stamp, failing).files.layers.settings.clientId;
      var torn := failing.Some? && failing.value.SettingsFails?;
      && (f.layers.host.clientId.Some? && !torn ==> after == f.layers.settings.clientId)
      && (f.layers.host.clientId.None? && !torn && f.readable && FromSettings(s, mount, f.layers).Some? ==>
            after == s.clientId)
      && (torn && failing.value.settings.Some? && f.layers.host.clientId.Some? ==>
            after == f.layers.settings.clientId || after == failing.value.settings.value.clientId)
  {
    if f.readable && FromSettings(s, mount, f.layers).Some? {
      var next := FromSettings(s, mount, f.layers).value;
      var one := Put(Saved(f, [], true), next.settings != f.layers.settings, SettingsKind,
                     f.(layers := f.layers.(settings := next.settings)), failing);
      RestKeepsSettings(one, f, next, Synced(f.metadata, s.torrents), stamp, failing);
    }
  }

  /** What a host sees as its id after a save is what it saved. */
  lemma OwnIdAfterSave(f: Files, s: Settings, mount: RawPath, stamp: nat)
    requires Save(f, s, mount, stamp, None).ok
    ensures
      var l := Save(f, s, mount, stamp, None).files.layers;
      (if l.host.clientId.Some? then l.host.clientId.value else l.settings.clientId) == s.clientId
  {
  }

  lemma LayersSettle(s: Settings, mount: RawPath, current: Layers)
    requires FromSettings(s, mount, current).Some?
    ensures FromSettings(s, mount, FromSettings(s, mount, current).value) == FromSettings(s, mount, current)
  {
  }
}
