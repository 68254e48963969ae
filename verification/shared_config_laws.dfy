/** When saving twice is the same as saving once. */
module SharedConfigLaws {
  import opened Common
  import opened SharedPaths
  import opened SharedConfig

  predicate DistinctHashes(ts: seq<Torrent>) {
    forall i, j | 0 <= i < j < |ts| && ts[i].hash.Some? :: ts[i].hash != ts[j].hash
  }

  predicate HasHash(ts: seq<Torrent>, h: Hash) {
    exists i :: 0 <= i < |ts| && ts[i].hash == Some(h)
  }

  predicate KeysMatch(known: map<Hash, Entry>) {
    forall h | h in known :: known[h].hash == h
  }

  lemma {:induction false} ByHashMatches(entries: MetadataFile)
    ensures KeysMatch(ByHash(entries))
    decreases |entries|
  {
    if entries != [] {
      ByHashMatches(entries[..|entries| - 1]);
    }
  }

  /** Metadata is used up: what is left is what no torrent asked for. */
  lemma {:induction false} LeftIs(known: map<Hash, Entry>, ts: seq<Torrent>, h: Hash)
    ensures h in SyncAll(known, ts).left <==> h in known && !HasHash(ts, h)
    ensures h in SyncAll(known, ts).left ==> SyncAll(known, ts).left[h] == known[h]
    decreases |ts|
  {
    if ts != [] {
      LeftIs(known, ts[..|ts| - 1], h);
      HasHashSnoc(ts, h);
    }
  }

  lemma HasHashSnoc(ts: seq<Torrent>, h: Hash)
    requires ts != []
    ensures HasHash(ts, h) <==> HasHash(ts[..|ts| - 1], h) || ts[|ts| - 1].hash == Some(h)
  {
    var front := ts[..|ts| - 1];
    if HasHash(front, h) {
      var i :| 0 <= i < |front| && front[i].hash == Some(h);
      assert ts[i].hash == Some(h);
    }
    if HasHash(ts, h) && ts[|ts| - 1].hash != Some(h) {
      var i :| 0 <= i < |ts| && ts[i].hash == Some(h);
      assert front[i].hash == Some(h);
    }
  }

  /** The entry of a torrent nobody shares a hash with. */
  function EntryFor(known: map<Hash, Entry>, t: Torrent): Entry
    requires t.hash.Some?
  {
    Overridden(if t.hash.value in known then known[t.hash.value] else Placeholder(t), t)
  }

  lemma DistinctFront(ts: seq<Torrent>)
    requires DistinctHashes(ts) && ts != []
    ensures DistinctHashes(ts[..|ts| - 1])
    ensures ts[|ts| - 1].hash.Some? ==> !HasHash(ts[..|ts| - 1], ts[|ts| - 1].hash.value)
  {
  }

  lemma LastStep(known: map<Hash, Entry>, ts: seq<Torrent>)
    requires DistinctHashes(ts) && ts != [] && ts[|ts| - 1].hash.Some?
    ensures SyncAll(known, ts).entries == SyncAll(known, ts[..|ts| - 1]).entries + [EntryFor(known, ts[|ts| - 1])]
  {
    DistinctFront(ts);
    LeftIs(known, ts[..|ts| - 1], ts[|ts| - 1].hash.value);
  }

  lemma {:induction false} SyncedByHash(known: map<Hash, Entry>, ts: seq<Torrent>, i: nat)
    requires DistinctHashes(ts) && KeysMatch(known) && i < |ts| && ts[i].hash.Some?
    ensures var r := ByHash(SyncAll(known, ts).entries);
            ts[i].hash.value in r && r[ts[i].hash.value] == EntryFor(known, ts[i])
    decreases |ts|
  {
    var front := ts[..|ts| - 1];
    var last := ts[|ts| - 1];
    DistinctFront(ts);
    if last.hash.Some? {
      LastStep(known, ts);
      var entries := SyncAll(known, ts).entries;
      assert entries[..|entries| - 1] == SyncAll(known, front).entries;
    }
    if i < |front| {
      SyncedByHash(known, front, i);
    }
  }

  /** Two stores that agree on the torrents' hashes give the same entries. */
  lemma {:induction false} SameEntries(a: map<Hash, Entry>, b: map<Hash, Entry>, ts: seq<Torrent>)
    requires DistinctHashes(ts)
    requires forall i | 0 <= i < |ts| && ts[i].hash.Some? :: EntryFor(a, ts[i]) == EntryFor(b, ts[i])
    ensures SyncAll(a, ts).entries == SyncAll(b, ts).entries
    decreases |ts|
  {
    if ts != [] {
      DistinctFront(ts);
      SameEntries(a, b, ts[..|ts| - 1]);
      if ts[|ts| - 1].hash.Some? {
        LastStep(a, ts);
        LastStep(b, ts);
      }
    }
  }

  lemma DistinctIsIdempotent(existing: MetadataFile, ts: seq<Torrent>)
    requires DistinctHashes(ts)
    ensures Synced(Synced(existing, ts), ts) == Synced(existing, ts)
  {
    var known := ByHash(existing);
    var again := ByHash(Synced(existing, ts));
    ByHashMatches(existing);
    forall i | 0 <= i < |ts| && ts[i].hash.Some?
      ensures EntryFor(again, ts[i]) == EntryFor(known, ts[i])
    {
      SyncedByHash(known, ts, i);
    }
    SameEntries(again, known, ts);
  }

  // Shared hashes.

  function CountHashed(ts: seq<Torrent>): nat {
    if ts == [] then 0 else CountHashed(ts[..|ts| - 1]) + if ts[|ts| - 1].hash.Some? then 1 else 0
  }

  lemma {:induction false} SyncLength(known: map<Hash, Entry>, ts: seq<Torrent>)
    ensures |SyncAll(known, ts).entries| == CountHashed(ts)
    decreases |ts|
  {
    if ts != [] {
      SyncLength(known, ts[..|ts| - 1]);
    }
  }

  lemma {:induction false} SyncPrefix(known: map<Hash, Entry>, ts: seq<Torrent>, n: nat)
    requires n <= |ts|
    ensures SyncAll(known, ts[..n]).entries <= SyncAll(known, ts).entries
    decreases |ts| - n
  {
    if n < |ts| {
      assert ts[..n + 1][..n] == ts[..n];
      SyncPrefix(known, ts, n + 1);
    } else {
      assert ts[..n] == ts;
    }
  }

  /** The first torrent with a hash gets the stored content. */
  lemma FirstContent(known: map<Hash, Entry>, ts: seq<Torrent>, first: nat, h: Hash)
    requires first < |ts| && ts[first].hash == Some(h) && !HasHash(ts[..first], h) && h in known
    ensures CountHashed(ts[..first]) < |SyncAll(known, ts).entries|
    ensures SyncAll(known, ts).entries[CountHashed(ts[..first])].content == known[h].content
  {
    assert ts[..first + 1][..first] == ts[..first];
    LeftIs(known, ts[..first], h);
    SyncLength(known, ts[..first]);
    SyncPrefix(known, ts, first + 1);
  }

  /** If two torrents share a hash, the entry that counts holds a placeholder's content. */
  lemma {:induction false} LastContent(known: map<Hash, Entry>, ts: seq<Torrent>, first: nat, h: Hash)
    returns (last: nat)
    requires KeysMatch(known) && first < |ts| && ts[first].hash == Some(h) && HasHash(ts[first + 1..], h)
    ensures first < last < |ts| && ts[last].hash == Some(h)
    ensures h in ByHash(SyncAll(known, ts).entries)
    ensures ByHash(SyncAll(known, ts).entries)[h].content == Placeholder(ts[last]).content
    decreases |ts|
  {
    var front := ts[..|ts| - 1];
    var t := ts[|ts| - 1];
    var entries := SyncAll(known, ts).entries;
    if t.hash.Some? {
      assert entries[..|entries| - 1] == SyncAll(known, front).entries;
    }
    if t.hash == Some(h) {
      last := |ts| - 1;
      assert front[first].hash == Some(h);
      LeftIs(known, front, h);
      assert entries[|entries| - 1] == Overridden(Placeholder(t), t);
    } else {
      assert front[first + 1..] == ts[first + 1..][..|ts| - first - 2];
      HasHashSnoc(ts[first + 1..], h);
      last := LastContent(known, front, first, h);
      if t.hash.Some? {
        EntryHash(known, front, t);
      }
    }
  }

  lemma EntryHash(known: map<Hash, Entry>, front: seq<Torrent>, t: Torrent)
    requires KeysMatch(known) && t.hash.Some?
    ensures
      var entries := SyncOne(SyncAll(known, front), t).entries;
      |entries| > 0 && entries[|entries| - 1].hash == t.hash.value
  {
    LeftIs(known, front, t.hash.value);
  }

  lemma SharedHash(ts: seq<Torrent>) returns (first: nat, h: Hash)
    requires !DistinctHashes(ts)
    ensures first < |ts| && ts[first].hash == Some(h) && !HasHash(ts[..first], h) && HasHash(ts[first + 1..], h)
  {
    var i, j :| 0 <= i < j < |ts| && ts[i].hash.Some? && ts[i].hash == ts[j].hash;
    h := ts[i].hash.value;
    first := 0;
    while ts[first].hash != Some(h)
      invariant first <= i && !HasHash(ts[..first], h)
      decreases i - first
    {
      assert ts[..first + 1][..first] == ts[..first];
      HasHashSnoc(ts[..first + 1], h);
      first := first + 1;
    }
    assert ts[first + 1..][j - first - 1].hash == Some(h);
  }

  /** Torrents that share a hash: some stored metadata change once more on the second save. */
  lemma SharedHashesDiffer(ts: seq<Torrent>) returns (existing: MetadataFile)
    requires !DistinctHashes(ts)
    ensures Synced(Synced(existing, ts), ts) != Synced(existing, ts)
  {
    var first, h := SharedHash(ts);
    existing := LargerThanAll(ts, h);
    var known := ByHash(existing);
    assert existing[..|existing| - 1] == [] && ByHash([]) == map[];
    assert known == map[h := existing[0]];
    FirstContent(known, ts, first, h);
    var last := LastContent(known, ts, first, h);
    FirstContent(ByHash(Synced(existing, ts)), ts, first, h);
  }

  lemma {:induction false} LargerThanAll(ts: seq<Torrent>, h: Hash) returns (existing: MetadataFile)
    ensures |existing| == 1 && existing[0].hash == h
    ensures forall i | 0 <= i < |ts| && ts[i].hash.Some? :: Placeholder(ts[i]).content.size < existing[0].content.size
    decreases |ts|
  {
    if ts == [] {
      existing := [Entry(h, "", Content(1, false, []), map[])];
    } else {
      var less := LargerThanAll(ts[..|ts| - 1], h);
      var last := ts[|ts| - 1];
      var extra := if last.hash.Some? then Placeholder(last).content.size else 0;
      existing := [less[0].(content := Content(less[0].content.size + extra + 1, false, []))];
    }
  }

  /** Synchronizing twice is synchronizing once, whatever was stored, exactly if no two torrents
      share an info hash. */
  lemma SyncIdempotentExactly(ts: seq<Torrent>)
    ensures (forall existing :: Synced(Synced(existing, ts), ts) == Synced(existing, ts)) <==> DistinctHashes(ts)
  {
    if DistinctHashes(ts) {
      forall existing
        ensures Synced(Synced(existing, ts), ts) == Synced(existing, ts)
      {
        DistinctIsIdempotent(existing, ts);
      }
    } else {
      var existing := SharedHashesDiffer(ts);
    }
  }

  // Saving twice.

  lemma SettledSaveIsSilent(f: Files, s: Settings, mount: RawPath, stamp: nat)
    requires f.readable && FromSettings(s, mount, f.layers) == Some(f.layers)
    requires Synced(f.metadata, s.torrents) == f.metadata
    ensures Save(f, s, mount, stamp, None) == Saved(f, [], true)
  {
  }

  /** The second of two equal saves writes no file and leaves the revision alone. */
  lemma SecondSaveIsSilent(f: Files, s: Settings, mount: RawPath, stamp: nat, later: nat)
    requires DistinctHashes(s.torrents) && Save(f, s, mount, stamp, None).ok
    ensures
      var after := Save(f, s, mount, stamp, None).files;
      Save(after, s, mount, later, None) == Saved(after, [], true)
  {
    SaveStores(f, s, mount, stamp);
    LayersSettle(s, mount, f.layers);
    DistinctIsIdempotent(f.metadata, s.torrents);
    SettledSaveIsSilent(Save(f, s, mount, stamp, None).files, s, mount, later);
  }

  ghost predicate SecondSavesSilent(s: Settings, mount: RawPath) {
    forall f: Files, stamp: nat, later: nat ::
      Save(Save(f, s, mount, stamp, None).files, s, mount, later, None).written == []
  }

  /** Exactly so without shared hashes. */
  lemma SecondSavesSilentExactly(f: Files, s: Settings, mount: RawPath)
    requires FromSettings(s, mount, f.layers).Some?
    ensures SecondSavesSilent(s, mount) <==> DistinctHashes(s.torrents)
  {
    if DistinctHashes(s.torrents) {
      forall f: Files, stamp: nat, later: nat
        ensures Save(Save(f, s, mount, stamp, None).files, s, mount, later, None).written == []
      {
        if Save(f, s, mount, stamp, None).ok {
          SecondSaveIsSilent(f, s, mount, stamp, later);
        }
      }
    } else {
      var existing := SharedHashesDiffer(s.torrents);
      var g := f.(metadata := existing, readable := true);
      var after := Save(g, s, mount, 0, None);
      SaveStores(g, s, mount, 0);
      LayersSettle(s, mount, g.layers);
      SaveStores(after.files, s, mount, 0);
    }
  }

  // A save that fails, and the same save again.

  predicate IsShared(kind: FileKind) {
    kind == SettingsKind || kind == CatalogKind || kind == MetadataKind
  }

  /** Whether saving `s` has to write the file of `kind`. */
  predicate Changed(f: Files, s: Settings, mount: RawPath, kind: FileKind)
    requires FromSettings(s, mount, f.layers).Some?
  {
    var next := FromSettings(s, mount, f.layers).value;
    match kind
    case SettingsKind => next.settings != f.layers.settings
    case CatalogKind => next.catalog != f.layers.catalog
    case MetadataKind => Synced(f.metadata, s.torrents) != f.metadata
    case HostKind => next.host != f.layers.host
    case RevisionKind =>
      || next.settings != f.layers.settings
      || next.catalog != f.layers.catalog
      || Synced(f.metadata, s.torrents) != f.metadata
  }

  function IfSo(changed: bool, kind: FileKind): seq<FileKind> {
    if changed then [kind] else []
  }

  function InOrder(settings: bool, catalog: bool, metadata: bool, host: bool, revision: bool): seq<FileKind> {
    IfSo(settings, SettingsKind) + IfSo(catalog, CatalogKind) + IfSo(metadata, MetadataKind)
    + IfSo(host, HostKind) + IfSo(revision, RevisionKind)
  }

  lemma InOrderHas(
    settings: bool, catalog: bool, metadata: bool, host: bool, revision: bool, kind: FileKind)
    ensures kind in InOrder(settings, catalog, metadata, host, revision) <==>
              match kind
              case SettingsKind => settings
              case CatalogKind => catalog
              case MetadataKind => metadata
              case HostKind => host
              case RevisionKind => revision
  {
  }

  lemma WrittenInOrder(f: Files, s: Settings, mount: RawPath, stamp: nat)
    requires f.readable && FromSettings(s, mount, f.layers).Some?
    ensures Save(f, s, mount, stamp, None).ok
    ensures Save(f, s, mount, stamp, None).written ==
            InOrder(Changed(f, s, mount, SettingsKind), Changed(f, s, mount, CatalogKind),
                    Changed(f, s, mount, MetadataKind), Changed(f, s, mount, HostKind),
                    Changed(f, s, mount, RevisionKind))
  {
  }

  lemma WrittenExactly(f: Files, s: Settings, mount: RawPath, stamp: nat, kind: FileKind)
    requires f.readable && FromSettings(s, mount, f.layers).Some?
    ensures Save(f, s, mount, stamp, None).ok
    ensures kind in Save(f, s, mount, stamp, None).written <==> Changed(f, s, mount, kind)
  {
    WrittenInOrder(f, s, mount, stamp);
    InOrderHas(Changed(f, s, mount, SettingsKind), Changed(f, s, mount, CatalogKind),
               Changed(f, s, mount, MetadataKind), Changed(f, s, mount, HostKind),
               Changed(f, s, mount, RevisionKind), kind);
  }

  /** The files just before the write of `kind`: everything earlier in the order is replaced. */
  function FilesBefore(f: Files, s: Settings, mount: RawPath, kind: FileKind): Files
    requires FromSettings(s, mount, f.layers).Some?
  {
    var next := FromSettings(s, mount, f.layers).value;
    Files(
      Layers(if kind == SettingsKind then f.layers.settings else next.settings,
             if kind == SettingsKind || kind == CatalogKind then f.layers.catalog else next.catalog,
             if kind == RevisionKind then next.host else f.layers.host),
      if IsShared(kind) then f.metadata else Synced(f.metadata, s.torrents),
      f.revision, f.readable)
  }

  lemma FailedSaveStores(f: Files, s: Settings, mount: RawPath, stamp: nat, x: Failure)
    requires f.readable && FromSettings(s, mount, f.layers).Some? && Changed(f, s, mount, KindOf(x))
    ensures
      var failed := Save(f, s, mount, stamp, Some(x));
      !failed.ok && failed.files == LeftBehind(FilesBefore(f, s, mount, KindOf(x)), x)
  {
  }

  /** The cluster's id as a save of `s` would store it, given these settings and host file. */
  function IdToStore(settings: SettingsFile, host: HostFile, s: Settings): string {
    if host.clientId.Some? && s.clientId != settings.clientId then settings.clientId else s.clientId
  }

  /** After the failure something shared still reads differently from what `s` asks for. A host file
      that lost its id counts: the host then takes its own id for the cluster's. */
  predicate StillDiffers(f: Files, s: Settings, mount: RawPath, x: Failure)
    requires FromSettings(s, mount, f.layers).Some? && Parses(x)
  {
    var next := FromSettings(s, mount, f.layers).value;
    match x
    case SettingsFails(left) =>
      || left.value != next.settings.(clientId := IdToStore(left.value, f.layers.host, s))
      || Changed(f, s, mount, CatalogKind) || Changed(f, s, mount, MetadataKind)
    case CatalogFails(left) => left.value != next.catalog || Changed(f, s, mount, MetadataKind)
    case MetadataFails(left) => Synced(left, s.torrents) != left
    case HostFails(left) => next.host.clientId.Some? && left.value.clientId.None?
    case RevisionFails(_) => false
  }

  /** What `s` asks for, read against the files that the failure left. */
  lemma TargetAfterFailure(f: Files, s: Settings, mount: RawPath, x: Failure)
    requires FromSettings(s, mount, f.layers).Some? && Parses(x)
    ensures
      var next := FromSettings(s, mount, f.layers).value;
      var g := LeftBehind(FilesBefore(f, s, mount, KindOf(x)), x);
      && FromSettings(s, mount, g.layers).Some?
      && var again := FromSettings(s, mount, g.layers).value;
      && again.catalog == next.catalog
      && again.settings == next.settings.(clientId := IdToStore(g.layers.settings, g.layers.host, s))
  {
  }

  lemma DiffersAfterFailure(f: Files, s: Settings, mount: RawPath, x: Failure)
    requires FromSettings(s, mount, f.layers).Some? && Parses(x)
    ensures
      var g := LeftBehind(FilesBefore(f, s, mount, KindOf(x)), x);
      var synced := Synced(f.metadata, s.torrents);
      && FromSettings(s, mount, g.layers).Some?
      && (Changed(g, s, mount, RevisionKind) <==>
            || StillDiffers(f, s, mount, x)
            || ((x.HostFails? || x.RevisionFails?) && Synced(synced, s.torrents) != synced))
  {
    TargetAfterFailure(f, s, mount, x);
  }

  /** A save that changes something shared fails on one of its writes, whatever that leaves behind,
      and is repeated. The repetition writes the revision marker exactly if the file left parses and
      something shared still reads differently - for torrents that share an info hash also if their
      metadata do not settle. Otherwise the marker stays as the failed save left it. */
  lemma RetryAnnouncesExactly(f: Files, s: Settings, mount: RawPath, stamp: nat, later: nat, x: Failure)
    requires Save(f, s, mount, stamp, None).ok
    requires RevisionKind in Save(f, s, mount, stamp, None).written
    requires KindOf(x) in Save(f, s, mount, stamp, None).written
    ensures
      var failed := Save(f, s, mount, stamp, Some(x));
      var retry := Save(failed.files, s, mount, later, None);
      var synced := Synced(f.metadata, s.torrents);
      && !failed.ok && (retry.ok <==> Parses(x))
      && (RevisionKind in retry.written <==>
            Parses(x) && (|| StillDiffers(f, s, mount, x)
                          || ((x.HostFails? || x.RevisionFails?) && Synced(synced, s.torrents) != synced)))
      && (DistinctHashes(s.torrents) ==>
            (RevisionKind in retry.written <==> Parses(x) && StillDiffers(f, s, mount, x)))
      && (RevisionKind !in retry.written ==>
            retry.files.revision == if x.RevisionFails? then x.revision else f.revision)
  {
    var failed := Save(f, s, mount, stamp, Some(x));
    WrittenExactly(f, s, mount, stamp, KindOf(x));
    FailedSaveStores(f, s, mount, stamp, x);
    if DistinctHashes(s.torrents) {
      DistinctIsIdempotent(f.metadata, s.torrents);
    }
    if Parses(x) {
      DiffersAfterFailure(f, s, mount, x);
      WrittenExactly(failed.files, s, mount, later, RevisionKind);
      MarkerOnlyIfWritten(failed.files, s, mount, later);
    }
  }

  lemma MarkerOnlyIfWritten(f: Files, s: Settings, mount: RawPath, stamp: nat)
    ensures
      var after := Save(f, s, mount, stamp, None);
      RevisionKind !in after.written ==> after.files.revision == f.revision
  {
  }

  /** The two ways a write fails without tearing its file: before the rename, or behind it. */
  function Intact(f: Files, s: Settings, mount: RawPath, stamp: nat, kind: FileKind, landed: bool): Failure
    requires FromSettings(s, mount, f.layers).Some?
  {
    var next := FromSettings(s, mount, f.layers).value;
    match kind
    case SettingsKind => SettingsFails(Some(if landed then next.settings else f.layers.settings))
    case CatalogKind => CatalogFails(Some(if landed then next.catalog else f.layers.catalog))
    case MetadataKind => MetadataFails(if landed then Synced(f.metadata, s.torrents) else f.metadata)
    case HostKind => HostFails(Some(if landed then next.host else f.layers.host))
    case RevisionKind => RevisionFails(if landed then stamp else f.revision)
  }

  /** A shared file that is written after that of `kind` has to change. */
  predicate MoreToShare(f: Files, s: Settings, mount: RawPath, kind: FileKind)
    requires FromSettings(s, mount, f.layers).Some?
  {
    match kind
    case SettingsKind => Changed(f, s, mount, CatalogKind) || Changed(f, s, mount, MetadataKind)
    case CatalogKind => Changed(f, s, mount, MetadataKind)
    case _ => false
  }

  lemma IntactDiffers(f: Files, s: Settings, mount: RawPath, stamp: nat, kind: FileKind, landed: bool)
    requires DistinctHashes(s.torrents)
    requires FromSettings(s, mount, f.layers).Some? && Changed(f, s, mount, kind)
    ensures KindOf(Intact(f, s, mount, stamp, kind, landed)) == kind && Parses(Intact(f, s, mount, stamp, kind, landed))
    ensures StillDiffers(f, s, mount, Intact(f, s, mount, stamp, kind, landed)) <==>
              IsShared(kind) && (!landed || MoreToShare(f, s, mount, kind))
  {
    DistinctIsIdempotent(f.metadata, s.torrents);
  }

  /** Without torn files: the other hosts are told by the repetition exactly if the failed write was
      that of the settings, the catalog or the metadata, and it did not land or a shared file behind
      it still has to change. Otherwise they are told exactly if the marker itself had landed. */
  lemma IntactRetryAnnouncesExactly(
    f: Files, s: Settings, mount: RawPath, stamp: nat, later: nat, kind: FileKind, landed: bool)
    requires DistinctHashes(s.torrents) && Save(f, s, mount, stamp, None).ok
    requires RevisionKind in Save(f, s, mount, stamp, None).written && kind in Save(f, s, mount, stamp, None).written
    ensures
      var failed := Save(f, s, mount, stamp, Some(Intact(f, s, mount, stamp, kind, landed)));
      var retry := Save(failed.files, s, mount, later, None);
      var told := IsShared(kind) && (!landed || MoreToShare(f, s, mount, kind));
      && !failed.ok && retry.ok
      && (RevisionKind in retry.written <==> told)
      && (!told ==> retry.files.revision == if kind == RevisionKind && landed then stamp else f.revision)
      && Save(retry.files, s, mount, later, None) == Saved(retry.files, [], true)
  {
    var x := Intact(f, s, mount, stamp, kind, landed);
    WrittenExactly(f, s, mount, stamp, kind);
    IntactDiffers(f, s, mount, stamp, kind, landed);
    RetryAnnouncesExactly(f, s, mount, stamp, later, x);
    SecondSaveIsSilent(Save(f, s, mount, stamp, Some(x)).files, s, mount, later, later);
  }

  /** After a failed revision marker everything else is stored, so repeating the save writes
      nothing: the marker stays what the failed write left. */
  lemma RevisionIsLost(f: Files, s: Settings, mount: RawPath, stamp: nat, later: nat, left: nat)
    requires DistinctHashes(s.torrents)
    requires Save(f, s, mount, stamp, None).ok && RevisionKind in Save(f, s, mount, stamp, None).written
    ensures
      var failed := Save(f, s, mount, stamp, Some(RevisionFails(left)));
      && !failed.ok
      && failed.files == Save(f, s, mount, stamp, None).files.(revision := left)
      && Save(failed.files, s, mount, later, None) == Saved(failed.files, [], true)
  {
    SaveStores(f, s, mount, stamp);
    WrittenExactly(f, s, mount, stamp, RevisionKind);
    FailedSaveStores(f, s, mount, stamp, RevisionFails(left));
    LayersSettle(s, mount, f.layers);
    DistinctIsIdempotent(f.metadata, s.torrents);
    SettledSaveIsSilent(Save(f, s, mount, stamp, Some(RevisionFails(left))).files, s, mount, later);
  }

  /** After a failed write of the host's own file the repetition writes that file alone, if at all,
      unless the file lost an id of the host's own: then the host's id becomes the cluster's. */
  lemma HostFailureLosesRevision(f: Files, s: Settings, mount: RawPath, stamp: nat, later: nat, left: HostFile)
    requires DistinctHashes(s.torrents) && Save(f, s, mount, stamp, None).ok
    requires RevisionKind in Save(f, s, mount, stamp, None).written
    requires HostKind in Save(f, s, mount, stamp, None).written
    ensures
      var failed := Save(f, s, mount, stamp, Some(HostFails(Some(left))));
      var retry := Save(failed.files, s, mount, later, None);
      var stored := Save(f, s, mount, stamp, None).files.layers;
      && !failed.ok && retry.ok
      && if stored.host.clientId.Some? && left.clientId.None? then
           && stored.settings.clientId != s.clientId == retry.files.layers.settings.clientId
           && RevisionKind in retry.written
         else
           && retry.written == (if left == stored.host then [] else [HostKind])
           && retry.files.revision == f.revision && retry.files.layers == stored
  {
    SaveStores(f, s, mount, stamp);
    WrittenExactly(f, s, mount, stamp, HostKind);
    FailedSaveStores(f, s, mount, stamp, HostFails(Some(left)));
    HostRetry(f, s, mount, stamp, later, left);
  }

  lemma HostRetry(f: Files, s: Settings, mount: RawPath, stamp: nat, later: nat, left: HostFile)
    requires DistinctHashes(s.torrents) && f.readable && FromSettings(s, mount, f.layers).Some?
    ensures
      var next := FromSettings(s, mount, f.layers).value;
      var g := LeftBehind(FilesBefore(f, s, mount, HostKind), HostFails(Some(left)));
      var retry := Save(g, s, mount, later, None);
      && retry.ok
      && if next.host.clientId.Some? && left.clientId.None? then
           && next.settings.clientId != s.clientId == retry.files.layers.settings.clientId
           && RevisionKind in retry.written
         else
           && retry.written == (if left == next.host then [] else [HostKind])
           && retry.files.revision == f.revision && retry.files.layers == next
  {
    DistinctIsIdempotent(f.metadata, s.torrents);
  }

  // Instances: a cluster with the id "id" and no torrents, whose settings change.

  const CLUSTER := Files(Layers(SettingsFile("id", None, map[]), [], HostFile(None, 0, map[])), [], 7, true)
  const CHANGED_FIELDS: Fields := map["private_client" := "true"]

  /** The settings land, the write reports an error, and nobody is ever told. */
  lemma LandedInstance(mount: RawPath, stamp: nat, later: nat)
    ensures
      var s := Settings("id", None, [], 0, true, CHANGED_FIELDS, map[]);
      var failed := Save(CLUSTER, s, mount, stamp, Some(SettingsFails(Some(SettingsFile("id", None, CHANGED_FIELDS)))));
      && Save(CLUSTER, s, mount, stamp, None).written == [SettingsKind, RevisionKind]
      && !failed.ok && failed.files.revision == 7
      && Save(failed.files, s, mount, later, None) == Saved(failed.files, [], true)
  {
    assert "private_client" in CHANGED_FIELDS && CHANGED_FIELDS != map[];
  }

  /** A host changes its port and the cluster's settings together, and the host file cannot be
      written. */
  lemma HostFailureInstance(mount: RawPath, stamp: nat, later: nat)
    ensures
      var s := Settings("id", None, [], 6881, false, CHANGED_FIELDS, map[]);
      var failed := Save(CLUSTER, s, mount, stamp, Some(HostFails(Some(CLUSTER.layers.host))));
      && Save(CLUSTER, s, mount, stamp, None).written == [SettingsKind, HostKind, RevisionKind]
      && Save(failed.files, s, mount, later, None).written == [HostKind]
      && Save(failed.files, s, mount, later, None).files.revision == 7
  {
    var s := Settings("id", None, [], 6881, false, CHANGED_FIELDS, map[]);
    assert "private_client" in CHANGED_FIELDS && CHANGED_FIELDS != map[];
    assert Save(CLUSTER, s, mount, stamp, None).written == [SettingsKind, HostKind, RevisionKind];
    HostFailureLosesRevision(CLUSTER, s, mount, stamp, later, CLUSTER.layers.host);
  }

  /** A host with the id "own" changes its port, the write leaves its file empty, and the repetition
      makes "own" the id of the cluster. */
  lemma TornHostInstance(mount: RawPath, stamp: nat, later: nat)
    ensures
      var f := CLUSTER.(layers := CLUSTER.layers.(host := HostFile(Some("own"), 0, map[])));
      var s := Settings("own", None, [], 6881, false, map[], map[]);
      var failed := Save(f, s, mount, stamp, Some(HostFails(Some(HostFile(None, 0, map[])))));
      var retry := Save(failed.files, s, mount, later, None);
      && Save(f, s, mount, stamp, None).files.layers.settings.clientId == "id"
      && !failed.ok && retry.ok && retry.files.layers.settings.clientId == "own"
  {
    assert "own"[0] != "id"[0];
  }
}
