/** The update manager: one request in flight at a time, remembered in a
    single operation slot, and one handler that routes each network
    completion by the slot's previous value. Every entry point is a pure
    function from the manager (and the local store) to the manager
    afterwards plus the effects it produced, in the order the code produces
    them: signals emitted, GET requests issued, and the database connection
    closed and reopened. */
module UpdateManager {
  import opened Common
  import opened QtString
  import opened LocalStore
  import Definitions

  // ---------------------------------------------------------------------------
  // Data model
  // ---------------------------------------------------------------------------

  /** The update check response: the newest build, the newest plant
      database revision, and the minimum build able to open that database. */
  datatype UpdateCheckMetadata = UpdateCheckMetadata(
    softwareBuild: u64,
    plantDbRevision: u64,
    plantDbMinBuild: u64)

  /** One entry of the image metadata manifest. */
  datatype PlantImageMetadata = PlantImageMetadata(
    plantName: string,
    licenseString: string,
    filename: string)

  /** Which request the next completion belongs to; `NoOp` means none. */
  datatype UpdateRequestOperation =
    | NoOp
    | CheckUpdatesOp
    | UpdatesMetadataDownloadOp
    | PlantDbFileDownloadOp
    | PlantImageFileDownloadOp
    | PlantDbChangelogFileDownloadOp
    | PlantImageLicenseMeta
    | PlantDbEventsFileDownloadOp

  /** The numeric value of each operation in declaration order. */
  function OpOrdinal(op: UpdateRequestOperation): (n: nat)
    ensures n < 8
    ensures n == 0 <==> op == NoOp
  {
    match op
    case NoOp => 0
    case CheckUpdatesOp => 1
    case UpdatesMetadataDownloadOp => 2
    case PlantDbFileDownloadOp => 3
    case PlantImageFileDownloadOp => 4
    case PlantDbChangelogFileDownloadOp => 5
    case PlantImageLicenseMeta => 6
    case PlantDbEventsFileDownloadOp => 7
  }

  /** The eight operations are pairwise distinct: the ordinal identifies the
      operation. */
  lemma OpOrdinalInjective(a: UpdateRequestOperation, b: UpdateRequestOperation)
    ensures OpOrdinal(a) == OpOrdinal(b) <==> a == b
  {
  }

  /** The signals the manager emits. */
  datatype Signal =
    | NoUpdateSignal
    | PlantDatabaseUpdateSignal
    | UpdateErrorSignal
    | NetworkRequestError
    | PlantDatabaseUpdateError
    | PlantDatabaseUpdateSuccess
    | PlantImgMetadataFileError
    | PlantImgMetadataFileReady
    | UpdatesAccepted
    | LatestUpdateMetadataReady(metadata: UpdateCheckMetadata)
    | TotalSyncProgressMaxSteps(steps: int)
    | IncrementTotalProgressStep
    | AllImageFilesDownloaded
    | PlantImgWriteFileError
    | PlantImgFileDownloadStarted(fileName: string)
    | PlantDbChangelogRequestCompleted(html: string)
    | PlantDbEventsRequestCompleted(html: string)

  /** What the manager does to the world, in order. */
  datatype Effect =
    | Emit(signal: Signal)
    | Get(url: string, op: UpdateRequestOperation)
    | CloseDatabase
    | OpenDatabase
    | OpenDownloadPage

  /** The manager's own state: the operation slot, the metadata slot and the
      list of image files still to download. */
  datatype Manager = Manager(
    currentOp: UpdateRequestOperation,
    metadata: UpdateCheckMetadata,
    toDownload: seq<string>)

  /** A network completion: the URL requested, whether the transport
      succeeded, and the raw body. */
  datatype Reply = Reply(url: string, ok: bool, body: seq<byte>)

  /** The manager and the local store after a call, and its effects. */
  datatype Outcome = Outcome(manager: Manager, env: Env, effects: seq<Effect>)

  /** The manager as constructed: no operation, all-zero metadata, nothing
      queued. */
  function NewManager(): (m: Manager)
    ensures m.currentOp == NoOp && m.toDownload == []
    ensures m.metadata.softwareBuild == 0 && m.metadata.plantDbRevision == 0 && m.metadata.plantDbMinBuild == 0
  {
    Manager(NoOp, UpdateCheckMetadata(0, 0, 0), [])
  }

  // ---------------------------------------------------------------------------
  // Text helpers
  // ---------------------------------------------------------------------------

  /** The path of a URL as `QUrl` splits it: everything before the query
      ('?') or the fragment ('#'), whichever comes first. */
  function UrlPath(url: string): (p: string)
    ensures |p| <= |url| && p == url[..|p|]
    ensures '?' !in p && '#' !in p
    ensures |p| < |url| ==> url[|p|] == '?' || url[|p|] == '#'
    decreases |url|
  {
    if url == [] || url[0] == '?' || url[0] == '#' then [] else [url[0]] + UrlPath(url[1..])
  }

  /** The last '/'-separated segment of a path. */
  function LastSegment(path: string): (name: string)
    ensures '/' !in name
    ensures |name| <= |path| && name == path[|path| - |name|..]
    ensures '/' !in path ==> name == path
    decreases |path|
  {
    if '/' !in path then path
    else
      var n := PieceLength(path, '/');
      LastSegment(path[n + 1..])
  }

  /** `QUrl::fileName()`: the last segment of the URL's path, so neither a
      query nor a fragment is part of it. */
  function UrlFileName(url: string): (name: string)
    ensures '/' !in name && '?' !in name && '#' !in name
    ensures |name| <= |url|
  {
    LastSegment(UrlPath(url))
  }

  /** A name that comes back unchanged from the round trip through a URL:
      no path separator, no query or fragment start, and no
      percent-escape. */
  predicate UrlSafe(name: string) {
    '/' !in name && '?' !in name && '#' !in name && '%' !in name
  }

  /** Text without '?' and '#' is all path. */
  lemma UrlPathOfPlain(url: string)
    requires '?' !in url && '#' !in url
    ensures UrlPath(url) == url
  {
  }

  /** A name free of '/' appended to a path ending in '/' is the path's
      last segment. */
  lemma {:induction false} LastSegmentOfAppended(base: string, name: string)
    requires base != [] && base[|base| - 1] == '/'
    requires '/' !in name
    ensures LastSegment(base + name) == name
    decreases |base|
  {
    var path := base + name;
    assert path[|base| - 1] == '/';
    assert '/' in path;
    var n := PieceLength(path, '/');
    assert n <= |base| - 1;
    if n == |base| - 1 {
      assert path[n + 1..] == name;
    } else {
      assert base[n] == '/';
      assert path[n + 1..] == base[n + 1..] + name;
      LastSegmentOfAppended(base[n + 1..], name);
    }
  }

  /** A URL-safe name appended to a base URL that ends in '/' and has no
      query or fragment is what `QUrl::fileName()` gives back. */
  lemma UrlFileNameOfAppended(base: string, name: string)
    requires base != [] && base[|base| - 1] == '/'
    requires '?' !in base && '#' !in base
    requires UrlSafe(name)
    ensures UrlFileName(base + name) == name
  {
    assert forall c :: c in base + name ==> c in base || c in name;
    UrlPathOfPlain(base + name);
    LastSegmentOfAppended(base, name);
  }

  /** A name holding '?' or '#' does not come back: the file name taken
      from its URL is a different string. */
  lemma UrlFileNameLosesQuery(base: string, name: string)
    requires '?' in name || '#' in name
    ensures UrlFileName(base + name) != name
  {
  }

  /** `QList::removeOne(x)`: drop the first occurrence of `x`, if any. */
  function RemoveOne(list: seq<string>, x: string): (r: seq<string>)
    ensures x !in list ==> r == list
    ensures x in list ==> |r| == |list| - 1
    ensures list != [] && list[0] == x ==> r == list[1..]
  {
    if list == [] then []
    else if list[0] == x then list[1..]
    else [list[0]] + RemoveOne(list[1..], x)
  }

  /** `removeOne` takes away exactly one copy of `x`, when there is one,
      and keeps every other element. */
  lemma {:induction false} RemoveOneMultiset(list: seq<string>, x: string)
    ensures multiset(RemoveOne(list, x)) == multiset(list) - multiset{x}
    decreases |list|
  {
    if list != [] && list[0] != x {
      assert list == [list[0]] + list[1..];
      RemoveOneMultiset(list[1..], x);
    } else if list != [] {
      assert list == [list[0]] + list[1..];
    }
  }

  // ---------------------------------------------------------------------------
  // Parsing the update response
  // ---------------------------------------------------------------------------

  /** What `parseUpdateMetadata` returns and leaves in the metadata slot. */
  datatype ParseResult = ParseResult(ok: bool, metadata: UpdateCheckMetadata)

  /** `parseUpdateMetadata(s)`: split on ';' dropping empty pieces; fewer
      than three pieces is a failure that leaves the slot alone; otherwise
      the first three pieces are converted, each failed conversion storing
      0, and the parse fails only when all three conversions fail. Pieces
      after the third are ignored. */
  function ParseUpdateMetadata(s: string, stored: UpdateCheckMetadata): (r: ParseResult)
    ensures var l := SplitSkipEmpty(s, ';');
      && (|l| < 3 ==> !r.ok && r.metadata == stored)
      && (|l| >= 3 ==>
            && (r.ok <==> ToULongLong(l[0]).Some? || ToULongLong(l[1]).Some? || ToULongLong(l[2]).Some?)
            && r.metadata.softwareBuild == ToULongLong(l[0]).GetOr(0)
            && r.metadata.plantDbRevision == ToULongLong(l[1]).GetOr(0)
            && r.metadata.plantDbMinBuild == ToULongLong(l[2]).GetOr(0))
  {
    var l := SplitSkipEmpty(s, ';');
    if |l| < 3 then ParseResult(false, stored)
    else
      var a := ToULongLong(l[0]);
      var b := ToULongLong(l[1]);
      var c := ToULongLong(l[2]);
      ParseResult(a.Some? || b.Some? || c.Some?, UpdateCheckMetadata(a.GetOr(0), b.GetOr(0), c.GetOr(0)))
  }

  /** The server's response format: the three numbers in decimal, separated
      by ';'. */
  function FormatUpdateMetadata(m: UpdateCheckMetadata): string {
    Join([Decimal(m.softwareBuild), Decimal(m.plantDbRevision), Decimal(m.plantDbMinBuild)], ';')
  }

  /** Parsing a well-formed response yields exactly the metadata it was
      written from, whatever the slot held before. */
  lemma ParseFormatRoundTrip(m: UpdateCheckMetadata, stored: UpdateCheckMetadata)
    ensures ParseUpdateMetadata(FormatUpdateMetadata(m), stored) == ParseResult(true, m)
  {
    var pieces := [Decimal(m.softwareBuild), Decimal(m.plantDbRevision), Decimal(m.plantDbMinBuild)];
    assert forall i :: 0 <= i < |pieces| ==> pieces[i] != [] && ';' !in pieces[i];
    SplitJoin(pieces, ';');
    ToULongLongOfDecimal(m.softwareBuild);
    ToULongLongOfDecimal(m.plantDbRevision);
    ToULongLongOfDecimal(m.plantDbMinBuild);
  }

  /** Pieces beyond the third do not matter: a well-formed response followed
      by further ';'-separated text parses to the same metadata. */
  lemma ParseIgnoresExtraFields(m: UpdateCheckMetadata, extra: string, stored: UpdateCheckMetadata)
    requires extra != [] && ';' !in extra
    ensures ParseUpdateMetadata(FormatUpdateMetadata(m) + ";" + extra, stored) == ParseResult(true, m)
  {
    var pieces := [Decimal(m.softwareBuild), Decimal(m.plantDbRevision), Decimal(m.plantDbMinBuild)];
    var pieces4 := pieces + [extra];
    assert forall i :: 0 <= i < |pieces4| ==> pieces4[i] != [] && ';' !in pieces4[i];
    JoinSnoc(pieces, extra, ';');
    SplitJoin(pieces4, ';');
    ToULongLongOfDecimal(m.softwareBuild);
    ToULongLongOfDecimal(m.plantDbRevision);
    ToULongLongOfDecimal(m.plantDbMinBuild);
  }

  /** A response without a ';' has fewer than three pieces: the parse
      fails and the slot keeps what it held. */
  lemma ParseWithoutSeparator(s: string, stored: UpdateCheckMetadata)
    requires ';' !in s
    ensures ParseUpdateMetadata(s, stored) == ParseResult(false, stored)
  {
    SplitWithoutSeparator(s, ';');
  }

  /** Three pieces of which only the first converts still parse: the
      build number is kept and the two unreadable numbers are stored as 0. */
  lemma ParseFirstFieldOnly(a: u64, x: string, y: string, stored: UpdateCheckMetadata)
    requires x != [] && ';' !in x && ToULongLong(x) == None
    requires y != [] && ';' !in y && ToULongLong(y) == None
    ensures ParseUpdateMetadata(Decimal(a) + ";" + x + ";" + y, stored) == ParseResult(true, UpdateCheckMetadata(a, 0, 0))
  {
    var pieces := [Decimal(a), x, y];
    assert forall i :: 0 <= i < |pieces| ==> pieces[i] != [] && ';' !in pieces[i];
    JoinThree(Decimal(a), x, y, ';');
    SplitJoin(pieces, ';');
    ToULongLongOfDecimal(a);
  }

  /** Three pieces none of which converts make the parse fail, but unlike a
      short response they overwrite the slot with zeros. */
  lemma ParseNothingConverts(x: string, y: string, z: string, stored: UpdateCheckMetadata)
    requires x != [] && ';' !in x && ToULongLong(x) == None
    requires y != [] && ';' !in y && ToULongLong(y) == None
    requires z != [] && ';' !in z && ToULongLong(z) == None
    ensures ParseUpdateMetadata(x + ";" + y + ";" + z, stored) == ParseResult(false, UpdateCheckMetadata(0, 0, 0))
  {
    var pieces := [x, y, z];
    assert forall i :: 0 <= i < |pieces| ==> pieces[i] != [] && ';' !in pieces[i];
    JoinThree(x, y, z, ';');
    SplitJoin(pieces, ';');
  }

  // ---------------------------------------------------------------------------
  // The update decision
  // ---------------------------------------------------------------------------

  /** The four outcomes of an update check. */
  datatype CheckDecision =
    | SoftwareUpdate
    | PlantDbUpdate
    | PlantDbUpdateWithheld
    | UpToDate

  /** The update check's decision from the parsed metadata, the stored
      database revision and the "last sync aborted" flag. */
  function Decide(meta: UpdateCheckMetadata, storedRevision: u64, syncAborted: bool): CheckDecision {
    var softwareUpdate := meta.softwareBuild > Definitions.SOFTWARE_BUILD;
    var plantDbUpdate := meta.plantDbRevision > storedRevision || syncAborted;
    if softwareUpdate then SoftwareUpdate
    else if plantDbUpdate then
      (if meta.plantDbMinBuild <= Definitions.SOFTWARE_BUILD then PlantDbUpdate else PlantDbUpdateWithheld)
    else UpToDate
  }

  // ---------------------------------------------------------------------------
  // Starting requests
  // ---------------------------------------------------------------------------

  /** `startNetworkRequest(url, op)`: issue the GET and record `op` in the
      slot. */
  function StartNetworkRequest(m: Manager, env: Env, url: string, op: UpdateRequestOperation): (r: Outcome)
    ensures r.manager == m.(currentOp := op) && r.env == env
    ensures r.effects == [Get(url, op)]
  {
    Outcome(m.(currentOp := op), env, [Get(url, op)])
  }

  function CheckForUpdates(m: Manager, env: Env): Outcome {
    StartNetworkRequest(m, env, Definitions.UPDATE_URL, CheckUpdatesOp)
  }

  function RequestLatestUpdateMetadata(m: Manager, env: Env): Outcome {
    StartNetworkRequest(m, env, Definitions.UPDATE_URL, UpdatesMetadataDownloadOp)
  }

  function RequestPlantDatabaseFile(m: Manager, env: Env): Outcome {
    StartNetworkRequest(m, env, Definitions.PLANT_DB_URL, PlantDbFileDownloadOp)
  }

  function RequestPlantImgMetaFile(m: Manager, env: Env): Outcome {
    StartNetworkRequest(m, env, Definitions.PLANT_DB_IMG_META_URL, PlantImageLicenseMeta)
  }

  function RequestPlantDbChangelogFile(m: Manager, env: Env): Outcome {
    StartNetworkRequest(m, env, Definitions.PLANT_DB_CHANGELOG, PlantDbChangelogFileDownloadOp)
  }

  function RequestPlantDbEventsFile(m: Manager, env: Env): Outcome {
    StartNetworkRequest(m, env, Definitions.PLANT_DB_NOTICE, PlantDbEventsFileDownloadOp)
  }

  /** `downloadImageFile(name)`: announce the file, then request it from
      the image directory on the server. */
  function DownloadImageFile(m: Manager, env: Env, name: string): (r: Outcome)
    ensures r.manager == m.(currentOp := PlantImageFileDownloadOp) && r.env == env
    ensures r.effects == [Emit(PlantImgFileDownloadStarted(name)),
                          Get(Definitions.PLANT_DB_IMG_URL + name, PlantImageFileDownloadOp)]
  {
    var s := StartNetworkRequest(m, env, Definitions.PLANT_DB_IMG_URL + name, PlantImageFileDownloadOp);
    s.(effects := [Emit(PlantImgFileDownloadStarted(name))] + s.effects)
  }

  /** `requestPlantImageFiles(list)`: the list replaces the queue; an empty
      list reports completion at once without any request, otherwise the
      number of files is announced as the step total and the first file is
      requested. */
  function RequestPlantImageFiles(m: Manager, env: Env, list: seq<string>): (r: Outcome)
    ensures r.manager.toDownload == list && r.manager.metadata == m.metadata && r.env == env
    ensures list == [] ==> r.manager.currentOp == m.currentOp && r.effects == [Emit(AllImageFilesDownloaded)]
    ensures list != [] ==>
              && r.manager.currentOp == PlantImageFileDownloadOp
              && r.effects == [Emit(TotalSyncProgressMaxSteps(|list|)),
                               Emit(PlantImgFileDownloadStarted(list[0])),
                               Get(Definitions.PLANT_DB_IMG_URL + list[0], PlantImageFileDownloadOp)]
  {
    var m1 := m.(toDownload := list);
    if list == [] then Outcome(m1, env, [Emit(AllImageFilesDownloaded)])
    else
      var d := DownloadImageFile(m1, env, list[0]);
      d.(effects := [Emit(TotalSyncProgressMaxSteps(|list|))] + d.effects)
  }

  // ---------------------------------------------------------------------------
  // Handling a completion
  // ---------------------------------------------------------------------------

  /** The update check branch. `acceptDownload` is the user's answer to the
      "new software version" question. */
  function HandleCheck(m: Manager, env: Env, text: string, acceptDownload: bool): Outcome {
    if text == [] then Outcome(m, env, [Emit(UpdateErrorSignal)])
    else
      var p := ParseUpdateMetadata(text, m.metadata);
      var m1 := m.(metadata := p.metadata);
      if !p.ok then Outcome(m1, env, [Emit(UpdateErrorSignal)])
      else
        Outcome(m1, env, DecisionEffects(Decide(p.metadata, env.plantDbRevision, env.syncAborted), acceptDownload))
  }

  /** What each decision does: a software update opens the download page and
      reports acceptance only if the user agrees; a withheld database
      update does nothing at all. No decision issues a request. */
  function DecisionEffects(d: CheckDecision, acceptDownload: bool): (e: seq<Effect>)
    ensures |e| <= 2
    ensures forall i :: 0 <= i < |e| ==> !e[i].Get?
    ensures (e == [] <==> d == PlantDbUpdateWithheld || (d == SoftwareUpdate && !acceptDownload))
  {
    match d
    case SoftwareUpdate => if acceptDownload then [OpenDownloadPage, Emit(UpdatesAccepted)] else []
    case PlantDbUpdate => [Emit(PlantDatabaseUpdateSignal)]
    case PlantDbUpdateWithheld => []
    case UpToDate => [Emit(NoUpdateSignal)]
  }

  /** One downloaded image: write it under the image directory; on success
      drop it from the queue, count one step and go on with the new head of
      the queue or report that all images are in. */
  function HandleImageFile(m: Manager, env: Env, fileName: string, body: seq<byte>): Outcome {
    var w := WriteFile(env.disk, env.filesDir + fileName, body);
    if !w.ok then Outcome(m, env, [Emit(PlantImgWriteFileError)])
    else
      var env1 := env.(disk := w.disk);
      var m1 := m.(toDownload := RemoveOne(m.toDownload, fileName));
      if m1.toDownload != [] then
        var d := DownloadImageFile(m1, env1, m1.toDownload[0]);
        d.(effects := [Emit(IncrementTotalProgressStep)] + d.effects)
      else Outcome(m1, env1, [Emit(IncrementTotalProgressStep), Emit(AllImageFilesDownloaded)])
  }

  /** The image metadata manifest: stored verbatim at its fixed path. */
  function HandleImageMeta(m: Manager, env: Env, body: seq<byte>): Outcome {
    var w := WriteFile(env.disk, env.imageMetaJsonPath, body);
    if !w.ok then Outcome(m, env, [Emit(PlantImgMetadataFileError)])
    else Outcome(m, env.(disk := w.disk), [Emit(PlantImgMetadataFileReady)])
  }

  /** The state of the database replacement after the backup and the
      overwrite, before any restore. */
  datatype Replacement = Replacement(disk: Disk, error: bool, backupDone: bool)

  /** Drop a stale backup, copy the database to the backup path, overwrite
      the database with the downloaded bytes. A refused removal of the old
      backup, a failed copy or a refused open all set the error flag, which
      starts out false. */
  function ReplaceDatabase(d: Disk, dbPath: string, body: seq<byte>): Replacement {
    var backup := BackupPath(dbPath);
    var rm := if backup in d.files then Remove(d, backup) else FileOp(d, true);
    var cp := Copy(rm.disk, dbPath, backup);
    var w := WriteFile(cp.disk, dbPath, body);
    Replacement(w.disk, !rm.ok || !cp.ok || !w.ok, cp.ok)
  }

  /** The database file: close the connection, replace the file keeping a
      backup; on error put the backup back (if one was made) and report the
      error, otherwise store the new revision and report success; reopen the
      connection in every case. */
  function HandleDbFile(m: Manager, env: Env, body: seq<byte>): Outcome {
    var rep := ReplaceDatabase(env.disk, env.dbPath, body);
    if rep.error then
      var disk :=
        if rep.backupDone then
          var rm := Remove(rep.disk, env.dbPath);
          Copy(rm.disk, BackupPath(env.dbPath), env.dbPath).disk
        else rep.disk;
      Outcome(m, env.(disk := disk), [CloseDatabase, Emit(PlantDatabaseUpdateError), OpenDatabase])
    else
      Outcome(m, env.(disk := rep.disk, plantDbRevision := m.metadata.plantDbRevision),
              [CloseDatabase, Emit(PlantDatabaseUpdateSuccess), OpenDatabase])
  }

  /** `updateResponseSlot(reply)`: take the operation out of the slot
      (leaving `NoOp`) before anything else; a transport error on any
      operation but the update check only reports a network error; otherwise
      dispatch on the operation taken. */
  function OnReply(m: Manager, env: Env, reply: Reply, acceptDownload: bool): (r: Outcome) {
    var op := m.currentOp;
    var m0 := m.(currentOp := NoOp);
    if !reply.ok && op != CheckUpdatesOp then Outcome(m0, env, [Emit(NetworkRequestError)])
    else
      match op
      case CheckUpdatesOp => HandleCheck(m0, env, FromByteArray(reply.body), acceptDownload)
      case UpdatesMetadataDownloadOp => Outcome(m0, env, [Emit(LatestUpdateMetadataReady(m0.metadata))])
      case PlantImageFileDownloadOp => HandleImageFile(m0, env, UrlFileName(reply.url), reply.body)
      case PlantImageLicenseMeta => HandleImageMeta(m0, env, reply.body)
      case PlantDbFileDownloadOp => HandleDbFile(m0, env, reply.body)
      case PlantDbChangelogFileDownloadOp =>
        Outcome(m0, env, [Emit(PlantDbChangelogRequestCompleted(FromByteArray(reply.body)))])
      case PlantDbEventsFileDownloadOp =>
        Outcome(m0, env, [Emit(PlantDbEventsRequestCompleted(FromByteArray(reply.body)))])
      case NoOp => Outcome(m0, env, [])
  }
}
