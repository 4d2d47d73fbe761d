/** What the update manager's completion handler promises, branch by branch:
    the slot discipline, the error routing, the update decision, the image
    queue, and the backup/restore around the database replacement. */
module UpdateProperties {
  import opened Common
  import opened QtString
  import opened LocalStore
  import opened UpdateManager
  import Definitions

  /** The operation of the last request among `effects`, or `NoOp` if none
      was issued. */
  function LastRequestOp(effects: seq<Effect>): UpdateRequestOperation {
    if effects == [] then NoOp
    else if effects[|effects| - 1].Get? then effects[|effects| - 1].op
    else LastRequestOp(effects[..|effects| - 1])
  }

  /** The number of progress-step increments among `effects`. */
  function Increments(effects: seq<Effect>): nat {
    if effects == [] then 0
    else (if effects[0] == Emit(IncrementTotalProgressStep) then 1 else 0) + Increments(effects[1..])
  }

  /** No request is issued among `effects`. */
  predicate NoRequest(effects: seq<Effect>) {
    forall i :: 0 <= i < |effects| ==> !effects[i].Get?
  }

  lemma IncrementsAppend(a: seq<Effect>, b: seq<Effect>)
    ensures Increments(a + b) == Increments(a) + Increments(b)
  {
    if a != [] {
      assert (a + b)[1..] == a[1..] + b;
      IncrementsAppend(a[1..], b);
    } else {
      assert a + b == b;
    }
  }

  /** The operation slot is emptied before any handling: after a completion
      it holds the operation of the request the handler itself issued, and
      `NoOp` when it issued none. The store's settings are only touched by
      the database branch. */
  lemma SlotHoldsLastRequest(m: Manager, env: Env, reply: Reply, accept: bool)
    ensures var r := OnReply(m, env, reply, accept);
      && r.manager.currentOp == LastRequestOp(r.effects)
      && (r.manager.currentOp != NoOp ==>
            m.currentOp == PlantImageFileDownloadOp && r.manager.currentOp == PlantImageFileDownloadOp)
      && (m.currentOp != PlantDbFileDownloadOp ==>
            r.env.plantDbRevision == env.plantDbRevision && r.env.syncAborted == env.syncAborted)
  {
    var r := OnReply(m, env, reply, accept);
    if m.currentOp == PlantImageFileDownloadOp && reply.ok {
      ImageCompletionSlot(m, env, reply, accept);
    } else {
      OtherCompletionsRequestNothing(m, env, reply, accept);
      NoRequestMeansNoOp(r.effects);
    }
  }

  lemma ImageCompletionSlot(m: Manager, env: Env, reply: Reply, accept: bool)
    requires m.currentOp == PlantImageFileDownloadOp && reply.ok
    ensures var r := OnReply(m, env, reply, accept);
      && r.manager.currentOp == LastRequestOp(r.effects)
      && r.env.plantDbRevision == env.plantDbRevision && r.env.syncAborted == env.syncAborted
  {
    var r := OnReply(m, env, reply, accept);
    var name := UrlFileName(reply.url);
    if env.filesDir + name in env.disk.faults.unopenable {
      ImageWriteRefused(m, env, reply, accept);
      NoRequestMeansNoOp(r.effects);
    } else {
      ImageWritten(m, env, reply, accept);
      var q := RemoveOne(m.toDownload, name);
      ImageEffectsLastRequest(r.effects, q);
    }
  }

  /** The effects of a written image end in a request exactly when files
      remain. */
  lemma ImageEffectsLastRequest(e: seq<Effect>, q: seq<string>)
    requires e != [] && e[0] == Emit(IncrementTotalProgressStep)
    requires q != [] ==> e[1..] == [Emit(PlantImgFileDownloadStarted(q[0])),
                                    Get(Definitions.PLANT_DB_IMG_URL + q[0], PlantImageFileDownloadOp)]
    requires q == [] ==> e[1..] == [Emit(AllImageFilesDownloaded)]
    ensures LastRequestOp(e) == if q == [] then NoOp else PlantImageFileDownloadOp
  {
    if q == [] {
      assert e == [Emit(IncrementTotalProgressStep), Emit(AllImageFilesDownloaded)];
      NoRequestMeansNoOp(e);
    } else {
      assert e[2] == e[1..][1];
    }
  }

  /** Every completion but a successful image download issues no request
      and leaves the slot empty. */
  lemma OtherCompletionsRequestNothing(m: Manager, env: Env, reply: Reply, accept: bool)
    requires !(m.currentOp == PlantImageFileDownloadOp && reply.ok)
    ensures var r := OnReply(m, env, reply, accept);
      && NoRequest(r.effects)
      && r.manager.currentOp == NoOp
      && (m.currentOp != PlantDbFileDownloadOp ==>
            r.env.plantDbRevision == env.plantDbRevision && r.env.syncAborted == env.syncAborted)
  {
    var r := OnReply(m, env, reply, accept);
    if !reply.ok && m.currentOp != CheckUpdatesOp {
    } else if m.currentOp == CheckUpdatesOp {
      CheckMakesNoRequest(m, env, reply, accept);
    } else if m.currentOp == PlantDbFileDownloadOp {
      assert |r.effects| == 3 && !r.effects[0].Get? && !r.effects[1].Get? && !r.effects[2].Get?;
    }
  }

  /** Effects without a request leave the slot empty. */
  lemma {:induction false} NoRequestMeansNoOp(effects: seq<Effect>)
    requires NoRequest(effects)
    ensures LastRequestOp(effects) == NoOp
    decreases |effects|
  {
    if effects != [] {
      NoRequestMeansNoOp(effects[..|effects| - 1]);
    }
  }

  /** The update check completion never issues a request and never touches
      the store. */
  lemma CheckMakesNoRequest(m: Manager, env: Env, reply: Reply, accept: bool)
    requires m.currentOp == CheckUpdatesOp
    ensures NoRequest(OnReply(m, env, reply, accept).effects)
    ensures OnReply(m, env, reply, accept).env == env
    ensures OnReply(m, env, reply, accept).manager.currentOp == NoOp
  {
  }

  /** A transport error on any operation but the update check (including
      a completion nobody is waiting for) only reports a network error: the
      store, the metadata and the queue are untouched. */
  lemma TransportErrorReportsNetworkError(m: Manager, env: Env, reply: Reply, accept: bool)
    requires !reply.ok && m.currentOp != CheckUpdatesOp
    ensures var r := OnReply(m, env, reply, accept);
      && r.effects == [Emit(NetworkRequestError)]
      && r.env == env
      && r.manager == m.(currentOp := NoOp)
  {
  }

  /** The update check fails with `updateErrorSignal` alone when the body's
      text is empty or does not parse; this holds after a transport error
      too, because the check bypasses the network-error branch. */
  lemma CheckFailureReportsUpdateError(m: Manager, env: Env, reply: Reply, accept: bool)
    requires m.currentOp == CheckUpdatesOp
    requires FromByteArray(reply.body) == [] || !ParseUpdateMetadata(FromByteArray(reply.body), m.metadata).ok
    ensures var r := OnReply(m, env, reply, accept);
      && r.effects == [Emit(UpdateErrorSignal)]
      && r.env == env
      && r.manager.currentOp == NoOp
      && r.manager.toDownload == m.toDownload
  {
  }

  /** A parsed update check ends in exactly one of: a software update (the
      download page is opened and acceptance reported only if the user
      agrees), a plant database update (reported only when this build can
      open the new database, otherwise withheld silently), or "no update".
      A software update takes precedence; a pending aborted sync forces a
      database update whatever the revisions. Nothing is requested and the
      store is untouched. */
  lemma CheckDecisionOutcome(m: Manager, env: Env, reply: Reply, accept: bool)
    requires m.currentOp == CheckUpdatesOp
    requires FromByteArray(reply.body) != []
    requires ParseUpdateMetadata(FromByteArray(reply.body), m.metadata).ok
    ensures var meta := ParseUpdateMetadata(FromByteArray(reply.body), m.metadata).metadata;
      var r := OnReply(m, env, reply, accept);
      var software := meta.softwareBuild > Definitions.SOFTWARE_BUILD;
      var database := meta.plantDbRevision > env.plantDbRevision || env.syncAborted;
      var readable := meta.plantDbMinBuild <= Definitions.SOFTWARE_BUILD;
      && r.manager.metadata == meta
      && r.env == env
      && NoRequest(r.effects)
      && (Emit(UpdatesAccepted) in r.effects <==> software && accept)
      && (OpenDownloadPage in r.effects <==> software && accept)
      && (Emit(PlantDatabaseUpdateSignal) in r.effects <==> !software && database && readable)
      && (Emit(NoUpdateSignal) in r.effects <==> !software && !database)
      && (r.effects == [] <==> (software && !accept) || (!software && database && !readable))
      && Emit(UpdateErrorSignal) !in r.effects
  {
    var text := FromByteArray(reply.body);
    var meta := ParseUpdateMetadata(text, m.metadata).metadata;
    var r := OnReply(m, env, reply, accept);
    assert r == HandleCheck(m.(currentOp := NoOp), env, text, accept);
    assert r.effects == DecisionEffects(Decide(meta, env.plantDbRevision, env.syncAborted), accept);
    DecisionSignals(meta, env.plantDbRevision, env.syncAborted, accept);
  }

  /** The signals of each decision, stated in terms of the metadata. */
  lemma DecisionSignals(meta: UpdateCheckMetadata, storedRevision: u64, syncAborted: bool, accept: bool)
    ensures var e := DecisionEffects(Decide(meta, storedRevision, syncAborted), accept);
      var software := meta.softwareBuild > Definitions.SOFTWARE_BUILD;
      var database := meta.plantDbRevision > storedRevision || syncAborted;
      var readable := meta.plantDbMinBuild <= Definitions.SOFTWARE_BUILD;
      && (Emit(UpdatesAccepted) in e <==> software && accept)
      && (OpenDownloadPage in e <==> software && accept)
      && (Emit(PlantDatabaseUpdateSignal) in e <==> !software && database && readable)
      && (Emit(NoUpdateSignal) in e <==> !software && !database)
      && (e == [] <==> (software && !accept) || (!software && database && !readable))
      && Emit(UpdateErrorSignal) !in e
  {
    var d := Decide(meta, storedRevision, syncAborted);
    var e := DecisionEffects(d, accept);
    match d
    case SoftwareUpdate =>
      assert e == if accept then [OpenDownloadPage, Emit(UpdatesAccepted)] else [];
    case PlantDbUpdate =>
      assert e == [Emit(PlantDatabaseUpdateSignal)];
    case PlantDbUpdateWithheld =>
      assert e == [];
    case UpToDate =>
      assert e == [Emit(NoUpdateSignal)];
  }

  /** The metadata-only request does not look at the response: it hands
      out whatever the metadata slot already holds. */
  lemma MetadataRequestReportsStoredMetadata(m: Manager, env: Env, reply: Reply, accept: bool)
    requires m.currentOp == UpdatesMetadataDownloadOp && reply.ok
    ensures var r := OnReply(m, env, reply, accept);
      && r.effects == [Emit(LatestUpdateMetadataReady(m.metadata))]
      && r.manager == m.(currentOp := NoOp)
      && r.env == env
  {
  }

  /** A downloaded image whose file can be written: the file holds the body,
      the first occurrence of its name leaves the queue, exactly one step is
      counted, and the new head of the queue is requested, or completion is
      reported when the queue is empty. */
  lemma ImageWritten(m: Manager, env: Env, reply: Reply, accept: bool)
    requires m.currentOp == PlantImageFileDownloadOp && reply.ok
    requires env.filesDir + UrlFileName(reply.url) !in env.disk.faults.unopenable
    ensures var name := UrlFileName(reply.url);
      var r := OnReply(m, env, reply, accept);
      var q := RemoveOne(m.toDownload, name);
      && r.env == env.(disk := Disk(env.disk.files[env.filesDir + name := reply.body], env.disk.faults))
      && r.manager == m.(currentOp := if q == [] then NoOp else PlantImageFileDownloadOp, toDownload := q)
      && Increments(r.effects) == 1
      && r.effects[0] == Emit(IncrementTotalProgressStep)
      && (q != [] ==> r.effects[1..] == [Emit(PlantImgFileDownloadStarted(q[0])),
                                          Get(Definitions.PLANT_DB_IMG_URL + q[0], PlantImageFileDownloadOp)])
      && (q == [] ==> r.effects[1..] == [Emit(AllImageFilesDownloaded)])
  {
    var name := UrlFileName(reply.url);
    var m0 := m.(currentOp := NoOp);
    assert OnReply(m, env, reply, accept) == HandleImageFile(m0, env, name, reply.body);
    HandleImageWritten(m0, env, name, reply.body);
  }

  /** The image handler itself, for a file it can write. */
  lemma HandleImageWritten(m: Manager, env: Env, name: string, body: seq<byte>)
    requires env.filesDir + name !in env.disk.faults.unopenable
    ensures var r := HandleImageFile(m, env, name, body);
      var q := RemoveOne(m.toDownload, name);
      && r.env == env.(disk := Disk(env.disk.files[env.filesDir + name := body], env.disk.faults))
      && r.manager == m.(currentOp := if q == [] then m.currentOp else PlantImageFileDownloadOp, toDownload := q)
      && Increments(r.effects) == 1
      && r.effects[0] == Emit(IncrementTotalProgressStep)
      && (q != [] ==> r.effects[1..] == [Emit(PlantImgFileDownloadStarted(q[0])),
                                          Get(Definitions.PLANT_DB_IMG_URL + q[0], PlantImageFileDownloadOp)])
      && (q == [] ==> r.effects[1..] == [Emit(AllImageFilesDownloaded)])
  {
    var r := HandleImageFile(m, env, name, body);
    var q := RemoveOne(m.toDownload, name);
    var tail := if q != [] then [Emit(PlantImgFileDownloadStarted(q[0])),
                                 Get(Definitions.PLANT_DB_IMG_URL + q[0], PlantImageFileDownloadOp)]
                else [Emit(AllImageFilesDownloaded)];
    assert r.effects == [Emit(IncrementTotalProgressStep)] + tail;
    assert r.effects[1..] == tail;
    NoIncrements(tail);
  }

  /** Effects holding no increment count zero steps. */
  lemma {:induction false} NoIncrements(e: seq<Effect>)
    requires forall i :: 0 <= i < |e| ==> e[i] != Emit(IncrementTotalProgressStep)
    ensures Increments(e) == 0
    decreases |e|
  {
    if e != [] {
      NoIncrements(e[1..]);
    }
  }

  /** A downloaded image whose file cannot be opened: only the write error
      is reported; the queue stays as it was and nothing more is requested. */
  lemma ImageWriteRefused(m: Manager, env: Env, reply: Reply, accept: bool)
    requires m.currentOp == PlantImageFileDownloadOp && reply.ok
    requires env.filesDir + UrlFileName(reply.url) in env.disk.faults.unopenable
    ensures var r := OnReply(m, env, reply, accept);
      && r.effects == [Emit(PlantImgWriteFileError)]
      && r.manager == m.(currentOp := NoOp)
      && r.env == env
  {
  }

  /** Whether the database replacement goes wrong: a stale backup that
      cannot be removed, a backup copy that fails, or a database file that
      cannot be opened for writing. */
  predicate ReplacementFails(d: Disk, dbPath: string) {
    var backup := BackupPath(dbPath);
    var staleStays := backup in d.files && backup in d.faults.unremovable;
    var backupFails := dbPath !in d.files || staleStays || backup in d.faults.uncopyableTo;
    staleStays || backupFails || dbPath in d.faults.unopenable
  }

  /** The database completion: the connection is closed first and reopened
      last on every path; success is reported, and the server's revision
      stored, exactly when the replacement did not fail, in which case the
      database holds the downloaded bytes and the backup the previous ones. */
  lemma DatabaseReplaced(m: Manager, env: Env, reply: Reply, accept: bool)
    requires m.currentOp == PlantDbFileDownloadOp && reply.ok
    ensures var r := OnReply(m, env, reply, accept);
      var failed := ReplacementFails(env.disk, env.dbPath);
      && |r.effects| == 3
      && r.effects[0] == CloseDatabase && r.effects[2] == OpenDatabase
      && (r.effects[1] == Emit(PlantDatabaseUpdateSuccess) <==> !failed)
      && (r.effects[1] == Emit(PlantDatabaseUpdateError) <==> failed)
      && r.env.plantDbRevision == (if failed then env.plantDbRevision else m.metadata.plantDbRevision)
      && r.env.syncAborted == env.syncAborted
      && r.manager == m.(currentOp := NoOp)
      && (!failed ==>
            && r.env.disk.files[env.dbPath] == reply.body
            && r.env.disk.files[BackupPath(env.dbPath)] == env.disk.files[env.dbPath])
  {
  }
  /** The database completion touches no file but the database and its
      backup, and no part of the state but the files and the stored
      revision. */
  lemma DatabaseReplacedFrame(m: Manager, env: Env, reply: Reply, accept: bool)
    requires m.currentOp == PlantDbFileDownloadOp && reply.ok
    ensures var r := OnReply(m, env, reply, accept);
      && r.env == env.(disk := r.env.disk, plantDbRevision := r.env.plantDbRevision)
      && r.env.disk.faults == env.disk.faults
      && AgreeOutside(r.env.disk, env.disk, {env.dbPath, BackupPath(env.dbPath)})
  {
    ReplaceDatabaseFrame(env.disk, env.dbPath, reply.body);
    var rep := ReplaceDatabase(env.disk, env.dbPath, reply.body);
    if rep.error && rep.backupDone {
      var rm := Remove(rep.disk, env.dbPath);
      var cp := Copy(rm.disk, BackupPath(env.dbPath), env.dbPath);
      assert AgreeOutside(rm.disk, rep.disk, {env.dbPath, BackupPath(env.dbPath)});
      assert AgreeOutside(cp.disk, rm.disk, {env.dbPath, BackupPath(env.dbPath)});
      AgreeOutsideTrans(cp.disk, rm.disk, rep.disk, {env.dbPath, BackupPath(env.dbPath)});
      AgreeOutsideTrans(cp.disk, rep.disk, env.disk, {env.dbPath, BackupPath(env.dbPath)});
    }
  }

  /** Replacing the database touches only the database and its backup. */
  lemma ReplaceDatabaseFrame(d: Disk, dbPath: string, body: seq<byte>)
    ensures var rep := ReplaceDatabase(d, dbPath, body);
      rep.disk.faults == d.faults && AgreeOutside(rep.disk, d, {dbPath, BackupPath(dbPath)})
  {
  }


  /** When the replacement fails after the backup was made, the backup is
      put back: provided the partial database can be removed and the copy
      back is allowed, the database afterwards holds exactly the bytes it
      held before the download. */
  lemma FailedReplacementRestoresBackup(m: Manager, env: Env, reply: Reply, accept: bool)
    requires m.currentOp == PlantDbFileDownloadOp && reply.ok
    requires env.dbPath in env.disk.files
    requires ReplacementFails(env.disk, env.dbPath)
    requires ReplaceDatabase(env.disk, env.dbPath, reply.body).backupDone
    requires env.dbPath !in env.disk.faults.unremovable && env.dbPath !in env.disk.faults.uncopyableTo
    ensures var r := OnReply(m, env, reply, accept);
      && r.env.disk.files[env.dbPath] == env.disk.files[env.dbPath]
      && r.effects == [CloseDatabase, Emit(PlantDatabaseUpdateError), OpenDatabase]
  {
  }

  /** When no backup could be made the overwrite still happens and nothing
      is restored: the error is reported, yet the database file holds the
      downloaded bytes (unless it could not be opened) and the stored
      revision is left behind. */
  lemma FailedBackupKeepsOverwrite(m: Manager, env: Env, reply: Reply, accept: bool)
    requires m.currentOp == PlantDbFileDownloadOp && reply.ok
    requires !ReplaceDatabase(env.disk, env.dbPath, reply.body).backupDone
    requires env.dbPath !in env.disk.faults.unopenable
    ensures var r := OnReply(m, env, reply, accept);
      && r.env.disk.files[env.dbPath] == reply.body
      && r.env.plantDbRevision == env.plantDbRevision
      && r.effects == [CloseDatabase, Emit(PlantDatabaseUpdateError), OpenDatabase]
  {
  }

  // ---------------------------------------------------------------------------
  // Draining the image queue
  // ---------------------------------------------------------------------------

  /** The successful completion of the image request the manager issued
      last, the one for the head of the queue, with body `bodyOf(name)`. */
  function ImageStep(m: Manager, env: Env, bodyOf: string -> seq<byte>): Outcome
    requires m.toDownload != []
  {
    var name := m.toDownload[0];
    HandleImageFile(m.(currentOp := NoOp), env, name, bodyOf(name))
  }

  /** `ImageStep` is what the completion handler does with that reply. */
  lemma ImageStepIsCompletion(m: Manager, env: Env, bodyOf: string -> seq<byte>)
    requires m.currentOp == PlantImageFileDownloadOp && m.toDownload != []
    requires UrlSafe(m.toDownload[0])
    ensures var name := m.toDownload[0];
      ImageStep(m, env, bodyOf) == OnReply(m, env, Reply(Definitions.PLANT_DB_IMG_URL + name, true, bodyOf(name)), false)
  {
    Definitions.ImageUrlIsPlain();
    UrlFileNameOfAppended(Definitions.PLANT_DB_IMG_URL, m.toDownload[0]);
  }

  /** A queued name holding '?' or '#' is never taken off the queue: the
      completion for its URL writes the file named by the URL's path
      instead, `removeOne` finds no such entry, and the same file is
      requested again. */
  lemma QueryNameRequestedAgain(m: Manager, env: Env, body: seq<byte>)
    requires m.currentOp == PlantImageFileDownloadOp && m.toDownload != []
    requires '?' in m.toDownload[0] || '#' in m.toDownload[0]
    requires var url := Definitions.PLANT_DB_IMG_URL + m.toDownload[0];
      UrlFileName(url) !in m.toDownload && env.filesDir + UrlFileName(url) !in env.disk.faults.unopenable
    ensures var url := Definitions.PLANT_DB_IMG_URL + m.toDownload[0];
      var o := OnReply(m, env, Reply(url, true, body), false);
      o.manager.toDownload == m.toDownload && o.manager.currentOp == PlantImageFileDownloadOp
      && o.effects == [Emit(IncrementTotalProgressStep), Emit(PlantImgFileDownloadStarted(m.toDownload[0])),
                       Get(url, PlantImageFileDownloadOp)]
  {
    var url := Definitions.PLANT_DB_IMG_URL + m.toDownload[0];
    UrlFileNameLosesQuery(Definitions.PLANT_DB_IMG_URL, m.toDownload[0]);
    var w := WriteFile(env.disk, env.filesDir + UrlFileName(url), body);
    assert w.ok;
  }

  /** Feed up to `n` successful image completions, each for the file at the
      head of the queue, as `ImageStep`; stop early once no image request
      is pending. */
  function DeliverImages(m: Manager, env: Env, bodyOf: string -> seq<byte>, n: nat): Outcome
    decreases n
  {
    if n == 0 || m.currentOp != PlantImageFileDownloadOp || m.toDownload == [] then Outcome(m, env, [])
    else
      var o := ImageStep(m, env, bodyOf);
      var rest := DeliverImages(o.manager, o.env, bodyOf, n - 1);
      Outcome(rest.manager, rest.env, o.effects + rest.effects)
  }

  /** Image names that survive the trip through a URL and whose files can
      be written. */
  predicate Downloadable(env: Env, names: seq<string>) {
    forall i :: 0 <= i < |names| ==>
      UrlSafe(names[i]) && env.filesDir + names[i] !in env.disk.faults.unopenable
  }

  /** When every completion succeeds, a queue of `n` files is drained by
      exactly `n` completions: each file ends up holding its body, `n`
      steps are counted, completion is reported last, and the slot is
      empty again. */
  lemma {:induction false} DrainQueue(m: Manager, env: Env, bodyOf: string -> seq<byte>)
    requires m.currentOp == PlantImageFileDownloadOp && m.toDownload != []
    requires Downloadable(env, m.toDownload)
    ensures var o := DeliverImages(m, env, bodyOf, |m.toDownload|);
      o.manager == m.(currentOp := NoOp, toDownload := [])
    ensures var o := DeliverImages(m, env, bodyOf, |m.toDownload|);
      Increments(o.effects) == |m.toDownload|
    ensures var o := DeliverImages(m, env, bodyOf, |m.toDownload|);
      o.effects != [] && o.effects[|o.effects| - 1] == Emit(AllImageFilesDownloaded)
    ensures var o := DeliverImages(m, env, bodyOf, |m.toDownload|);
      o.env == env.(disk := Disk(o.env.disk.files, env.disk.faults))
    decreases |m.toDownload|
  {
    var q := m.toDownload;
    var o := DeliverStep(m, env, bodyOf);
    var rest := DeliverImages(o.manager, o.env, bodyOf, |q| - 1);
    DeliverUnfold(m, env, bodyOf, |q|, o);
    IncrementsAppend(o.effects, rest.effects);
    if |q| == 1 {
      assert rest == Outcome(o.manager, o.env, []);
      assert o.effects + rest.effects == o.effects;
    } else {
      DownloadableTail(o.env, env, q);
      DrainQueue(o.manager, o.env, bodyOf);
      assert (o.effects + rest.effects)[|o.effects + rest.effects| - 1] == rest.effects[|rest.effects| - 1];
    }
  }

  /** Draining the queue leaves every queued file holding its body. */
  lemma {:induction false} DrainWritesFiles(m: Manager, env: Env, bodyOf: string -> seq<byte>)
    requires m.currentOp == PlantImageFileDownloadOp && m.toDownload != []
    requires Downloadable(env, m.toDownload)
    ensures var files := DeliverImages(m, env, bodyOf, |m.toDownload|).env.disk.files;
      forall i :: 0 <= i < |m.toDownload| ==>
        env.filesDir + m.toDownload[i] in files && files[env.filesDir + m.toDownload[i]] == bodyOf(m.toDownload[i])
    decreases |m.toDownload|
  {
    var q := m.toDownload;
    var dir := env.filesDir;
    var o := DeliverStep(m, env, bodyOf);
    var rest := DeliverImages(o.manager, o.env, bodyOf, |q| - 1);
    DeliverUnfold(m, env, bodyOf, |q|, o);
    var files := rest.env.disk.files;
    if |q| == 1 {
      assert rest == Outcome(o.manager, o.env, []);
    } else {
      DownloadableTail(o.env, env, q);
      DrainWritesFiles(o.manager, o.env, bodyOf);
      DrainKeepsOtherFiles(o.manager, o.env, bodyOf);
      forall i | 1 <= i < |q|
        ensures dir + q[i] in files && files[dir + q[i]] == bodyOf(q[i])
      {
        assert q[i] == q[1..][i - 1];
      }
      HeadFileKept(dir, q, files, o.env.disk.files, bodyOf);
    }
  }

  /** The head's file after the rest of the queue is drained: if the head
      occurs again, the later write wrote the same body; otherwise the
      rest of the drain did not touch it. */
  lemma HeadFileKept(dir: string, q: seq<string>, files: map<string, seq<byte>>,
                     before: map<string, seq<byte>>, bodyOf: string -> seq<byte>)
    requires |q| > 1
    requires dir + q[0] in before && before[dir + q[0]] == bodyOf(q[0])
    requires forall i :: 0 <= i < |q| - 1 ==>
               dir + q[1..][i] in files && files[dir + q[1..][i]] == bodyOf(q[1..][i])
    requires forall p :: p in before && OutsideQueue(p, dir, q[1..]) ==> p in files && files[p] == before[p]
    ensures dir + q[0] in files && files[dir + q[0]] == bodyOf(q[0])
  {
    if j :| 0 <= j < |q| - 1 && q[1..][j] == q[0] {
      assert dir + q[1..][j] == dir + q[0];
    } else {
      forall j | 0 <= j < |q| - 1 ensures dir + q[0] != dir + q[1..][j] {
        if dir + q[0] == dir + q[1..][j] {
          AppendCancels(dir, q[0], q[1..][j]);
        }
      }
      assert OutsideQueue(dir + q[0], dir, q[1..]);
    }
  }

  /** Draining the queue leaves every file outside it as it was. */
  lemma {:induction false} DrainKeepsOtherFiles(m: Manager, env: Env, bodyOf: string -> seq<byte>)
    requires m.currentOp == PlantImageFileDownloadOp && m.toDownload != []
    requires Downloadable(env, m.toDownload)
    ensures var files := DeliverImages(m, env, bodyOf, |m.toDownload|).env.disk.files;
      forall p :: p in env.disk.files && OutsideQueue(p, env.filesDir, m.toDownload) ==>
        p in files && files[p] == env.disk.files[p]
    decreases |m.toDownload|
  {
    var q := m.toDownload;
    var o := DeliverStep(m, env, bodyOf);
    var rest := DeliverImages(o.manager, o.env, bodyOf, |q| - 1);
    DeliverUnfold(m, env, bodyOf, |q|, o);
    if |q| == 1 {
      assert rest == Outcome(o.manager, o.env, []);
    } else {
      DownloadableTail(o.env, env, q);
      DrainKeepsOtherFiles(o.manager, o.env, bodyOf);
      forall p | p in env.disk.files && OutsideQueue(p, env.filesDir, q)
        ensures OutsideQueue(p, o.env.filesDir, q[1..])
      {
        OutsideQueueTail(p, env.filesDir, q);
      }
    }
  }

  /** `p` is not the path of any file of `names` under `dir`. */
  predicate OutsideQueue(p: string, dir: string, names: seq<string>) {
    forall i :: 0 <= i < |names| ==> p != dir + names[i]
  }

  lemma OutsideQueueTail(p: string, dir: string, names: seq<string>)
    requires names != [] && OutsideQueue(p, dir, names)
    ensures p != dir + names[0] && OutsideQueue(p, dir, names[1..])
  {
    forall i | 0 <= i < |names| - 1 ensures p != dir + names[1..][i] {
      assert names[1..][i] == names[i + 1];
    }
  }

  /** Equal paths under one directory name equal files. */
  lemma AppendCancels(dir: string, a: string, b: string)
    requires dir + a == dir + b
    ensures a == b
  {
    assert a == (dir + a)[|dir|..];
    assert b == (dir + b)[|dir|..];
  }

  /** Downloadability depends only on the directory and the refusals, so
      the rest of the queue stays downloadable after a write. */
  lemma DownloadableTail(e1: Env, e0: Env, q: seq<string>)
    requires q != [] && Downloadable(e0, q)
    requires e1.filesDir == e0.filesDir && e1.disk.faults == e0.disk.faults
    ensures Downloadable(e1, q[1..])
  {
    forall i | 0 <= i < |q| - 1
      ensures '/' !in q[1..][i] && e1.filesDir + q[1..][i] !in e1.disk.faults.unopenable
    {
      assert q[1..][i] == q[i + 1];
    }
  }

  /** Delivering `n > 0` completions is delivering the first, then `n - 1`
      more from the state it leaves. */
  lemma DeliverUnfold(m: Manager, env: Env, bodyOf: string -> seq<byte>, n: nat, o: Outcome)
    requires n > 0 && m.currentOp == PlantImageFileDownloadOp && m.toDownload != []
    requires o == ImageStep(m, env, bodyOf)
    ensures DeliverImages(m, env, bodyOf, n) ==
              var rest := DeliverImages(o.manager, o.env, bodyOf, n - 1);
              Outcome(rest.manager, rest.env, o.effects + rest.effects)
  {
  }

  /** One completion of the drain: the head of the queue is written and
      dropped, one step is counted, and the head's successor is requested
      (or completion reported). */
  lemma DeliverStep(m: Manager, env: Env, bodyOf: string -> seq<byte>) returns (o: Outcome)
    requires m.currentOp == PlantImageFileDownloadOp && m.toDownload != []
    requires Downloadable(env, m.toDownload)
    ensures o == ImageStep(m, env, bodyOf)
    ensures o.manager == m.(currentOp := if |m.toDownload| == 1 then NoOp else PlantImageFileDownloadOp,
                            toDownload := m.toDownload[1..])
    ensures o.env == env.(disk := Disk(env.disk.files[env.filesDir + m.toDownload[0] := bodyOf(m.toDownload[0])],
                                       env.disk.faults))
    ensures Increments(o.effects) == 1
    ensures |m.toDownload| == 1 ==> o.effects == [Emit(IncrementTotalProgressStep), Emit(AllImageFilesDownloaded)]
  {
    var name := m.toDownload[0];
    HandleImageWritten(m.(currentOp := NoOp), env, name, bodyOf(name));
    o := ImageStep(m, env, bodyOf);
    if |m.toDownload| == 1 {
      assert o.effects == [o.effects[0]] + o.effects[1..];
    }
  }

  /** The whole image batch: requesting a non-empty list announces its
      length as the step total, and if every completion succeeds exactly
      that many steps are counted before completion is reported. */
  lemma ImageBatchCountsEveryStep(m: Manager, env: Env, list: seq<string>, bodyOf: string -> seq<byte>)
    requires list != [] && Downloadable(env, list)
    ensures var s := RequestPlantImageFiles(m, env, list);
      var o := DeliverImages(s.manager, s.env, bodyOf, |list|);
      && s.effects[0] == Emit(TotalSyncProgressMaxSteps(|list|))
      && Increments(o.effects) == |list|
      && o.effects[|o.effects| - 1] == Emit(AllImageFilesDownloaded)
      && o.manager.toDownload == []
  {
    var s := RequestPlantImageFiles(m, env, list);
    DrainQueue(s.manager, s.env, bodyOf);
  }
}
