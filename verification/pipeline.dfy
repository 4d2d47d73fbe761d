/** The sync dialog wired to the shared update manager, as Qt delivers
    signals: directly and in order, so a slot's call into the manager (and
    any signal that call emits) runs to completion before the next effect
    of the emitting handler. One network completion is one step of the
    whole system. */
module Pipeline {
  import opened Common
  import opened LocalStore
  import opened QtString
  import opened Json
  import opened UpdateManager
  import opened DatabaseSync
  import UpdateProperties
  import Definitions

  /** The manager, the dialog, the local store, and the effects that left
      the system so far (requests issued, database closed and reopened). */
  datatype Sys = Sys(manager: Manager, dialog: Dialog, env: Env, issued: seq<Effect>)

  /** The manager entry point a call names. */
  function ApplyCall(m: Manager, env: Env, c: Call): (r: Outcome)
    ensures r.env == env
    ensures forall i :: 0 <= i < |r.effects| && r.effects[i].Emit? ==>
              !r.effects[i].signal.PlantDbEventsRequestCompleted?
    ensures forall i :: 0 <= i < |r.effects| && r.effects[i].Emit? ==>
              SignalRank(r.effects[i].signal) < CallRank(c)
  {
    match c
    case LatestMetadataCall => RequestLatestUpdateMetadata(m, env)
    case DatabaseFileCall => RequestPlantDatabaseFile(m, env)
    case ImageMetaCall => RequestPlantImgMetaFile(m, env)
    case ImageFilesCall(files) => RequestPlantImageFiles(m, env, files)
    case ChangelogCall => RequestPlantDbChangelogFile(m, env)
    case EventsCall => RequestPlantDbEventsFile(m, env)
  }

  /** How deeply the delivery of a call can nest: only the image batch
      emits signals, and the deepest of those leads to a plain request. */
  function CallRank(c: Call): nat {
    if c.ImageFilesCall? then 2 else 1
  }

  /** An upper bound on the rank of the call the dialog makes for a
      signal: the manifest signal leads to the image batch, four signals
      lead to a plain request, the rest to nothing. */
  function SignalRank(s: Signal): nat {
    match s
    case PlantImgMetadataFileReady => 2
    case LatestUpdateMetadataReady(_) => 1
    case PlantDatabaseUpdateSuccess => 1
    case AllImageFilesDownloaded => 1
    case PlantDbChangelogRequestCompleted(_) => 1
    case _ => 0
  }

  /** The dialog's calls respect the signal ranks, which is what bounds
      the nesting of signal delivery. */
  lemma CallWithinRank(d: Dialog, env: Env, s: Signal, parseJson: seq<byte> -> Option<Json>)
    ensures var r := OnSignal(d, env, s, parseJson);
      r.call.Some? ==> CallRank(r.call.value) <= SignalRank(s)
  {
  }

  /** Every signal of a list ranks below `bound`. */
  predicate RankedBelow(effects: seq<Effect>, bound: nat) {
    forall i :: 0 <= i < |effects| && effects[i].Emit? ==> SignalRank(effects[i].signal) < bound
  }

  /** Deliver effects in order, each one completely before the next. */
  function DeliverAll(s: Sys, effects: seq<Effect>, bound: nat, parseJson: seq<byte> -> Option<Json>): Sys
    requires RankedBelow(effects, bound)
    decreases bound, 1, |effects|
  {
    if effects == [] then s
    else DeliverAll(DeliverOne(s, effects[0], parseJson), effects[1..], bound, parseJson)
  }

  /** Deliver one effect: a signal runs the dialog's slot and then the call
      it makes, whose own effects are delivered in turn; every other effect
      leaves the system. */
  function DeliverOne(s: Sys, e: Effect, parseJson: seq<byte> -> Option<Json>): Sys
    decreases if e.Emit? then SignalRank(e.signal) + 1 else 0, 0, 0
  {
    if e.Emit? then
      var re := OnSignal(s.dialog, s.env, e.signal, parseJson);
      var s0 := s.(dialog := re.dialog, env := re.env);
      if re.call.None? then s0
      else
        CallWithinRank(s.dialog, s.env, e.signal, parseJson);
        var o := ApplyCall(s0.manager, s0.env, re.call.value);
        DeliverAll(s0.(manager := o.manager, env := o.env), o.effects, SignalRank(e.signal), parseJson)
    else s.(issued := s.issued + [e])
  }

  /** The user accepts the licence: the dialog starts the sync. */
  function StartSync(s: Sys, parseJson: seq<byte> -> Option<Json>): Sys {
    var re := StartDatabaseSync(s.dialog, s.env);
    var o := ApplyCall(s.manager, re.env, re.call.value);
    DeliverAll(s.(dialog := re.dialog, env := o.env, manager := o.manager), o.effects, 1, parseJson)
  }

  /** A network completion reaches the manager; `accept` answers the
      software-update question should it be asked. */
  function Complete(s: Sys, reply: Reply, accept: bool, parseJson: seq<byte> -> Option<Json>): Sys {
    var o := OnReply(s.manager, s.env, reply, accept);
    assert RankedBelow(o.effects, 3);
    DeliverAll(s.(manager := o.manager, env := o.env), o.effects, 3, parseJson)
  }

  // ---------------------------------------------------------------------------
  // One completion, operation by operation
  // ---------------------------------------------------------------------------

  /** The requests among `effects`. */
  function Requests(effects: seq<Effect>): (r: seq<Effect>)
    ensures forall i :: 0 <= i < |r| ==> r[i].Get?
    ensures |r| <= |effects|
  {
    if effects == [] then []
    else (if effects[0].Get? then [effects[0]] else []) + Requests(effects[1..])
  }

  /** Delivering a list is delivering its head, then its tail. */
  lemma DeliverCons(s: Sys, effects: seq<Effect>, bound: nat, parseJson: seq<byte> -> Option<Json>)
    requires effects != [] && RankedBelow(effects, bound)
    ensures RankedBelow(effects[1..], bound)
    ensures DeliverAll(s, effects, bound, parseJson) ==
              DeliverAll(DeliverOne(s, effects[0], parseJson), effects[1..], bound, parseJson)
  {
    assert RankedBelow(effects[1..], bound) by {
      forall i | 0 <= i < |effects| - 1 && effects[1..][i].Emit?
        ensures SignalRank(effects[1..][i].signal) < bound
      {
        assert effects[1..][i] == effects[i + 1];
      }
    }
  }

  /** Effects without signals simply leave the system, in order. */
  lemma {:induction false} DeliverNoSignals(s: Sys, effects: seq<Effect>, bound: nat, parseJson: seq<byte> -> Option<Json>)
    requires forall i :: 0 <= i < |effects| ==> !effects[i].Emit?
    ensures RankedBelow(effects, bound)
    ensures DeliverAll(s, effects, bound, parseJson) == s.(issued := s.issued + effects)
    decreases |effects|
  {
    if effects == [] {
      assert s.issued + effects == s.issued;
    } else {
      DeliverCons(s, effects, bound, parseJson);
      var s1 := DeliverOne(s, effects[0], parseJson);
      assert s1 == s.(issued := s.issued + [effects[0]]);
      DeliverNoSignals(s1, effects[1..], bound, parseJson);
      assert s.issued + [effects[0]] + effects[1..] == s.issued + effects;
    }
  }

  /** A signal whose slot makes a plain request: the slot's changes, then
      the request leaves the system and is recorded in the slot. */
  lemma DeliverPlainCall(s: Sys, sig: Signal, parseJson: seq<byte> -> Option<Json>)
    requires var re := OnSignal(s.dialog, s.env, sig, parseJson);
      re.call.Some? && !re.call.value.ImageFilesCall?
    ensures var re := OnSignal(s.dialog, s.env, sig, parseJson);
      var o := ApplyCall(s.manager, re.env, re.call.value);
      && |o.effects| == 1 && o.effects[0].Get?
      && DeliverOne(s, Emit(sig), parseJson) ==
           Sys(s.manager.(currentOp := o.effects[0].op), re.dialog, re.env, s.issued + o.effects)
  {
    var re := OnSignal(s.dialog, s.env, sig, parseJson);
    var o := ApplyCall(s.manager, re.env, re.call.value);
    CallWithinRank(s.dialog, s.env, sig, parseJson);
    DeliverNoSignals(Sys(o.manager, re.dialog, re.env, s.issued), o.effects, SignalRank(sig), parseJson);
  }

  /** A signal whose slot makes no call: only the slot's changes. */
  lemma DeliverNoCall(s: Sys, sig: Signal, parseJson: seq<byte> -> Option<Json>)
    requires OnSignal(s.dialog, s.env, sig, parseJson).call.None?
    ensures var re := OnSignal(s.dialog, s.env, sig, parseJson);
      DeliverOne(s, Emit(sig), parseJson) == s.(dialog := re.dialog, env := re.env)
  {
  }

  /** Delivering a concatenation is delivering its parts in turn. */
  lemma {:induction false} DeliverAppend(s: Sys, a: seq<Effect>, b: seq<Effect>, bound: nat,
                                          parseJson: seq<byte> -> Option<Json>)
    requires RankedBelow(a + b, bound)
    ensures RankedBelow(a, bound) && RankedBelow(b, bound)
    ensures DeliverAll(s, a + b, bound, parseJson) ==
              DeliverAll(DeliverAll(s, a, bound, parseJson), b, bound, parseJson)
    decreases |a|
  {
    assert RankedBelow(a, bound) by {
      forall i | 0 <= i < |a| && a[i].Emit? ensures SignalRank(a[i].signal) < bound {
        assert (a + b)[i] == a[i];
      }
    }
    assert RankedBelow(b, bound) by {
      forall i | 0 <= i < |b| && b[i].Emit? ensures SignalRank(b[i].signal) < bound {
        assert (a + b)[|a| + i] == b[i];
      }
    }
    if a == [] {
      assert a + b == b;
    } else {
      DeliverCons(s, a + b, bound, parseJson);
      DeliverCons(s, a, bound, parseJson);
      assert (a + b)[1..] == a[1..] + b;
      DeliverAppend(DeliverOne(s, a[0], parseJson), a[1..], b, bound, parseJson);
    }
  }

  /** A signal no slot of the dialog reacts to changes nothing. */
  lemma DeliverIgnored(s: Sys, sig: Signal, parseJson: seq<byte> -> Option<Json>)
    requires sig.TotalSyncProgressMaxSteps? || sig == IncrementTotalProgressStep
    ensures DeliverOne(s, Emit(sig), parseJson) == s
  {
  }

  /** The image batch the manifest slot asks for: the queue becomes the
      download set, and either its first file is requested or, for an empty
      set, the dialog goes straight on to the changelog. */
  lemma DeliverImageBatch(s: Sys, files: seq<string>, parseJson: seq<byte> -> Option<Json>)
    ensures var o := RequestPlantImageFiles(s.manager, s.env, files);
      && RankedBelow(o.effects, 2)
      && var t := DeliverAll(s.(manager := o.manager), o.effects, 2, parseJson);
      && t.env == s.env
      && t.dialog.result == s.dialog.result && t.dialog.plantImages == s.dialog.plantImages
      && t.manager.toDownload == files && t.manager.metadata == s.manager.metadata
      && (files == [] ==>
            && t.issued == s.issued + [Get(Definitions.PLANT_DB_CHANGELOG, PlantDbChangelogFileDownloadOp)]
            && t.manager.currentOp == PlantDbChangelogFileDownloadOp)
      && (files != [] ==>
            && t.issued == s.issued + [Get(Definitions.PLANT_DB_IMG_URL + files[0], PlantImageFileDownloadOp)]
            && t.manager.currentOp == PlantImageFileDownloadOp)
  {
    if files == [] {
      DeliverEmptyBatch(s, parseJson);
    } else {
      DeliverNonEmptyBatch(s, files, parseJson);
    }
  }

  /** The empty half of `DeliverImageBatch`: completion is reported at
      once and the dialog requests the changelog. */
  lemma DeliverEmptyBatch(s: Sys, parseJson: seq<byte> -> Option<Json>)
    ensures var o := RequestPlantImageFiles(s.manager, s.env, []);
      && RankedBelow(o.effects, 2)
      && var t := DeliverAll(s.(manager := o.manager), o.effects, 2, parseJson);
      && t.env == s.env
      && t.dialog.result == s.dialog.result && t.dialog.plantImages == s.dialog.plantImages
      && t.manager.toDownload == [] && t.manager.metadata == s.manager.metadata
      && t.issued == s.issued + [Get(Definitions.PLANT_DB_CHANGELOG, PlantDbChangelogFileDownloadOp)]
      && t.manager.currentOp == PlantDbChangelogFileDownloadOp
  {
    var o := RequestPlantImageFiles(s.manager, s.env, []);
    var s1 := s.(manager := o.manager);
    DeliverCons(s1, o.effects, 2, parseJson);
    DeliverPlainCall(s1, AllImageFilesDownloaded, parseJson);
  }

  /** The non-empty half of `DeliverImageBatch`: the step total is
      ignored, the first file is announced and then requested. */
  lemma DeliverNonEmptyBatch(s: Sys, files: seq<string>, parseJson: seq<byte> -> Option<Json>)
    requires files != []
    ensures var o := RequestPlantImageFiles(s.manager, s.env, files);
      && RankedBelow(o.effects, 2)
      && var t := DeliverAll(s.(manager := o.manager), o.effects, 2, parseJson);
      && t.env == s.env
      && t.dialog.result == s.dialog.result && t.dialog.plantImages == s.dialog.plantImages
      && t.manager.toDownload == files && t.manager.metadata == s.manager.metadata
      && t.issued == s.issued + [Get(Definitions.PLANT_DB_IMG_URL + files[0], PlantImageFileDownloadOp)]
      && t.manager.currentOp == PlantImageFileDownloadOp
  {
    var o := RequestPlantImageFiles(s.manager, s.env, files);
    var s1 := s.(manager := o.manager);
    var started := Emit(PlantImgFileDownloadStarted(files[0]));
    var get := Get(Definitions.PLANT_DB_IMG_URL + files[0], PlantImageFileDownloadOp);
    assert o.effects == [Emit(TotalSyncProgressMaxSteps(|files|))] + ([started] + [get]);
    DeliverAppend(s1, [Emit(TotalSyncProgressMaxSteps(|files|))], [started] + [get], 2, parseJson);
    DeliverCons(s1, [Emit(TotalSyncProgressMaxSteps(|files|))], 2, parseJson);
    DeliverIgnored(s1, TotalSyncProgressMaxSteps(|files|), parseJson);
    DeliverAppend(s1, [started], [get], 2, parseJson);
    DeliverCons(s1, [started], 2, parseJson);
    var s2 := DeliverOne(s1, started, parseJson);
    DeliverNoSignals(s2, [get], 2, parseJson);
  }

  /** The metadata reply: the dialog caches the server's revision, rejects
      when this build cannot open the new database, and requests the
      database file either way. */
  lemma MetadataCompletion(s: Sys, reply: Reply, accept: bool, parseJson: seq<byte> -> Option<Json>)
    requires s.manager.currentOp == UpdatesMetadataDownloadOp && reply.ok
    ensures var t := Complete(s, reply, accept, parseJson);
      && t.issued == s.issued + [Get(Definitions.PLANT_DB_URL, PlantDbFileDownloadOp)]
      && t.manager == s.manager.(currentOp := PlantDbFileDownloadOp)
      && t.env == s.env
      && t.dialog.latestPlantDbRevision == s.manager.metadata.plantDbRevision
      && (t.dialog.result == Rejected <==>
            s.manager.metadata.plantDbMinBuild > Definitions.SOFTWARE_BUILD || s.dialog.result == Rejected)
  {
    var o := OnReply(s.manager, s.env, reply, accept);
    var sig := LatestUpdateMetadataReady(s.manager.metadata);
    assert o.effects == [Emit(sig)];
    var s1 := s.(manager := o.manager, env := o.env);
    DeliverCons(s1, o.effects, 3, parseJson);
    DeliverPlainCall(s1, sig, parseJson);
  }

  /** Starting the sync marks it as incomplete and asks for the server's
      metadata. */
  lemma SyncStarted(s: Sys, parseJson: seq<byte> -> Option<Json>)
    ensures var t := StartSync(s, parseJson);
      && t.issued == s.issued + [Get(Definitions.UPDATE_URL, UpdatesMetadataDownloadOp)]
      && t.manager == s.manager.(currentOp := UpdatesMetadataDownloadOp)
      && t.env == s.env.(syncAborted := true)
      && t.dialog.result == s.dialog.result
  {
    var re := StartDatabaseSync(s.dialog, s.env);
    var o := ApplyCall(s.manager, re.env, re.call.value);
    DeliverNoSignals(s.(dialog := re.dialog, env := o.env, manager := o.manager), o.effects, 1, parseJson);
  }

  /** The database reply: the connection is closed, and on success the
      manifest is requested before the connection is reopened; on failure
      the dialog rejects and nothing more is requested. */
  lemma DatabaseCompletion(s: Sys, reply: Reply, accept: bool, parseJson: seq<byte> -> Option<Json>)
    requires s.manager.currentOp == PlantDbFileDownloadOp && reply.ok
    ensures var t := Complete(s, reply, accept, parseJson);
      var failed := UpdateProperties.ReplacementFails(s.env.disk, s.env.dbPath);
      && t.env.syncAborted == s.env.syncAborted
      && (!failed ==>
            && t.issued == s.issued + [CloseDatabase, Get(Definitions.PLANT_DB_IMG_META_URL, PlantImageLicenseMeta), OpenDatabase]
            && t.manager == s.manager.(currentOp := PlantImageLicenseMeta)
            && t.env.plantDbRevision == s.manager.metadata.plantDbRevision
            && t.dialog.result == s.dialog.result)
      && (failed ==>
            && t.issued == s.issued + [CloseDatabase, OpenDatabase]
            && t.manager == s.manager.(currentOp := NoOp)
            && t.env.plantDbRevision == s.env.plantDbRevision
            && t.dialog.result == Rejected)
  {
    if UpdateProperties.ReplacementFails(s.env.disk, s.env.dbPath) {
      DatabaseFailureCompletion(s, reply, accept, parseJson);
    } else {
      DatabaseSuccessCompletion(s, reply, accept, parseJson);
    }
  }

  /** The successful half of `DatabaseCompletion`. */
  lemma DatabaseSuccessCompletion(s: Sys, reply: Reply, accept: bool, parseJson: seq<byte> -> Option<Json>)
    requires s.manager.currentOp == PlantDbFileDownloadOp && reply.ok
    requires !UpdateProperties.ReplacementFails(s.env.disk, s.env.dbPath)
    ensures var t := Complete(s, reply, accept, parseJson);
      && t.env.syncAborted == s.env.syncAborted
      && t.issued == s.issued + [CloseDatabase, Get(Definitions.PLANT_DB_IMG_META_URL, PlantImageLicenseMeta), OpenDatabase]
      && t.manager == s.manager.(currentOp := PlantImageLicenseMeta)
      && t.env.plantDbRevision == s.manager.metadata.plantDbRevision
      && t.dialog.result == s.dialog.result
  {
    var o := OnReply(s.manager, s.env, reply, accept);
    UpdateProperties.DatabaseReplaced(s.manager, s.env, reply, accept);
    var sig := o.effects[1].signal;
    var s1 := s.(manager := o.manager, env := o.env);
    DeliverBetweenClose(s1, sig, parseJson);
    DeliverPlainCall(s1.(issued := s1.issued + [CloseDatabase]), sig, parseJson);
  }

  /** The failing half of `DatabaseCompletion`. */
  lemma DatabaseFailureCompletion(s: Sys, reply: Reply, accept: bool, parseJson: seq<byte> -> Option<Json>)
    requires s.manager.currentOp == PlantDbFileDownloadOp && reply.ok
    requires UpdateProperties.ReplacementFails(s.env.disk, s.env.dbPath)
    ensures var t := Complete(s, reply, accept, parseJson);
      && t.env.syncAborted == s.env.syncAborted
      && t.issued == s.issued + [CloseDatabase, OpenDatabase]
      && t.manager == s.manager.(currentOp := NoOp)
      && t.env.plantDbRevision == s.env.plantDbRevision
      && t.dialog.result == Rejected
  {
    var o := OnReply(s.manager, s.env, reply, accept);
    UpdateProperties.DatabaseReplaced(s.manager, s.env, reply, accept);
    var sig := o.effects[1].signal;
    var s1 := s.(manager := o.manager, env := o.env);
    DeliverBetweenClose(s1, sig, parseJson);
    DeliverNoCall(s1.(issued := s1.issued + [CloseDatabase]), sig, parseJson);
  }

  /** A signal delivered between closing and reopening the database: the
      close leaves first, then the signal is handled, then the reopen
      leaves. */
  lemma DeliverBetweenClose(s1: Sys, sig: Signal, parseJson: seq<byte> -> Option<Json>)
    requires RankedBelow([CloseDatabase, Emit(sig), OpenDatabase], 3)
    ensures var s2 := s1.(issued := s1.issued + [CloseDatabase]);
      var s3 := DeliverOne(s2, Emit(sig), parseJson);
      DeliverAll(s1, [CloseDatabase, Emit(sig), OpenDatabase], 3, parseJson) == s3.(issued := s3.issued + [OpenDatabase])
  {
    assert [CloseDatabase, Emit(sig), OpenDatabase] == [CloseDatabase] + ([Emit(sig)] + [OpenDatabase]);
    DeliverAppend(s1, [CloseDatabase], [Emit(sig)] + [OpenDatabase], 3, parseJson);
    DeliverNoSignals(s1, [CloseDatabase], 3, parseJson);
    var s2 := s1.(issued := s1.issued + [CloseDatabase]);
    DeliverAppend(s2, [Emit(sig)], [OpenDatabase], 3, parseJson);
    DeliverCons(s2, [Emit(sig)], 3, parseJson);
    DeliverNoSignals(DeliverOne(s2, Emit(sig), parseJson), [OpenDatabase], 3, parseJson);
  }

  /** The manifest reply: the manifest is stored, then read back by the
      dialog; invalid JSON rejects without a request; otherwise the records
      replace the dialog's, the download set becomes the queue, and its
      first file is requested, or the changelog when there is nothing to
      fetch. */
  lemma ManifestCompletion(s: Sys, reply: Reply, accept: bool, parseJson: seq<byte> -> Option<Json>)
    requires s.manager.currentOp == PlantImageLicenseMeta && reply.ok
    requires s.env.imageMetaJsonPath !in s.env.disk.faults.unopenable
    ensures var t := Complete(s, reply, accept, parseJson);
      var doc := parseJson(reply.body);
      && t.env == s.env.(disk := s.env.disk.(files := s.env.disk.files[s.env.imageMetaJsonPath := reply.body]))
      && (doc.None? ==>
            && t.issued == s.issued && t.dialog.result == Rejected
            && t.manager == s.manager.(currentOp := NoOp))
      && (doc.Some? ==>
            var records := ParseImageMetadataJson(doc.value);
            var files := FilesToDownload(FileNames(records), s.env.localFiles);
            && t.dialog.plantImages == records
            && t.dialog.result == s.dialog.result
            && t.manager.toDownload == files
            && (files == [] ==>
                  && t.issued == s.issued + [Get(Definitions.PLANT_DB_CHANGELOG, PlantDbChangelogFileDownloadOp)]
                  && t.manager.currentOp == PlantDbChangelogFileDownloadOp)
            && (files != [] ==>
                  && t.issued == s.issued + [Get(Definitions.PLANT_DB_IMG_URL + files[0], PlantImageFileDownloadOp)]
                  && t.manager.currentOp == PlantImageFileDownloadOp))
  {
    var o := OnReply(s.manager, s.env, reply, accept);
    assert o == HandleImageMeta(s.manager.(currentOp := NoOp), s.env, reply.body);
    var s1 := s.(manager := o.manager, env := o.env);
    DeliverCons(s1, o.effects, 3, parseJson);
    assert ReadFile(s1.env.disk, s1.env.imageMetaJsonPath) == Some(reply.body);
    var re := OnSignal(s1.dialog, s1.env, PlantImgMetadataFileReady, parseJson);
    if re.call.Some? {
      var s2 := s1.(dialog := re.dialog, env := re.env);
      DeliverImageBatch(s2, re.call.value.files, parseJson);
    }
  }

  /** An image reply whose file can be written: the file is stored, its
      name leaves the queue, and the next file is requested, or the
      changelog once the queue is empty. */
  lemma ImageFileCompletion(s: Sys, reply: Reply, accept: bool, parseJson: seq<byte> -> Option<Json>)
    requires s.manager.currentOp == PlantImageFileDownloadOp && reply.ok
    requires s.env.filesDir + UrlFileName(reply.url) !in s.env.disk.faults.unopenable
    ensures var t := Complete(s, reply, accept, parseJson);
      var name := UrlFileName(reply.url);
      var q := RemoveOne(s.manager.toDownload, name);
      && t.env == s.env.(disk := s.env.disk.(files := s.env.disk.files[s.env.filesDir + name := reply.body]))
      && t.manager.toDownload == q
      && t.dialog.result == s.dialog.result
      && (q != [] ==>
            && t.issued == s.issued + [Get(Definitions.PLANT_DB_IMG_URL + q[0], PlantImageFileDownloadOp)]
            && t.manager.currentOp == PlantImageFileDownloadOp)
      && (q == [] ==>
            && t.issued == s.issued + [Get(Definitions.PLANT_DB_CHANGELOG, PlantDbChangelogFileDownloadOp)]
            && t.manager.currentOp == PlantDbChangelogFileDownloadOp)
  {
    var o := OnReply(s.manager, s.env, reply, accept);
    UpdateProperties.ImageWritten(s.manager, s.env, reply, accept);
    assert o.effects == [Emit(IncrementTotalProgressStep)] + o.effects[1..];
    DeliverImageEffects(s.(manager := o.manager, env := o.env), o.effects[1..], parseJson);
  }

  /** What follows a written image: the increment changes nothing, then
      either the next file's announcement and request, or the completion
      that leads the dialog to the changelog. */
  lemma DeliverImageEffects(s: Sys, rest: seq<Effect>, parseJson: seq<byte> -> Option<Json>)
    requires var q := s.manager.toDownload;
      && (q != [] ==> rest == [Emit(PlantImgFileDownloadStarted(q[0])),
                               Get(Definitions.PLANT_DB_IMG_URL + q[0], PlantImageFileDownloadOp)])
      && (q == [] ==> rest == [Emit(AllImageFilesDownloaded)])
    ensures RankedBelow([Emit(IncrementTotalProgressStep)] + rest, 3)
    ensures var t := DeliverAll(s, [Emit(IncrementTotalProgressStep)] + rest, 3, parseJson);
      var q := s.manager.toDownload;
      && t.env == s.env && t.manager.toDownload == q && t.dialog.result == s.dialog.result
      && (q != [] ==> t.issued == s.issued + [rest[1]] && t.manager.currentOp == s.manager.currentOp)
      && (q == [] ==>
            && t.issued == s.issued + [Get(Definitions.PLANT_DB_CHANGELOG, PlantDbChangelogFileDownloadOp)]
            && t.manager.currentOp == PlantDbChangelogFileDownloadOp)
  {
    if s.manager.toDownload == [] {
      DeliverLastImage(s, parseJson);
      DeliverAfterIncrement(s, rest, parseJson);
    } else {
      DeliverNextImage(s, rest, parseJson);
      DeliverAfterIncrement(s, rest, parseJson);
    }
  }

  /** The completion of the last file leads the dialog to the changelog. */
  lemma DeliverLastImage(s: Sys, parseJson: seq<byte> -> Option<Json>)
    requires s.manager.toDownload == []
    ensures RankedBelow([Emit(AllImageFilesDownloaded)], 3)
    ensures var t := DeliverAll(s, [Emit(AllImageFilesDownloaded)], 3, parseJson);
      && t.env == s.env && t.manager.toDownload == [] && t.dialog.result == s.dialog.result
      && t.issued == s.issued + [Get(Definitions.PLANT_DB_CHANGELOG, PlantDbChangelogFileDownloadOp)]
      && t.manager.currentOp == PlantDbChangelogFileDownloadOp
  {
    DeliverCons(s, [Emit(AllImageFilesDownloaded)], 3, parseJson);
    DeliverPlainCall(s, AllImageFilesDownloaded, parseJson);
  }

  /** The step increment changes nothing. */
  lemma DeliverAfterIncrement(s: Sys, rest: seq<Effect>, parseJson: seq<byte> -> Option<Json>)
    requires RankedBelow(rest, 3)
    ensures RankedBelow([Emit(IncrementTotalProgressStep)] + rest, 3)
    ensures DeliverAll(s, [Emit(IncrementTotalProgressStep)] + rest, 3, parseJson) == DeliverAll(s, rest, 3, parseJson)
  {
    var inc := Emit(IncrementTotalProgressStep);
    assert RankedBelow([inc] + rest, 3);
    DeliverCons(s, [inc] + rest, 3, parseJson);
    assert ([inc] + rest)[1..] == rest;
    DeliverIgnored(s, IncrementTotalProgressStep, parseJson);
  }

  /** The next file's announcement changes only the dialog's label, and
      its request leaves the system. */
  lemma DeliverNextImage(s: Sys, rest: seq<Effect>, parseJson: seq<byte> -> Option<Json>)
    requires s.manager.toDownload != []
    requires rest == [Emit(PlantImgFileDownloadStarted(s.manager.toDownload[0])),
                      Get(Definitions.PLANT_DB_IMG_URL + s.manager.toDownload[0], PlantImageFileDownloadOp)]
    ensures RankedBelow(rest, 3)
    ensures var t := DeliverAll(s, rest, 3, parseJson);
      && t.env == s.env && t.manager == s.manager && t.dialog.result == s.dialog.result
      && t.issued == s.issued + [rest[1]]
  {
    DeliverCons(s, rest, 3, parseJson);
    DeliverNoSignals(DeliverOne(s, rest[0], parseJson), rest[1..], 3, parseJson);
  }

  /** An error signal: the dialog rejects, nothing else changes. */
  lemma DeliverError(s: Sys, sig: Signal, parseJson: seq<byte> -> Option<Json>)
    requires sig == NetworkRequestError || sig == PlantDatabaseUpdateError
          || sig == PlantImgMetadataFileError || sig == PlantImgWriteFileError
    ensures RankedBelow([Emit(sig)], 3)
    ensures DeliverAll(s, [Emit(sig)], 3, parseJson) == s.(dialog := s.dialog.(result := Rejected))
  {
    DeliverCons(s, [Emit(sig)], 3, parseJson);
  }

  /** An image reply whose file cannot be written rejects the dialog and
      requests nothing; the queue stays as it was. */
  lemma ImageFileRefused(s: Sys, reply: Reply, accept: bool, parseJson: seq<byte> -> Option<Json>)
    requires s.manager.currentOp == PlantImageFileDownloadOp && reply.ok
    requires s.env.filesDir + UrlFileName(reply.url) in s.env.disk.faults.unopenable
    ensures var t := Complete(s, reply, accept, parseJson);
      && t.issued == s.issued && t.dialog.result == Rejected
      && t.manager == s.manager.(currentOp := NoOp) && t.env == s.env
  {
    var o := OnReply(s.manager, s.env, reply, accept);
    UpdateProperties.ImageWriteRefused(s.manager, s.env, reply, accept);
    DeliverError(s.(manager := o.manager, env := o.env), PlantImgWriteFileError, parseJson);
  }

  /** The changelog reply: its text becomes the dialog's update notes and
      the notices are requested. */
  lemma ChangelogCompletion(s: Sys, reply: Reply, accept: bool, parseJson: seq<byte> -> Option<Json>)
    requires s.manager.currentOp == PlantDbChangelogFileDownloadOp && reply.ok
    ensures var t := Complete(s, reply, accept, parseJson);
      && t.issued == s.issued + [Get(Definitions.PLANT_DB_NOTICE, PlantDbEventsFileDownloadOp)]
      && t.manager == s.manager.(currentOp := PlantDbEventsFileDownloadOp)
      && t.env == s.env
      && t.dialog.updateNotes == FromByteArray(reply.body)
      && t.dialog.result == s.dialog.result
  {
    var o := OnReply(s.manager, s.env, reply, accept);
    var s1 := s.(manager := o.manager, env := o.env);
    DeliverCons(s1, o.effects, 3, parseJson);
    DeliverPlainCall(s1, PlantDbChangelogRequestCompleted(FromByteArray(reply.body)), parseJson);
  }

  /** The notices reply ends the sync: its text becomes the event notes,
      the aborted flag is cleared, obsolete files are removed, and nothing
      more is requested. */
  lemma EventsCompletion(s: Sys, reply: Reply, accept: bool, parseJson: seq<byte> -> Option<Json>)
    requires s.manager.currentOp == PlantDbEventsFileDownloadOp && reply.ok
    ensures var t := Complete(s, reply, accept, parseJson);
      && t.issued == s.issued
      && t.manager == s.manager.(currentOp := NoOp)
      && t.env == s.env.(syncAborted := false,
                         disk := RemoveEach(s.env.disk, s.env.filesDir, s.env.obsoleteFiles))
      && t.dialog.eventNotes == FromByteArray(reply.body)
      && t.dialog.nextEnabled
      && t.dialog.result == s.dialog.result
  {
    var o := OnReply(s.manager, s.env, reply, accept);
    var s1 := s.(manager := o.manager, env := o.env);
    DeliverCons(s1, o.effects, 3, parseJson);
  }

  /** A transport error on any step of the sync rejects the dialog and
      requests nothing; the store is untouched. */
  lemma TransportErrorRejects(s: Sys, reply: Reply, accept: bool, parseJson: seq<byte> -> Option<Json>)
    requires s.manager.currentOp != CheckUpdatesOp && !reply.ok
    ensures var t := Complete(s, reply, accept, parseJson);
      && t.issued == s.issued
      && t.manager == s.manager.(currentOp := NoOp)
      && t.env == s.env
      && t.dialog.result == Rejected
  {
    var o := OnReply(s.manager, s.env, reply, accept);
    var s1 := s.(manager := o.manager, env := o.env);
    DeliverCons(s1, o.effects, 3, parseJson);
  }

  /** A manifest reply that cannot be stored rejects the dialog and
      requests nothing. */
  lemma ManifestWriteRefused(s: Sys, reply: Reply, accept: bool, parseJson: seq<byte> -> Option<Json>)
    requires s.manager.currentOp == PlantImageLicenseMeta && reply.ok
    requires s.env.imageMetaJsonPath in s.env.disk.faults.unopenable
    ensures var t := Complete(s, reply, accept, parseJson);
      && t.issued == s.issued && t.dialog.result == Rejected
      && t.manager == s.manager.(currentOp := NoOp) && t.env == s.env
  {
    var o := OnReply(s.manager, s.env, reply, accept);
    assert o.effects == [Emit(PlantImgMetadataFileError)];
    DeliverError(s.(manager := o.manager, env := o.env), PlantImgMetadataFileError, parseJson);
  }

  // ---------------------------------------------------------------------------
  // The update check, seen from the whole system
  // ---------------------------------------------------------------------------

  /** Signals the sync dialog has no slot for. */
  predicate Unheard(sig: Signal) {
    sig == NoUpdateSignal || sig == PlantDatabaseUpdateSignal || sig == UpdateErrorSignal || sig == UpdatesAccepted
  }

  /** The effects of a list that leave the system, in order. */
  function Departures(effects: seq<Effect>): (r: seq<Effect>)
    ensures forall i :: 0 <= i < |r| ==> !r[i].Emit?
    ensures |r| <= |effects|
  {
    if effects == [] then []
    else (if effects[0].Emit? then [] else [effects[0]]) + Departures(effects[1..])
  }

  /** Effects whose signals the dialog does not hear change nothing but
      the record of what left the system. */
  lemma {:induction false} DeliverUnheard(s: Sys, effects: seq<Effect>, bound: nat, parseJson: seq<byte> -> Option<Json>)
    requires bound >= 1
    requires forall i :: 0 <= i < |effects| && effects[i].Emit? ==> Unheard(effects[i].signal)
    ensures RankedBelow(effects, bound)
    ensures DeliverAll(s, effects, bound, parseJson) == s.(issued := s.issued + Departures(effects))
    decreases |effects|
  {
    if effects == [] {
      assert s.issued + [] == s.issued;
    } else {
      assert RankedBelow(effects, bound);
      DeliverCons(s, effects, bound, parseJson);
      var s1 := DeliverOne(s, effects[0], parseJson);
      assert s1 == s.(issued := s.issued + Departures([effects[0]]));
      DeliverUnheard(s1, effects[1..], bound, parseJson);
      assert effects == [effects[0]] + effects[1..];
      assert s.issued + Departures([effects[0]]) + Departures(effects[1..]) == s.issued + Departures(effects);
    }
  }

  /** What each decision sends out of the system: the download page when
      a software update is accepted, nothing otherwise. */
  lemma DecisionDepartures(d: CheckDecision, accept: bool)
    ensures var e := DecisionEffects(d, accept);
      && (forall i :: 0 <= i < |e| && e[i].Emit? ==> Unheard(e[i].signal))
      && Departures(e) == if d == SoftwareUpdate && accept then [OpenDownloadPage] else []
  {
    var e := DecisionEffects(d, accept);
    if d == SoftwareUpdate && accept {
      assert e == [OpenDownloadPage, Emit(UpdatesAccepted)];
      assert e[1..] == [Emit(UpdatesAccepted)];
    }
  }

  /** An update check completion leaves the sync dialog and the store
      alone, empties the slot, and sends out at most the download page,
      which it does exactly when the reply parses, names a newer software
      build, and the user accepts. */
  lemma CheckCompletion(s: Sys, reply: Reply, accept: bool, parseJson: seq<byte> -> Option<Json>)
    requires s.manager.currentOp == CheckUpdatesOp
    ensures var t := Complete(s, reply, accept, parseJson);
      var text := FromByteArray(reply.body);
      var p := ParseUpdateMetadata(text, s.manager.metadata);
      && t.env == s.env && t.dialog == s.dialog
      && t.manager.currentOp == NoOp && t.manager.toDownload == s.manager.toDownload
      && (text != [] && p.ok && p.metadata.softwareBuild > Definitions.SOFTWARE_BUILD && accept ==>
            t.issued == s.issued + [OpenDownloadPage])
      && (!(text != [] && p.ok && p.metadata.softwareBuild > Definitions.SOFTWARE_BUILD && accept) ==>
            t.issued == s.issued)
  {
    var text := FromByteArray(reply.body);
    var o := OnReply(s.manager, s.env, reply, accept);
    assert o == HandleCheck(s.manager.(currentOp := NoOp), s.env, text, accept);
    CheckEffectsUnheard(s.manager.(currentOp := NoOp), s.env, text, accept);
    DeliverUnheard(s.(manager := o.manager, env := o.env), o.effects, 3, parseJson);
  }

  /** The check handler's signals are all ones the dialog does not hear,
      and only an accepted software update sends anything out. */
  lemma CheckEffectsUnheard(m: Manager, env: Env, text: string, accept: bool)
    ensures var o := HandleCheck(m, env, text, accept);
      var p := ParseUpdateMetadata(text, m.metadata);
      && o.env == env && o.manager.currentOp == m.currentOp && o.manager.toDownload == m.toDownload
      && (forall i :: 0 <= i < |o.effects| && o.effects[i].Emit? ==> Unheard(o.effects[i].signal))
      && Departures(o.effects) ==
           if text != [] && p.ok && p.metadata.softwareBuild > Definitions.SOFTWARE_BUILD && accept
           then [OpenDownloadPage] else []
  {
    CheckSignalsUnheard(m, env, text, accept);
    CheckDepartures(m, env, text, accept);
  }

  /** Every signal of the check handler is one the dialog does not hear. */
  lemma CheckSignalsUnheard(m: Manager, env: Env, text: string, accept: bool)
    ensures var o := HandleCheck(m, env, text, accept);
      forall i :: 0 <= i < |o.effects| && o.effects[i].Emit? ==> Unheard(o.effects[i].signal)
  {
    var o := HandleCheck(m, env, text, accept);
    if text != [] {
      var p := ParseUpdateMetadata(text, m.metadata);
      if p.ok {
        DecisionDepartures(Decide(p.metadata, env.plantDbRevision, env.syncAborted), accept);
      }
    }
  }

  /** The check handler sends out the download page exactly when the reply
      parses, names a newer build and the user accepts, and nothing else. */
  lemma CheckDepartures(m: Manager, env: Env, text: string, accept: bool)
    ensures var p := ParseUpdateMetadata(text, m.metadata);
      Departures(HandleCheck(m, env, text, accept).effects) ==
        if text != [] && p.ok && p.metadata.softwareBuild > Definitions.SOFTWARE_BUILD && accept
        then [OpenDownloadPage] else []
  {
    if text != [] {
      var p := ParseUpdateMetadata(text, m.metadata);
      if p.ok {
        DecisionDepartures(Decide(p.metadata, env.plantDbRevision, env.syncAborted), accept);
      } else {
        assert HandleCheck(m, env, text, accept).effects == [Emit(UpdateErrorSignal)];
      }
    } else {
      assert HandleCheck(m, env, text, accept).effects == [Emit(UpdateErrorSignal)];
    }
  }

  // ---------------------------------------------------------------------------
  // Whole-system invariants
  // ---------------------------------------------------------------------------

  /** Delivery without a notices signal leaves the store untouched: only
      the notices slot writes to it, and the manager calls the dialog makes
      never do. */
  lemma {:induction false} DeliverAllKeepsStore(s: Sys, effects: seq<Effect>, bound: nat, parseJson: seq<byte> -> Option<Json>)
    requires RankedBelow(effects, bound)
    requires forall i :: 0 <= i < |effects| && effects[i].Emit? ==> !effects[i].signal.PlantDbEventsRequestCompleted?
    ensures DeliverAll(s, effects, bound, parseJson).env == s.env
    decreases bound, 1, |effects|
  {
    if effects != [] {
      DeliverCons(s, effects, bound, parseJson);
      DeliverOneKeepsStore(s, effects[0], parseJson);
      DeliverAllKeepsStore(DeliverOne(s, effects[0], parseJson), effects[1..], bound, parseJson);
    }
  }

  lemma {:induction false} DeliverOneKeepsStore(s: Sys, e: Effect, parseJson: seq<byte> -> Option<Json>)
    requires !(e.Emit? && e.signal.PlantDbEventsRequestCompleted?)
    ensures DeliverOne(s, e, parseJson).env == s.env
    decreases if e.Emit? then SignalRank(e.signal) + 1 else 0, 0, 0
  {
    if e.Emit? {
      var re := OnSignal(s.dialog, s.env, e.signal, parseJson);
      OnlyNoticesClearAbortedFlag(s.dialog, s.env, e.signal, parseJson);
      if re.call.Some? {
        CallWithinRank(s.dialog, s.env, e.signal, parseJson);
        var s0 := s.(dialog := re.dialog, env := re.env);
        var o := ApplyCall(s0.manager, s0.env, re.call.value);
        DeliverAllKeepsStore(s0.(manager := o.manager, env := o.env), o.effects, SignalRank(e.signal), parseJson);
      }
    }
  }

  /** The manager reports the notices only for a successful notices
      request, and its completion handler touches the aborted flag never. */
  lemma NoticesOnlyFromNoticesRequest(m: Manager, env: Env, reply: Reply, accept: bool)
    requires !(m.currentOp == PlantDbEventsFileDownloadOp && reply.ok)
    ensures var o := OnReply(m, env, reply, accept);
      && o.env.syncAborted == env.syncAborted
      && forall i :: 0 <= i < |o.effects| && o.effects[i].Emit? ==> !o.effects[i].signal.PlantDbEventsRequestCompleted?
  {
    if !reply.ok && m.currentOp != CheckUpdatesOp {
      UpdateProperties.TransportErrorReportsNetworkError(m, env, reply, accept);
    } else if m.currentOp == CheckUpdatesOp {
      CheckKeepsNotices(m, env, reply, accept);
    } else if m.currentOp == PlantDbFileDownloadOp {
      DatabaseKeepsNotices(m, env, reply, accept);
    } else if m.currentOp == PlantImageFileDownloadOp {
      ImageKeepsNotices(m, env, reply, accept);
    }
  }

  /** The outcome neither reports the notices nor touches the aborted flag. */
  predicate KeepsNotices(o: Outcome, env: Env) {
    && o.env.syncAborted == env.syncAborted
    && forall i :: 0 <= i < |o.effects| && o.effects[i].Emit? ==> !o.effects[i].signal.PlantDbEventsRequestCompleted?
  }

  /** The update check's completion, in whatever way it ends. */
  lemma CheckKeepsNotices(m: Manager, env: Env, reply: Reply, accept: bool)
    requires m.currentOp == CheckUpdatesOp
    ensures KeepsNotices(OnReply(m, env, reply, accept), env)
  {
    var text := FromByteArray(reply.body);
    assert OnReply(m, env, reply, accept) == HandleCheck(m.(currentOp := NoOp), env, text, accept);
    CheckSignalsUnheard(m.(currentOp := NoOp), env, text, accept);
  }

  /** A downloaded database, installed or not. */
  lemma DatabaseKeepsNotices(m: Manager, env: Env, reply: Reply, accept: bool)
    requires m.currentOp == PlantDbFileDownloadOp && reply.ok
    ensures KeepsNotices(OnReply(m, env, reply, accept), env)
  {
    UpdateProperties.DatabaseReplaced(m, env, reply, accept);
  }

  /** A downloaded image, written or refused. */
  lemma ImageKeepsNotices(m: Manager, env: Env, reply: Reply, accept: bool)
    requires m.currentOp == PlantImageFileDownloadOp && reply.ok
    ensures KeepsNotices(OnReply(m, env, reply, accept), env)
  {
    if env.filesDir + UrlFileName(reply.url) in env.disk.faults.unopenable {
      UpdateProperties.ImageWriteRefused(m, env, reply, accept);
    } else {
      WrittenImageKeepsNotices(m, env, reply, accept);
    }
  }

  /** A downloaded image that was written. */
  lemma WrittenImageKeepsNotices(m: Manager, env: Env, reply: Reply, accept: bool)
    requires m.currentOp == PlantImageFileDownloadOp && reply.ok
    requires env.filesDir + UrlFileName(reply.url) !in env.disk.faults.unopenable
    ensures KeepsNotices(OnReply(m, env, reply, accept), env)
  {
    var name := UrlFileName(reply.url);
    var m0 := m.(currentOp := NoOp);
    assert OnReply(m, env, reply, accept) == HandleImageFile(m0, env, name, reply.body);
    ImageFileKeepsNotices(m0, env, name, reply.body);
  }

  /** The image handler after a successful write reports progress and the
      next step, never the notices, and leaves the settings alone. */
  lemma ImageFileKeepsNotices(m: Manager, env: Env, name: string, body: seq<byte>)
    requires env.filesDir + name !in env.disk.faults.unopenable
    ensures KeepsNotices(HandleImageFile(m, env, name, body), env)
  {
    var o := HandleImageFile(m, env, name, body);
    var env1 := env.(disk := WriteFile(env.disk, env.filesDir + name, body).disk);
    var q := RemoveOne(m.toDownload, name);
    assert o.env.syncAborted == env.syncAborted;
    if q != [] {
      var d := DownloadImageFile(m.(toDownload := q), env1, q[0]);
      assert o.effects == [Emit(IncrementTotalProgressStep)] + d.effects;
      assert o.effects[1] == Emit(PlantImgFileDownloadStarted(q[0]));
      assert !o.effects[2].Emit?;
    } else {
      assert o.effects == [Emit(IncrementTotalProgressStep), Emit(AllImageFilesDownloaded)];
    }
  }






  /** The aborted flag, across any completion: it changes only when the
      notices of a sync arrive, and then it is cleared. A sync that stops
      anywhere earlier leaves it set. */
  lemma AbortedFlagClearedOnlyByNotices(s: Sys, reply: Reply, accept: bool, parseJson: seq<byte> -> Option<Json>)
    ensures var t := Complete(s, reply, accept, parseJson);
      && (s.manager.currentOp == PlantDbEventsFileDownloadOp && reply.ok ==> !t.env.syncAborted)
      && (!(s.manager.currentOp == PlantDbEventsFileDownloadOp && reply.ok) ==>
            t.env.syncAborted == s.env.syncAborted)
  {
    if s.manager.currentOp == PlantDbEventsFileDownloadOp && reply.ok {
      EventsCompletion(s, reply, accept, parseJson);
    } else {
      var o := OnReply(s.manager, s.env, reply, accept);
      NoticesOnlyFromNoticesRequest(s.manager, s.env, reply, accept);
      DeliverAllKeepsStore(s.(manager := o.manager, env := o.env), o.effects, 3, parseJson);
    }
  }

  /** A successful completion nobody is waiting for changes nothing at
      all. */
  lemma StrayCompletion(s: Sys, reply: Reply, accept: bool, parseJson: seq<byte> -> Option<Json>)
    requires s.manager.currentOp == NoOp && reply.ok
    ensures Complete(s, reply, accept, parseJson) == s
  {
  }

  /** At most one request is in flight: a completion sends out at most one
      new request, and afterwards the slot names the operation of that
      request, or `NoOp` when there is none. */
  predicate SingleFlight(s: Sys, t: Sys) {
    && |s.issued| <= |t.issued| && t.issued[..|s.issued|] == s.issued
    && var sent := Requests(t.issued[|s.issued|..]);
    && |sent| <= 1
    && (sent == [] ==> t.manager.currentOp == NoOp)
    && (sent != [] ==> t.manager.currentOp == sent[0].op)
  }

  /** `SingleFlight` for a system that sent out `sent`. */
  lemma SingleFlightOf(s: Sys, t: Sys, sent: seq<Effect>)
    requires t.issued == s.issued + sent
    requires Requests(sent) == [] ==> t.manager.currentOp == NoOp
    requires |Requests(sent)| == 1 ==> t.manager.currentOp == Requests(sent)[0].op
    requires |Requests(sent)| <= 1
    ensures SingleFlight(s, t)
  {
    assert t.issued[..|s.issued|] == s.issued;
    assert t.issued[|s.issued|..] == sent;
  }

  /** The requests of the shapes a completion sends out. */
  lemma RequestsOfShapes(g: Effect)
    requires g.Get?
    ensures Requests([]) == []
    ensures Requests([g]) == [g]
    ensures Requests([OpenDownloadPage]) == []
    ensures Requests([CloseDatabase, OpenDatabase]) == []
    ensures Requests([CloseDatabase, g, OpenDatabase]) == [g]
  {
    assert [CloseDatabase, OpenDatabase][1..] == [OpenDatabase];
    assert [CloseDatabase, g, OpenDatabase][1..] == [g, OpenDatabase];
    assert [g, OpenDatabase][1..] == [OpenDatabase];
  }

  /** Every completion keeps at most one request in flight. */
  lemma OneRequestInFlight(s: Sys, reply: Reply, accept: bool, parseJson: seq<byte> -> Option<Json>)
    ensures SingleFlight(s, Complete(s, reply, accept, parseJson))
  {
    var t := Complete(s, reply, accept, parseJson);
    var op := s.manager.currentOp;
    if op == CheckUpdatesOp {
      CheckCompletion(s, reply, accept, parseJson);
      RequestsOfShapes(Get(Definitions.UPDATE_URL, CheckUpdatesOp));
      if t.issued == s.issued {
        SingleFlightOf(s, t, []);
      } else {
        SingleFlightOf(s, t, [OpenDownloadPage]);
      }
    } else if !reply.ok {
      TransportErrorRejects(s, reply, accept, parseJson);
      RequestsOfShapes(Get(Definitions.UPDATE_URL, CheckUpdatesOp));
      SingleFlightOf(s, t, []);
    } else {
      FlightOfSuccess(s, reply, accept, parseJson);
    }
  }

  /** `OneRequestInFlight` for a delivered reply on a sync step. */
  lemma FlightOfSuccess(s: Sys, reply: Reply, accept: bool, parseJson: seq<byte> -> Option<Json>)
    requires s.manager.currentOp != CheckUpdatesOp && reply.ok
    ensures SingleFlight(s, Complete(s, reply, accept, parseJson))
  {
    var op := s.manager.currentOp;
    if op == PlantImageLicenseMeta || op == PlantImageFileDownloadOp {
      FlightOfImages(s, reply, accept, parseJson);
    } else if op == PlantDbFileDownloadOp {
      FlightOfDatabase(s, reply, accept, parseJson);
    } else {
      FlightOfPlainStep(s, reply, accept, parseJson);
    }
  }

  lemma FlightOfPlainStep(s: Sys, reply: Reply, accept: bool, parseJson: seq<byte> -> Option<Json>)
    requires s.manager.currentOp in {NoOp, UpdatesMetadataDownloadOp, PlantDbChangelogFileDownloadOp,
                                     PlantDbEventsFileDownloadOp}
    requires reply.ok
    ensures SingleFlight(s, Complete(s, reply, accept, parseJson))
  {
    var t := Complete(s, reply, accept, parseJson);
    if s.manager.currentOp == NoOp {
      StrayCompletion(s, reply, accept, parseJson);
    } else if s.manager.currentOp == UpdatesMetadataDownloadOp {
      MetadataCompletion(s, reply, accept, parseJson);
    } else if s.manager.currentOp == PlantDbChangelogFileDownloadOp {
      ChangelogCompletion(s, reply, accept, parseJson);
    } else {
      EventsCompletion(s, reply, accept, parseJson);
    }
    FlightOfIssue(s, t);
  }

  lemma FlightOfDatabase(s: Sys, reply: Reply, accept: bool, parseJson: seq<byte> -> Option<Json>)
    requires s.manager.currentOp == PlantDbFileDownloadOp && reply.ok
    ensures SingleFlight(s, Complete(s, reply, accept, parseJson))
  {
    var t := Complete(s, reply, accept, parseJson);
    DatabaseCompletion(s, reply, accept, parseJson);
    var g := Get(Definitions.PLANT_DB_IMG_META_URL, PlantImageLicenseMeta);
    RequestsOfShapes(g);
    if UpdateProperties.ReplacementFails(s.env.disk, s.env.dbPath) {
      SingleFlightOf(s, t, [CloseDatabase, OpenDatabase]);
    } else {
      SingleFlightOf(s, t, [CloseDatabase, g, OpenDatabase]);
    }
  }

  lemma FlightOfImages(s: Sys, reply: Reply, accept: bool, parseJson: seq<byte> -> Option<Json>)
    requires s.manager.currentOp == PlantImageLicenseMeta || s.manager.currentOp == PlantImageFileDownloadOp
    requires reply.ok
    ensures SingleFlight(s, Complete(s, reply, accept, parseJson))
  {
    var t := Complete(s, reply, accept, parseJson);
    if s.manager.currentOp == PlantImageLicenseMeta {
      if s.env.imageMetaJsonPath in s.env.disk.faults.unopenable {
        ManifestWriteRefused(s, reply, accept, parseJson);
      } else {
        ManifestCompletion(s, reply, accept, parseJson);
      }
    } else {
      if s.env.filesDir + UrlFileName(reply.url) in s.env.disk.faults.unopenable {
        ImageFileRefused(s, reply, accept, parseJson);
      } else {
        ImageFileCompletion(s, reply, accept, parseJson);
      }
    }
    FlightOfIssue(s, t);
  }

  /** `SingleFlight` when nothing or a single request recorded in the slot
      was sent out. */
  lemma FlightOfIssue(s: Sys, t: Sys)
    requires t.issued == s.issued ==> t.manager.currentOp == NoOp
    requires t.issued != s.issued ==>
               && |t.issued| == |s.issued| + 1 && t.issued[..|s.issued|] == s.issued
               && t.issued[|s.issued|].Get? && t.manager.currentOp == t.issued[|s.issued|].op
    ensures SingleFlight(s, t)
  {
    if t.issued == s.issued {
      RequestsOfShapes(Get(Definitions.UPDATE_URL, CheckUpdatesOp));
      SingleFlightOf(s, t, []);
    } else {
      var g := t.issued[|s.issued|];
      assert t.issued == s.issued + [g];
      RequestsOfShapes(g);
      SingleFlightOf(s, t, [g]);
    }
  }

  // ---------------------------------------------------------------------------
  // Runs of completions
  // ---------------------------------------------------------------------------

  /** The system after a run of completions, in order. */
  function Run(s: Sys, replies: seq<Reply>, accept: bool, parseJson: seq<byte> -> Option<Json>): Sys
    decreases |replies|
  {
    if replies == [] then s
    else Run(Complete(s, replies[0], accept, parseJson), replies[1..], accept, parseJson)
  }

  /** Whether the notices of a sync arrive somewhere in the run. */
  predicate NoticesArrive(s: Sys, replies: seq<Reply>, accept: bool, parseJson: seq<byte> -> Option<Json>)
    decreases |replies|
  {
    && replies != []
    && ((s.manager.currentOp == PlantDbEventsFileDownloadOp && replies[0].ok)
        || NoticesArrive(Complete(s, replies[0], accept, parseJson), replies[1..], accept, parseJson))
  }

  /** Until the notices arrive, no run of completions touches the aborted
      flag. */
  lemma {:induction false} FlagSurvivesUntilNotices(s: Sys, replies: seq<Reply>, accept: bool,
                                                     parseJson: seq<byte> -> Option<Json>)
    requires !NoticesArrive(s, replies, accept, parseJson)
    ensures Run(s, replies, accept, parseJson).env.syncAborted == s.env.syncAborted
    decreases |replies|
  {
    if replies != [] {
      AbortedFlagClearedOnlyByNotices(s, replies[0], accept, parseJson);
      FlagSurvivesUntilNotices(Complete(s, replies[0], accept, parseJson), replies[1..], accept, parseJson);
    }
  }

  /** A sync that never received its notices is offered again: whatever
      happened after it started, and whatever the revisions, the next update
      check that finds no newer software and a database this build can open
      reports a plant database update. */
  lemma InterruptedSyncIsOfferedAgain(s: Sys, replies: seq<Reply>, check: Reply, accept: bool,
                                      parseJson: seq<byte> -> Option<Json>)
    requires !NoticesArrive(StartSync(s, parseJson), replies, accept, parseJson)
    requires var t := Run(StartSync(s, parseJson), replies, accept, parseJson);
      var p := ParseUpdateMetadata(FromByteArray(check.body), t.manager.metadata);
      && FromByteArray(check.body) != [] && p.ok
      && p.metadata.softwareBuild <= Definitions.SOFTWARE_BUILD
      && p.metadata.plantDbMinBuild <= Definitions.SOFTWARE_BUILD
    ensures var t := Run(StartSync(s, parseJson), replies, accept, parseJson);
      var c := CheckForUpdates(t.manager, t.env);
      Emit(PlantDatabaseUpdateSignal) in OnReply(c.manager, c.env, check, accept).effects
  {
    var t0 := StartSync(s, parseJson);
    SyncStarted(s, parseJson);
    FlagSurvivesUntilNotices(t0, replies, accept, parseJson);
    var t := Run(t0, replies, accept, parseJson);
    var c := CheckForUpdates(t.manager, t.env);
    UpdateProperties.CheckDecisionOutcome(c.manager, c.env, check, accept);
  }
}
