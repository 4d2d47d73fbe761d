/** The database sync dialog: the wizard that drives the update manager
    through metadata, database file, image manifest, images, changelog and
    notices, and owns the "last sync aborted" flag. Each slot is a pure
    function from the dialog and the local store to their new values plus
    at most one call into the manager, which every slot makes last. */
module DatabaseSync {
  import opened Common
  import opened QtString
  import opened LocalStore
  import opened Json
  import opened UpdateManager
  import Definitions

  // ---------------------------------------------------------------------------
  // Data model
  // ---------------------------------------------------------------------------

  /** Whether the dialog is still running or how it was closed. */
  datatype Result = Running | Accepted | Rejected

  /** The dialog's state: its result, the cached server revision, the
      image records of the last manifest, and the texts it shows. */
  datatype Dialog = Dialog(
    result: Result,
    latestPlantDbRevision: u64,
    plantImages: seq<PlantImageMetadata>,
    status: string,
    updateNotes: string,
    eventNotes: string,
    nextEnabled: bool)

  /** The dialog as constructed: running, revision 0, no images. */
  function NewDialog(): (d: Dialog)
    ensures d.result == Running && d.latestPlantDbRevision == 0 && d.plantImages == []
    ensures !d.nextEnabled
  {
    Dialog(Running, 0, [], "", "", "", false)
  }

  /** The manager entry point a slot ends with. */
  datatype Call =
    | LatestMetadataCall
    | DatabaseFileCall
    | ImageMetaCall
    | ImageFilesCall(files: seq<string>)
    | ChangelogCall
    | EventsCall

  /** What a slot leaves behind: the dialog, the local store, and the call
      it makes into the manager, if any. */
  datatype Reaction = Reaction(dialog: Dialog, env: Env, call: Option<Call>)

  // ---------------------------------------------------------------------------
  // The image manifest
  // ---------------------------------------------------------------------------

  /** The record one manifest element maps to: its "name", "license html"
      and "database file name" members, each "" when missing or not a
      string. */
  function ImageRecord(v: Json): (p: PlantImageMetadata)
    ensures p.plantName == ToText(Member(ToObject(v), "name"))
    ensures p.licenseString == ToText(Member(ToObject(v), "license html"))
    ensures p.filename == ToText(Member(ToObject(v), "database file name"))
  {
    var obj := ToObject(v);
    PlantImageMetadata(ToText(Member(obj, "name")), ToText(Member(obj, "license html")),
                       ToText(Member(obj, "database file name")))
  }

  /** `parseImageMetadataJson`: the previous list is dropped and one record
      is made per element of the document's "plant" array, in order; a
      document that is not an object, or has no such array, yields none. */
  function ParseImageMetadataJson(doc: Json): (r: seq<PlantImageMetadata>)
    ensures var plants := ToArray(Member(ToObject(doc), "plant"));
      |r| == |plants| && forall i :: 0 <= i < |r| ==> r[i] == ImageRecord(plants[i])
  {
    var plants := ToArray(Member(ToObject(doc), "plant"));
    seq(|plants|, i requires 0 <= i < |plants| => ImageRecord(plants[i]))
  }

  /** The manifest the server publishes for a list of records. */
  function ManifestJson(records: seq<PlantImageMetadata>): Json {
    JObject(map["plant" := JArray(seq(|records|, i requires 0 <= i < |records| => RecordJson(records[i])))])
  }

  function RecordJson(p: PlantImageMetadata): Json {
    JObject(map["name" := JString(p.plantName),
                "license html" := JString(p.licenseString),
                "database file name" := JString(p.filename)])
  }

  /** Reading a published manifest gives back exactly its records, in
      order. */
  lemma ManifestRoundTrip(records: seq<PlantImageMetadata>)
    ensures ParseImageMetadataJson(ManifestJson(records)) == records
  {
    var r := ParseImageMetadataJson(ManifestJson(records));
    forall i | 0 <= i < |records| ensures r[i] == records[i] {
      var obj := RecordJson(records[i]).fields;
      assert Member(obj, "name") == JString(records[i].plantName);
      assert Member(obj, "license html") == JString(records[i].licenseString);
      assert Member(obj, "database file name") == JString(records[i].filename);
    }
  }

  /** A document whose root is not an object (an array, say) has no
      records. */
  lemma NonObjectManifestIsEmpty(doc: Json)
    requires !doc.JObject?
    ensures ParseImageMetadataJson(doc) == []
  {
  }

  /** The file names of the records, in order. */
  function FileNames(records: seq<PlantImageMetadata>): (names: seq<string>)
    ensures |names| == |records|
    ensures forall i :: 0 <= i < |records| ==> names[i] == records[i].filename
  {
    seq(|records|, i requires 0 <= i < |records| => records[i].filename)
  }

  /** `downloadPlantImages`: the file names of the manifest that are not
      among the local files, in manifest order, repeats kept. */
  function FilesToDownload(names: seq<string>, local: seq<string>): (r: seq<string>)
    ensures forall x :: x in r <==> x in names && x !in local
    ensures |r| <= |names|
    decreases |names|
  {
    if names == [] then []
    else
      var rest := FilesToDownload(names[1..], local);
      assert forall x :: x in names <==> x == names[0] || x in names[1..] by {
        assert names == [names[0]] + names[1..];
      }
      if names[0] in local then rest else [names[0]] + rest
  }

  /** The download set of a concatenation is the concatenation of the
      download sets: the filter keeps manifest order. */
  lemma {:induction false} FilesToDownloadAppend(a: seq<string>, b: seq<string>, local: seq<string>)
    ensures FilesToDownload(a + b, local) == FilesToDownload(a, local) + FilesToDownload(b, local)
    decreases |a|
  {
    if a == [] {
      assert a + b == b;
    } else {
      assert (a + b)[0] == a[0];
      assert (a + b)[1..] == a[1..] + b;
      FilesToDownloadAppend(a[1..], b, local);
    }
  }

  /** Every name not held locally is downloaded as often as the manifest
      lists it; a name held locally is not downloaded at all. */
  lemma {:induction false} FilesToDownloadCounts(names: seq<string>, local: seq<string>, x: string)
    ensures multiset(FilesToDownload(names, local))[x] == if x in local then 0 else multiset(names)[x]
    decreases |names|
  {
    if names != [] {
      assert names == [names[0]] + names[1..];
      FilesToDownloadCounts(names[1..], local, x);
    }
  }

  // ---------------------------------------------------------------------------
  // The status label
  // ---------------------------------------------------------------------------

  /** `plantImgFileDownloadStartedSlot`: the name cut to its first seven
      characters, then "...", then the name with all but its last seven
      characters removed. */
  function StatusLabel(fileName: string): string {
    Truncated(fileName, 7) + "..." + RemovedFront(fileName, |fileName| - 7)
  }

  /** Names of seven characters or more show their first seven and last
      seven characters around "..."; shorter names show in full twice. */
  lemma StatusLabelShape(fileName: string)
    ensures |fileName| >= 7 ==>
              StatusLabel(fileName) == fileName[..7] + "..." + fileName[|fileName| - 7..]
    ensures |fileName| < 7 ==> StatusLabel(fileName) == fileName + "..." + fileName
    ensures |StatusLabel(fileName)| == 3 + 2 * (if |fileName| < 7 then |fileName| else 7)
  {
  }

  // ---------------------------------------------------------------------------
  // The slots
  // ---------------------------------------------------------------------------

  /** `startDatabaseSync`: ask for the server's metadata and mark the sync
      as incomplete. */
  function StartDatabaseSync(d: Dialog, env: Env): (r: Reaction)
    ensures r.env == env.(syncAborted := true)
    ensures r.call == Some(LatestMetadataCall)
    ensures r.dialog.result == d.result
  {
    Reaction(d.(status := "Checking revision..."), env.(syncAborted := true), Some(LatestMetadataCall))
  }

  /** `syncMetadataRequestResponse`: nothing for a null pointer; otherwise
      cache the revision, reject if this build cannot open the new
      database, and in either case request the database file. */
  function SyncMetadataResponse(d: Dialog, env: Env, metadata: Option<UpdateCheckMetadata>): (r: Reaction)
    ensures metadata.None? ==> r == Reaction(d, env, None)
    ensures metadata.Some? ==>
              && r.env == env
              && r.call == Some(DatabaseFileCall)
              && r.dialog.latestPlantDbRevision == metadata.value.plantDbRevision
              && (r.dialog.result == Rejected <==>
                    metadata.value.plantDbMinBuild > Definitions.SOFTWARE_BUILD || d.result == Rejected)
              && (metadata.value.plantDbMinBuild <= Definitions.SOFTWARE_BUILD ==> r.dialog.result == d.result)
  {
    if metadata.None? then Reaction(d, env, None)
    else
      var meta := metadata.value;
      var d1 := d.(latestPlantDbRevision := meta.plantDbRevision);
      var d2 := if meta.plantDbMinBuild > Definitions.SOFTWARE_BUILD then d1.(result := Rejected) else d1;
      Reaction(d2.(status := "data.db"), env, Some(DatabaseFileCall))
  }

  /** `plantImgMetadataFileReadySlot`: read the stored manifest and decode
      it with `parseJson` (the JSON reader, not modelled); an unreadable
      file or invalid JSON rejects the dialog and requests nothing;
      otherwise the records replace the previous ones and the files not
      held locally are requested. */
  function ImageMetadataReady(d: Dialog, env: Env, parseJson: seq<byte> -> Option<Json>): (r: Reaction)
    ensures r.env == env
    ensures var bytes := ReadFile(env.disk, env.imageMetaJsonPath);
      var doc := if bytes.Some? then parseJson(bytes.value) else None;
      && (doc.None? ==> r.dialog.result == Rejected && r.call.None?)
      && (doc.Some? ==>
            && r.dialog.result == d.result
            && r.dialog.plantImages == ParseImageMetadataJson(doc.value)
            && r.call == Some(ImageFilesCall(FilesToDownload(FileNames(r.dialog.plantImages), env.localFiles))))
  {
    var d1 := d.(status := "Parsing images...");
    var bytes := ReadFile(env.disk, env.imageMetaJsonPath);
    if bytes.None? then Reaction(d1.(result := Rejected), env, None)
    else
      var doc := parseJson(bytes.value);
      if doc.None? then Reaction(d1.(result := Rejected), env, None)
      else
        var images := ParseImageMetadataJson(doc.value);
        Reaction(d1.(plantImages := images), env, Some(ImageFilesCall(FilesToDownload(FileNames(images), env.localFiles))))
  }

  /** `setDatabaseDownloadComplete`: clear the aborted flag first, then
      remove every obsolete local file (ignoring failures) and enable the
      "next" button. */
  function SetDatabaseDownloadComplete(d: Dialog, env: Env): (r: Reaction)
    ensures !r.env.syncAborted
    ensures r.env == env.(syncAborted := false, disk := RemoveEach(env.disk, env.filesDir, env.obsoleteFiles))
    ensures r.dialog.nextEnabled && r.dialog.result == d.result
    ensures r.call.None?
  {
    var env1 := env.(syncAborted := false);
    var env2 := env1.(disk := RemoveEach(env1.disk, env1.filesDir, env1.obsoleteFiles));
    Reaction(d.(status := "Completed!", nextEnabled := true), env2, None)
  }

  /** The slot connected to each manager signal; signals the dialog does
      not connect change nothing. */
  function OnSignal(d: Dialog, env: Env, s: Signal, parseJson: seq<byte> -> Option<Json>): Reaction {
    match s
    case LatestUpdateMetadataReady(meta) => SyncMetadataResponse(d, env, Some(meta))
    case NetworkRequestError => Reaction(d.(result := Rejected), env, None)
    case PlantDatabaseUpdateError => Reaction(d.(result := Rejected), env, None)
    case PlantDatabaseUpdateSuccess =>
      Reaction(d.(status := "Checking images..."), env, Some(ImageMetaCall))
    case PlantImgMetadataFileReady => ImageMetadataReady(d, env, parseJson)
    case PlantImgMetadataFileError => Reaction(d.(result := Rejected), env, None)
    case PlantImgFileDownloadStarted(name) => Reaction(d.(status := StatusLabel(name)), env, None)
    case PlantImgWriteFileError => Reaction(d.(result := Rejected), env, None)
    case AllImageFilesDownloaded => Reaction(d.(status := "Loading changes..."), env, Some(ChangelogCall))
    case PlantDbChangelogRequestCompleted(html) =>
      Reaction(d.(updateNotes := html, status := "Loading events..."), env, Some(EventsCall))
    case PlantDbEventsRequestCompleted(html) => SetDatabaseDownloadComplete(d.(eventNotes := html), env)
    case _ => Reaction(d, env, None)
  }

  /** The wizard's buttons. */
  datatype Button =
    | LicenseCancel | LicenseAccept | SyncCancel | SyncNext
    | ImageLicenseCancel | ImageLicenseNext | NotesFinish

  /** The slot connected to each button: accepting the licence starts the
      sync, "finish" accepts the dialog, every cancel button rejects it,
      and the two "next" buttons only turn the page. */
  function OnButton(d: Dialog, env: Env, b: Button): (r: Reaction)
    ensures b == LicenseAccept ==> r == StartDatabaseSync(d, env)
    ensures b != LicenseAccept ==> r.env == env && r.call.None?
    ensures b in {LicenseCancel, SyncCancel, ImageLicenseCancel} ==> r.dialog.result == Rejected
    ensures b == NotesFinish ==> r.dialog.result == Accepted
    ensures b in {SyncNext, ImageLicenseNext} ==> r.dialog == d
  {
    match b
    case LicenseAccept => StartDatabaseSync(d, env)
    case NotesFinish => Reaction(d.(result := Accepted), env, None)
    case SyncNext => Reaction(d, env, None)
    case ImageLicenseNext => Reaction(d, env, None)
    case _ => Reaction(d.(result := Rejected), env, None)
  }

  /** Closing the wizard before the notices arrive leaves the sync marked
      as aborted: once started, no button clears the flag. */
  lemma {:induction false} ButtonsKeepAbortedFlag(d: Dialog, env: Env, buttons: seq<Button>)
    requires env.syncAborted
    ensures var r := PressAll(d, env, buttons); r.env.syncAborted
    decreases |buttons|
  {
    if buttons != [] {
      var r := OnButton(d, env, buttons[0]);
      ButtonsKeepAbortedFlag(r.dialog, r.env, buttons[1..]);
    }
  }

  /** The dialog and store after pressing `buttons` in turn (the calls they
      make are not followed). */
  function PressAll(d: Dialog, env: Env, buttons: seq<Button>): Reaction
    decreases |buttons|
  {
    if buttons == [] then Reaction(d, env, None)
    else
      var r := OnButton(d, env, buttons[0]);
      PressAll(r.dialog, r.env, buttons[1..])
  }

  /** The step chain: which call each signal leads to when its slot goes
      through. Changing anything but the dialog's texts and result is left
      to the manifest slot's records and the final clean-up. */
  lemma StepChain(d: Dialog, env: Env, s: Signal, parseJson: seq<byte> -> Option<Json>)
    ensures var r := OnSignal(d, env, s, parseJson);
      && (s.LatestUpdateMetadataReady? ==> r.call == Some(DatabaseFileCall))
      && (s == PlantDatabaseUpdateSuccess ==> r.call == Some(ImageMetaCall))
      && (s == AllImageFilesDownloaded ==> r.call == Some(ChangelogCall))
      && (s.PlantDbChangelogRequestCompleted? ==> r.call == Some(EventsCall) && r.dialog.updateNotes == s.html)
      && (s.PlantDbEventsRequestCompleted? ==> r.call.None? && r.dialog.eventNotes == s.html && r.dialog.nextEnabled)
      && (s in {NetworkRequestError, PlantDatabaseUpdateError, PlantImgMetadataFileError, PlantImgWriteFileError} ==>
            r.call.None? && r.dialog.result == Rejected)
  {
  }

  /** The aborted flag: no slot sets it, and only the notices slot clears
      it. The store's files change only in that slot too. */
  lemma OnlyNoticesClearAbortedFlag(d: Dialog, env: Env, s: Signal, parseJson: seq<byte> -> Option<Json>)
    ensures var r := OnSignal(d, env, s, parseJson);
      && (!s.PlantDbEventsRequestCompleted? ==> r.env == env)
      && (s.PlantDbEventsRequestCompleted? ==> !r.env.syncAborted)
  {
  }
}
