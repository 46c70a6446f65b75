/** The write side of `ScreenshotService`: `createScreenshot`, `attachTags`,
    `removeTag`, `triggerOcr` and `deleteScreenshot`, each a function from
    the database to the next database or to the error the service throws.
    The clock, fresh ids, the thumbnail URL and the OCR engine are inputs. */
module Service {
  import opened Wrappers
  import opened Store
  import D = Detection
  import Q = Query

  /** The errors the service throws, or Prisma throws on its behalf. */
  datatype ServiceError =
    | ScreenshotNotFound    // `throw new Error('Screenshot not found')`, or an update of a missing row
    | TagNotFound           // an association whose tag does not exist violates the foreign key
    | AssociationNotFound   // `delete` of a missing association
    | OcrFailed             // the OCR engine threw

  // ---------------------------------------------------------------------
  // createScreenshot

  /** `CreateScreenshotData`. */
  datatype CreateData = CreateData(
    originalFilePath: string,
    userId: Id,
    fileName: string,
    fileSize: int,
    width: Option<int>,
    height: Option<int>,
    takenAt: Option<Time>,
    deviceType: Option<string>,
    sourceApp: Option<string>,
    metadata: Option<map<string, MetaValue>>)

  const FallbackWidth: int := 1920
  const FallbackHeight: int := 1080

  /** `v || fallback` for an optional number. */
  function OrFallback(v: Option<int>, fallback: int): int {
    if v.Some? && v.value != 0 then v.value else fallback
  }

  /** The keys the detection result writes into `metadata`. */
  const DetectionKeys: set<string> := {"isScreenshot", "detectionConfidence", "detectionReasons", "fileName", "aspectRatio"}

  function Messages(reasons: seq<D.Reason>): (r: seq<string>)
    ensures |r| == |reasons| && forall i :: 0 <= i < |reasons| ==> r[i] == reasons[i].Message()
  {
    seq(|reasons|, i requires 0 <= i < |reasons| => reasons[i].Message())
  }

  /** The five detection entries as a map, one key per value. */
  function DetectionEntries(isScreenshot: MetaValue, confidence: MetaValue, reasons: MetaValue, fileName: MetaValue, aspectRatio: MetaValue): (m: map<string, MetaValue>)
    ensures m.Keys == DetectionKeys
    ensures m["isScreenshot"] == isScreenshot && m["detectionConfidence"] == confidence
    ensures m["detectionReasons"] == reasons && m["fileName"] == fileName && m["aspectRatio"] == aspectRatio
  {
    map["isScreenshot" := isScreenshot, "detectionConfidence" := confidence, "detectionReasons" := reasons,
        "fileName" := fileName, "aspectRatio" := aspectRatio]
  }

  /** The detection entries of `metadata`, computed from the dimensions as
      given, before any fallback. */
  function DetectionMetadata(fileName: string, width: Option<int>, height: Option<int>): (m: map<string, MetaValue>)
    ensures m.Keys == DetectionKeys
    ensures m["isScreenshot"] == MBool(D.Detect(fileName, width, height).isScreenshot)
    ensures m["detectionConfidence"] == MReal(D.Detect(fileName, width, height).confidence as real / 10.0)
    ensures m["detectionReasons"] == MTexts(Messages(D.Detect(fileName, width, height).reasons))
    ensures m["fileName"] == MText(fileName)
    ensures D.DimensionsGiven(width, height) ==> m["aspectRatio"] == MReal(width.value as real / height.value as real)
    ensures !D.DimensionsGiven(width, height) ==> m["aspectRatio"] == MNull
  {
    var d := D.Detect(fileName, width, height);
    DetectionEntries(
      MBool(d.isScreenshot),
      MReal(d.confidence as real / 10.0),
      MTexts(Messages(d.reasons)),
      MText(fileName),
      if D.DimensionsGiven(width, height) then MReal(width.value as real / height.value as real) else MNull)
  }

  datatype Created = Created(db: Db, row: Screenshot)

  /** `createScreenshot`: appends a row whose width and height fall back to
      1920 and 1080, and whose metadata is the caller's with the detection
      entries written over it. */
  function CreateScreenshot(db: Db, data: CreateData, newId: Id, now: Time, thumbnailUrl: string): (r: Created)
    ensures r.db.screenshots == db.screenshots + [r.row]
    ensures r.db.tags == db.tags && r.db.links == db.links && r.db.ocr == db.ocr
    ensures r.row.id == newId && r.row.userId == data.userId && r.row.originalFilePath == data.originalFilePath
    ensures r.row.createdAt == now && r.row.takenAt == data.takenAt && r.row.thumbnailUrl == Some(thumbnailUrl)
    ensures !r.row.isDeleted && !r.row.aiProcessed && r.row.deletedAt.None?
    ensures r.row.fileSize == Some(data.fileSize) && r.row.deviceType == data.deviceType && r.row.sourceApp == data.sourceApp
    ensures r.row.fullSizeUrl.None? && r.row.updatedAt == now
    ensures r.row.width == Some(if data.width.Some? && data.width.value != 0 then data.width.value else FallbackWidth)
    ensures r.row.height == Some(if data.height.Some? && data.height.value != 0 then data.height.value else FallbackHeight)
    ensures r.row.metadata.Keys == data.metadata.GetOr(map[]).Keys + DetectionKeys
    ensures forall k :: k in data.metadata.GetOr(map[]) && k !in DetectionKeys ==> r.row.metadata[k] == data.metadata.value[k]
    ensures forall k :: k in DetectionKeys ==> r.row.metadata[k] == DetectionMetadata(data.fileName, data.width, data.height)[k]
  {
    var row := Screenshot(
      newId, data.userId, data.originalFilePath, Some(thumbnailUrl), None, Some(data.fileSize),
      Some(OrFallback(data.width, FallbackWidth)), Some(OrFallback(data.height, FallbackHeight)),
      now, now, data.takenAt, data.deviceType, data.sourceApp, false, false, None,
      data.metadata.GetOr(map[]) + DetectionMetadata(data.fileName, data.width, data.height));
    Created(db.(screenshots := db.screenshots + [row]), row)
  }

  /** Without dimensions the row stores 1920 by 1080, a 16:9 shape, yet the
      detection ran without a ratio: only a keyword makes it a screenshot. */
  lemma FallbackDimensionsNotDetected(db: Db, data: CreateData, newId: Id, now: Time, thumbnailUrl: string)
    requires data.width.None? && data.height.None?
    ensures var row := CreateScreenshot(db, data, newId, now, thumbnailUrl).row;
      && row.width == Some(1920) && row.height == Some(1080)
      && row.metadata["aspectRatio"] == MNull
      && row.metadata["isScreenshot"] == MBool(D.HasKeyword(data.fileName))
  {
    D.ScreenshotIffStrongSignal(data.fileName, data.width, data.height);
  }

  /** A caller-supplied `isScreenshot` is overridden by the detector's verdict. */
  lemma DetectionOverridesCaller(db: Db, data: CreateData, newId: Id, now: Time, thumbnailUrl: string, claimed: bool)
    requires data.metadata == Some(map["isScreenshot" := MBool(claimed)])
    ensures CreateScreenshot(db, data, newId, now, thumbnailUrl).row.metadata["isScreenshot"]
      == MBool(D.Detect(data.fileName, data.width, data.height).isScreenshot)
  {
  }

  /** A fresh id keeps the database valid, and the new row has no OCR record. */
  lemma CreatePreservesInvariants(db: Db, data: CreateData, newId: Id, now: Time, thumbnailUrl: string)
    requires Valid(db) && OcrImpliesProcessed(db) && !HasScreenshot(db, newId)
    ensures Valid(CreateScreenshot(db, data, newId, now, thumbnailUrl).db)
    ensures OcrImpliesProcessed(CreateScreenshot(db, data, newId, now, thumbnailUrl).db)
    ensures ProcessedImpliesOcr(db) ==> ProcessedImpliesOcr(CreateScreenshot(db, data, newId, now, thumbnailUrl).db)
  {
    AppendValid(db, CreateScreenshot(db, data, newId, now, thumbnailUrl).row);
  }

  // ---------------------------------------------------------------------
  // attachTags and removeTag

  function NewLinks(screenshotId: Id, tagIds: seq<Id>): set<Link> {
    set t | t in tagIds :: Link(screenshotId, t)
  }

  /** `createMany` with `skipDuplicates`: pairs already present keep their row. */
  function AddLinks(links: map<Link, LinkRow>, added: set<Link>, now: Time): (r: map<Link, LinkRow>)
    ensures r.Keys == links.Keys + added
    ensures forall l :: l in links ==> r[l] == links[l]
    ensures forall l :: l in added && l !in links ==> r[l] == LinkRow(None, false, now)
  {
    map l | l in links.Keys + added :: if l in links then links[l] else LinkRow(None, false, now)
  }

  /** `attachTags`: fails unless the screenshot exists and is not
      soft-deleted, and unless every tag exists; otherwise adds the missing
      associations, one statement, all or nothing. */
  function AttachTags(db: Db, screenshotId: Id, tagIds: seq<Id>, now: Time): (r: Result<Db, ServiceError>)
    ensures FindLive(db.screenshots, screenshotId).None? ==> r == Err(ScreenshotNotFound)
    ensures FindLive(db.screenshots, screenshotId).Some? && r.Err? ==> r.error == TagNotFound
    ensures r.Err? <==> FindLive(db.screenshots, screenshotId).None? || exists i :: 0 <= i < |tagIds| && tagIds[i] !in db.tags
    ensures r.Ok? ==> r.value.links.Keys == db.links.Keys + NewLinks(screenshotId, tagIds)
    ensures r.Ok? ==> forall l :: l in db.links ==> r.value.links[l] == db.links[l]
    ensures r.Ok? ==> r.value.screenshots == db.screenshots && r.value.tags == db.tags && r.value.ocr == db.ocr
  {
    if FindLive(db.screenshots, screenshotId).None? then Err(ScreenshotNotFound)
    else if exists i :: 0 <= i < |tagIds| && tagIds[i] !in db.tags then Err(TagNotFound)
    else Ok(db.(links := AddLinks(db.links, NewLinks(screenshotId, tagIds), now)))
  }

  /** Attaching the same tags again changes nothing, whatever the time. */
  lemma AttachIdempotent(db: Db, screenshotId: Id, tagIds: seq<Id>, now: Time, later: Time)
    requires AttachTags(db, screenshotId, tagIds, now).Ok?
    ensures var once := AttachTags(db, screenshotId, tagIds, now).value;
      AttachTags(once, screenshotId, tagIds, later) == Ok(once)
  {
    var once := AttachTags(db, screenshotId, tagIds, now).value;
    assert AddLinks(once.links, NewLinks(screenshotId, tagIds), later) == once.links;
  }

  /** Attaching keeps the database valid. */
  lemma AttachPreservesInvariants(db: Db, screenshotId: Id, tagIds: seq<Id>, now: Time)
    requires Valid(db) && OcrImpliesProcessed(db)
    requires AttachTags(db, screenshotId, tagIds, now).Ok?
    ensures Valid(AttachTags(db, screenshotId, tagIds, now).value)
    ensures OcrImpliesProcessed(AttachTags(db, screenshotId, tagIds, now).value)
    ensures ProcessedImpliesOcr(db) ==> ProcessedImpliesOcr(AttachTags(db, screenshotId, tagIds, now).value)
  {
    var r := AttachTags(db, screenshotId, tagIds, now).value;
    assert forall k :: 0 <= k < |tagIds| ==> tagIds[k] in db.tags;
    var i := FindLive(db.screenshots, screenshotId).value;
    forall l | l in r.links
      ensures HasScreenshot(db, l.screenshotId) && l.tagId in db.tags
    {
      if l !in db.links {
        var t :| t in tagIds && l == Link(screenshotId, t);
        var k :| 0 <= k < |tagIds| && tagIds[k] == t;
        assert db.screenshots[i].id == screenshotId;
      }
    }
    LinksValid(db, r.links);
    assert r == db.(links := r.links);
  }

  /** `removeTag`: deletes exactly the one association; a missing one is an error. */
  function RemoveTag(db: Db, screenshotId: Id, tagId: Id): (r: Result<Db, ServiceError>)
    ensures r.Err? <==> Link(screenshotId, tagId) !in db.links
    ensures r.Err? ==> r.error == AssociationNotFound
    ensures r.Ok? ==> r.value.links.Keys == db.links.Keys - {Link(screenshotId, tagId)}
    ensures r.Ok? ==> forall l :: l in r.value.links ==> r.value.links[l] == db.links[l]
    ensures r.Ok? ==> r.value.screenshots == db.screenshots && r.value.tags == db.tags && r.value.ocr == db.ocr
  {
    var key := Link(screenshotId, tagId);
    if key !in db.links then Err(AssociationNotFound)
    else Ok(db.(links := db.links - {key}))
  }

  /** Removing a tag that was just attached, and was not attached before,
      gives back the original database. */
  lemma RemoveUndoesAttach(db: Db, screenshotId: Id, tagId: Id, now: Time)
    requires Link(screenshotId, tagId) !in db.links
    requires AttachTags(db, screenshotId, [tagId], now).Ok?
    ensures RemoveTag(AttachTags(db, screenshotId, [tagId], now).value, screenshotId, tagId) == Ok(db)
  {
    var attached := AttachTags(db, screenshotId, [tagId], now).value;
    assert NewLinks(screenshotId, [tagId]) == {Link(screenshotId, tagId)};
    assert attached.links - {Link(screenshotId, tagId)} == db.links;
  }

  /** Removing an association keeps the database valid. */
  lemma RemovePreservesInvariants(db: Db, screenshotId: Id, tagId: Id)
    requires Valid(db) && OcrImpliesProcessed(db)
    requires RemoveTag(db, screenshotId, tagId).Ok?
    ensures Valid(RemoveTag(db, screenshotId, tagId).value)
    ensures OcrImpliesProcessed(RemoveTag(db, screenshotId, tagId).value)
    ensures ProcessedImpliesOcr(db) ==> ProcessedImpliesOcr(RemoveTag(db, screenshotId, tagId).value)
  {
  }

  // ---------------------------------------------------------------------
  // triggerOcr

  /** What the OCR engine returns for a file. */
  datatype OcrResult = OcrResult(text: string, confidence: Option<real>, language: Option<string>)

  /** The stored OCR record, and whether the engine ran to produce it. */
  datatype OcrOutcome = OcrOutcome(db: Db, record: OcrContent, ranOcr: bool)

  /** The `upsert`: an update keeps the record's id and language and leaves
      the confidence alone when the engine gave none; a create starts a new
      record with no language. */
  function UpsertOcr(existing: Option<OcrContent>, screenshotId: Id, result: OcrResult, now: Time, newOcrId: Id): (c: OcrContent)
    ensures c.screenshotId == (if existing.Some? then existing.value.screenshotId else screenshotId)
    ensures c.extractedText == Some(result.text) && c.processedAt == now
    ensures existing.Some? ==> c.id == existing.value.id && c.language == existing.value.language
    ensures existing.None? ==> c.id == newOcrId && c.language.None? && c.confidenceScore == result.confidence
    ensures existing.Some? ==> c.confidenceScore == if result.confidence.Some? then result.confidence else existing.value.confidenceScore
  {
    match existing
    case Some(prior) =>
      prior.(extractedText := Some(result.text),
           confidenceScore := if result.confidence.Some? then result.confidence else prior.confidenceScore,
           processedAt := now)
    case None =>
      OcrContent(newOcrId, screenshotId, Some(result.text), None, result.confidence, now)
  }

  /** `triggerOcr`: without `force`, an existing record is returned as is;
      otherwise the screenshot is looked up by id alone (soft-deleted rows
      included), the engine runs on its file, the record is upserted and the
      screenshot is marked as AI-processed. */
  function TriggerOcr(db: Db, screenshotId: Id, force: bool, engine: string -> Option<OcrResult>, now: Time, newOcrId: Id): (r: Result<OcrOutcome, ServiceError>)
    ensures !force && screenshotId in db.ocr ==> r == Ok(OcrOutcome(db, db.ocr[screenshotId], false))
    ensures (force || screenshotId !in db.ocr) && !HasScreenshot(db, screenshotId) ==> r == Err(ScreenshotNotFound)
    ensures r.Ok? ==> (r.value.ranOcr <==> force || screenshotId !in db.ocr)
    ensures (force || screenshotId !in db.ocr) && FindIndex(db.screenshots, screenshotId).Some? ==>
      var file := db.screenshots[FindIndex(db.screenshots, screenshotId).value].originalFilePath;
      var existing := if screenshotId in db.ocr then Some(db.ocr[screenshotId]) else None;
      && (r.Ok? <==> engine(file).Some?)
      && (r.Err? ==> r.error == OcrFailed)
      && (r.Ok? ==> r.value.record == UpsertOcr(existing, screenshotId, engine(file).value, now, newOcrId))
    ensures r.Ok? && r.value.ranOcr ==>
      && r.value.db.ocr.Keys == db.ocr.Keys + {screenshotId}
      && r.value.db.ocr[screenshotId] == r.value.record
      && r.value.record.processedAt == now
      && (forall k :: k in db.ocr && k != screenshotId ==> r.value.db.ocr[k] == db.ocr[k])
      && r.value.db.tags == db.tags && r.value.db.links == db.links
      && |r.value.db.screenshots| == |db.screenshots|
    ensures r.Ok? && r.value.ranOcr && UniqueIds(db.screenshots) ==> forall j :: 0 <= j < |db.screenshots| ==>
      var before, after := db.screenshots[j], r.value.db.screenshots[j];
      if before.id == screenshotId then after == before.(aiProcessed := true, updatedAt := now)
      else after == before
    ensures r.Ok? && r.value.ranOcr ==> exists j :: (0 <= j < |db.screenshots| && db.screenshots[j].id == screenshotId
      && engine(db.screenshots[j].originalFilePath).Some?
      && r.value.record.extractedText == Some(engine(db.screenshots[j].originalFilePath).value.text))
    ensures r.Err? && r.error == OcrFailed ==> exists j :: (0 <= j < |db.screenshots| && db.screenshots[j].id == screenshotId
      && engine(db.screenshots[j].originalFilePath).None?)
  {
    if !force && screenshotId in db.ocr then Ok(OcrOutcome(db, db.ocr[screenshotId], false))
    else
      match FindIndex(db.screenshots, screenshotId)
      case None => Err(ScreenshotNotFound)
      case Some(i) =>
        var s := db.screenshots[i];
        match engine(s.originalFilePath)
        case None => Err(OcrFailed)
        case Some(result) =>
          var existing := if screenshotId in db.ocr then Some(db.ocr[screenshotId]) else None;
          var record := UpsertOcr(existing, screenshotId, result, now, newOcrId);
          var marked := db.screenshots[i := s.(aiProcessed := true, updatedAt := now)];
          Ok(OcrOutcome(db.(ocr := db.ocr[screenshotId := record], screenshots := marked), record, true))
  }

  /** A second call without `force` serves the stored record and does not
      run the engine again. */
  lemma SecondTriggerUsesCache(db: Db, screenshotId: Id, force: bool, engine: string -> Option<OcrResult>, now: Time, later: Time, newOcrId: Id, otherId: Id)
    requires TriggerOcr(db, screenshotId, force, engine, now, newOcrId).Ok?
    ensures var first := TriggerOcr(db, screenshotId, force, engine, now, newOcrId).value;
      TriggerOcr(first.db, screenshotId, false, engine, later, otherId) == Ok(OcrOutcome(first.db, first.record, false))
  {
  }

  /** A soft-deleted screenshot can still be OCR'd: the lookup ignores `isDeleted`. */
  lemma SoftDeletedStillOcrd(db: Db, i: nat, engine: string -> Option<OcrResult>, now: Time, newOcrId: Id)
    requires UniqueIds(db.screenshots) && i < |db.screenshots| && db.screenshots[i].isDeleted
    requires engine(db.screenshots[i].originalFilePath).Some?
    ensures var r := TriggerOcr(db, db.screenshots[i].id, true, engine, now, newOcrId);
      r.Ok? && r.value.ranOcr && r.value.db.screenshots[i].aiProcessed && r.value.db.screenshots[i].isDeleted
  {
    FindIndexUnique(db.screenshots, db.screenshots[i].id, i);
  }

  /** Triggering OCR keeps the database valid and every OCR'd screenshot
      marked as processed. */
  lemma TriggerOcrPreservesInvariants(db: Db, screenshotId: Id, force: bool, engine: string -> Option<OcrResult>, now: Time, newOcrId: Id)
    requires Valid(db) && OcrImpliesProcessed(db)
    requires TriggerOcr(db, screenshotId, force, engine, now, newOcrId).Ok?
    ensures Valid(TriggerOcr(db, screenshotId, force, engine, now, newOcrId).value.db)
    ensures OcrImpliesProcessed(TriggerOcr(db, screenshotId, force, engine, now, newOcrId).value.db)
    ensures ProcessedImpliesOcr(db) ==> ProcessedImpliesOcr(TriggerOcr(db, screenshotId, force, engine, now, newOcrId).value.db)
  {
    if force || screenshotId !in db.ocr {
      var i := FindIndex(db.screenshots, screenshotId).value;
      var s := db.screenshots[i];
      var result := engine(s.originalFilePath).value;
      var existing := if screenshotId in db.ocr then Some(db.ocr[screenshotId]) else None;
      MarkProcessedValid(db, i, UpsertOcr(existing, screenshotId, result, now, newOcrId), now);
    }
  }

  // ---------------------------------------------------------------------
  // deleteScreenshot

  /** `deleteScreenshot`: a soft delete of the row with that id, whether or
      not it was already deleted; a missing id is an error. */
  function DeleteScreenshot(db: Db, id: Id, now: Time): (r: Result<Db, ServiceError>)
    ensures r.Err? <==> !HasScreenshot(db, id)
    ensures r.Err? ==> r.error == ScreenshotNotFound
    ensures r.Ok? ==> |r.value.screenshots| == |db.screenshots|
    ensures r.Ok? ==> forall j :: 0 <= j < |db.screenshots| && db.screenshots[j].id != id ==> r.value.screenshots[j] == db.screenshots[j]
    ensures r.Ok? ==> exists j :: (0 <= j < |db.screenshots| && db.screenshots[j].id == id
      && r.value.screenshots[j] == db.screenshots[j].(isDeleted := true, deletedAt := Some(now), updatedAt := now))
    ensures r.Ok? ==> r.value.tags == db.tags && r.value.links == db.links && r.value.ocr == db.ocr
  {
    match FindIndex(db.screenshots, id)
    case None => Err(ScreenshotNotFound)
    case Some(i) =>
      Ok(SetScreenshot(db, i, db.screenshots[i].(isDeleted := true, deletedAt := Some(now), updatedAt := now)))
  }

  /** After a delete the screenshot is gone from every read: `getScreenshotById`
      returns nothing and no listing contains it. */
  lemma DeleteHidesFromReads(db: Db, id: Id, now: Time, f: Q.Filters)
    requires UniqueIds(db.screenshots)
    requires DeleteScreenshot(db, id, now).Ok?
    ensures var after := DeleteScreenshot(db, id, now).value;
      && Q.GetScreenshotById(after, id).None?
      && (Q.ListScreenshots(after, f).Ok? ==> forall k :: 0 <= k < |Q.ListScreenshots(after, f).value.items| ==>
            Q.ListScreenshots(after, f).value.items[k].screenshot.id != id)
  {
    var after := DeleteScreenshot(db, id, now).value;
    forall j | 0 <= j < |after.screenshots| && after.screenshots[j].id == id
      ensures after.screenshots[j].isDeleted
    {
    }
    if Q.ListScreenshots(after, f).Ok? {
      var items := Q.ListScreenshots(after, f).value.items;
      forall k | 0 <= k < |items|
        ensures items[k].screenshot.id != id
      {
        var s := items[k].screenshot;
        var j :| 0 <= j < |after.screenshots| && after.screenshots[j] == s;
      }
    }
  }

  /** Deleting keeps the database valid; the OCR record, if any, stays. */
  lemma DeletePreservesInvariants(db: Db, id: Id, now: Time)
    requires Valid(db) && OcrImpliesProcessed(db)
    requires DeleteScreenshot(db, id, now).Ok?
    ensures Valid(DeleteScreenshot(db, id, now).value)
    ensures OcrImpliesProcessed(DeleteScreenshot(db, id, now).value)
    ensures ProcessedImpliesOcr(db) ==> ProcessedImpliesOcr(DeleteScreenshot(db, id, now).value)
  {
    var i := FindIndex(db.screenshots, id).value;
    SetScreenshotValid(db, i, db.screenshots[i].(isDeleted := true, deletedAt := Some(now), updatedAt := now));
  }
}
