/** The persistent state behind `ScreenshotService`: screenshot, tag,
    screenshot-tag association and OCR records, as the Prisma client sees
    them (`shared/src/types.ts` gives the record shapes). The database is a
    value; every service operation maps one value to the next. */
module Store {
  import opened Wrappers

  type Id = string

  /** An instant, in milliseconds since the epoch. */
  type Time = int

  /** A value inside the open-ended `metadata` JSON object. */
  datatype MetaValue =
    | MBool(b: bool)
    | MReal(x: real)
    | MText(s: string)
    | MTexts(items: seq<string>)
    | MNull

  datatype Screenshot = Screenshot(
    id: Id,
    userId: Id,
    originalFilePath: string,
    thumbnailUrl: Option<string>,
    fullSizeUrl: Option<string>,
    fileSize: Option<int>,
    width: Option<int>,
    height: Option<int>,
    createdAt: Time,
    updatedAt: Time,
    takenAt: Option<Time>,
    deviceType: Option<string>,
    sourceApp: Option<string>,
    aiProcessed: bool,
    isDeleted: bool,
    deletedAt: Option<Time>,
    metadata: map<string, MetaValue>)

  datatype Tag = Tag(id: Id, userId: Id, name: string, color: Option<string>, isSystemTag: bool, createdAt: Time)

  /** The composite key `screenshotId_tagId` of a screenshot-tag association. */
  datatype Link = Link(screenshotId: Id, tagId: Id)

  /** The non-key columns of an association. */
  datatype LinkRow = LinkRow(confidenceScore: Option<real>, isAiGenerated: bool, createdAt: Time)

  /** The OCR record of one screenshot; `screenshotId` is unique. */
  datatype OcrContent = OcrContent(
    id: Id,
    screenshotId: Id,
    extractedText: Option<string>,
    language: Option<string>,
    confidenceScore: Option<real>,
    processedAt: Time)

  /** The database. Screenshots are kept in insertion order; tags, associations
      and OCR records are keyed by their unique columns. */
  datatype Db = Db(
    screenshots: seq<Screenshot>,
    tags: map<Id, Tag>,
    links: map<Link, LinkRow>,
    ocr: map<Id, OcrContent>)

  predicate UniqueIds(ss: seq<Screenshot>) {
    forall i, j :: 0 <= i < j < |ss| ==> ss[i].id != ss[j].id
  }

  predicate HasScreenshot(db: Db, id: Id) {
    exists i :: 0 <= i < |db.screenshots| && db.screenshots[i].id == id
  }

  /** Primary keys are unique, and every association and OCR record refers to
      rows that exist (the schema's foreign keys). */
  predicate Valid(db: Db) {
    && UniqueIds(db.screenshots)
    && (forall k :: k in db.tags ==> db.tags[k].id == k)
    && (forall l :: l in db.links ==> HasScreenshot(db, l.screenshotId) && l.tagId in db.tags)
    && (forall k :: k in db.ocr ==> HasScreenshot(db, k) && db.ocr[k].screenshotId == k)
  }

  /** A screenshot with an OCR record has been marked as AI-processed. */
  predicate OcrImpliesProcessed(db: Db) {
    forall i :: 0 <= i < |db.screenshots| && db.screenshots[i].id in db.ocr ==> db.screenshots[i].aiProcessed
  }

  /** A screenshot marked as AI-processed has an OCR record. With
      `OcrImpliesProcessed` this makes `aiProcessed` hold exactly when OCR
      content exists. */
  predicate ProcessedImpliesOcr(db: Db) {
    forall i :: 0 <= i < |db.screenshots| && db.screenshots[i].aiProcessed ==> db.screenshots[i].id in db.ocr
  }

  /** The position of the screenshot with primary key `id` (`findUnique`). */
  function FindIndex(ss: seq<Screenshot>, id: Id): (r: Option<nat>)
    ensures r.Some? ==> r.value < |ss| && ss[r.value].id == id
    ensures r.Some? ==> forall j :: 0 <= j < r.value ==> ss[j].id != id
    ensures r.None? <==> forall j :: 0 <= j < |ss| ==> ss[j].id != id
  {
    if ss == [] then None
    else if ss[0].id == id then Some(0)
    else
      match FindIndex(ss[1..], id)
      case None => None
      case Some(k) => Some(k + 1)
  }

  /** With unique ids the position found is the only one holding `id`. */
  lemma FindIndexUnique(ss: seq<Screenshot>, id: Id, i: nat)
    requires UniqueIds(ss)
    requires i < |ss| && ss[i].id == id
    ensures FindIndex(ss, id) == Some(i)
  {
  }

  /** The first screenshot with id `id` that is not soft-deleted
      (`findFirst` with `isDeleted: false`). */
  function FindLive(ss: seq<Screenshot>, id: Id): (r: Option<nat>)
    ensures r.Some? ==> r.value < |ss| && ss[r.value].id == id && !ss[r.value].isDeleted
    ensures r.None? <==> forall j :: 0 <= j < |ss| ==> ss[j].id != id || ss[j].isDeleted
  {
    if ss == [] then None
    else if ss[0].id == id && !ss[0].isDeleted then Some(0)
    else
      match FindLive(ss[1..], id)
      case None => None
      case Some(k) => Some(k + 1)
  }

  /** Replaces the screenshot at `i`. */
  function SetScreenshot(db: Db, i: nat, s: Screenshot): (r: Db)
    requires i < |db.screenshots|
    ensures |r.screenshots| == |db.screenshots| && r.screenshots[i] == s
    ensures forall j :: 0 <= j < |db.screenshots| && j != i ==> r.screenshots[j] == db.screenshots[j]
    ensures r.tags == db.tags && r.links == db.links && r.ocr == db.ocr
  {
    db.(screenshots := db.screenshots[i := s])
  }

  /** Replacing a screenshot by one with the same id keeps the database valid. */
  lemma SetScreenshotValid(db: Db, i: nat, s: Screenshot)
    requires Valid(db) && i < |db.screenshots| && s.id == db.screenshots[i].id
    ensures Valid(SetScreenshot(db, i, s))
  {
    var r := SetScreenshot(db, i, s);
    forall id | HasScreenshot(db, id)
      ensures HasScreenshot(r, id)
    {
      var j :| 0 <= j < |db.screenshots| && db.screenshots[j].id == id;
      assert r.screenshots[j].id == id;
    }
  }

  /** Appending a row with a fresh id keeps the database valid; the new row
      has no OCR record, so OCR'd rows stay marked. */
  lemma AppendValid(db: Db, row: Screenshot)
    requires Valid(db) && !HasScreenshot(db, row.id)
    ensures Valid(db.(screenshots := db.screenshots + [row]))
    ensures OcrImpliesProcessed(db) ==> OcrImpliesProcessed(db.(screenshots := db.screenshots + [row]))
    ensures ProcessedImpliesOcr(db) && !row.aiProcessed ==> ProcessedImpliesOcr(db.(screenshots := db.screenshots + [row]))
  {
    var r := db.(screenshots := db.screenshots + [row]);
    forall id | HasScreenshot(db, id)
      ensures HasScreenshot(r, id)
    {
      var j :| 0 <= j < |db.screenshots| && db.screenshots[j].id == id;
      assert r.screenshots[j].id == id;
    }
    assert row.id !in db.ocr;
  }

  /** Replacing the associations by ones whose keys point at existing rows
      keeps the database valid and OCR'd rows marked. */
  lemma LinksValid(db: Db, links: map<Link, LinkRow>)
    requires Valid(db)
    requires forall l :: l in links ==> HasScreenshot(db, l.screenshotId) && l.tagId in db.tags
    ensures Valid(db.(links := links))
    ensures OcrImpliesProcessed(db) ==> OcrImpliesProcessed(db.(links := links))
    ensures ProcessedImpliesOcr(db) ==> ProcessedImpliesOcr(db.(links := links))
  {
  }

  /** Storing the OCR record of the row at `i` and marking that row as
      processed keeps the database valid and OCR'd rows marked. */
  lemma MarkProcessedValid(db: Db, i: nat, record: OcrContent, now: Time)
    requires Valid(db) && i < |db.screenshots| && record.screenshotId == db.screenshots[i].id
    ensures var s := db.screenshots[i];
      var r := db.(ocr := db.ocr[s.id := record], screenshots := db.screenshots[i := s.(aiProcessed := true, updatedAt := now)]);
      Valid(r) && (OcrImpliesProcessed(db) ==> OcrImpliesProcessed(r))
      && (ProcessedImpliesOcr(db) ==> ProcessedImpliesOcr(r))
  {
    var s := db.screenshots[i];
    var r := db.(ocr := db.ocr[s.id := record], screenshots := db.screenshots[i := s.(aiProcessed := true, updatedAt := now)]);
    forall id | HasScreenshot(db, id)
      ensures HasScreenshot(r, id)
    {
      var j :| 0 <= j < |db.screenshots| && db.screenshots[j].id == id;
      assert r.screenshots[j].id == id;
    }
    if OcrImpliesProcessed(db) {
      forall j | 0 <= j < |r.screenshots| && r.screenshots[j].id in r.ocr
        ensures r.screenshots[j].aiProcessed
      {
      }
    }
  }
}
