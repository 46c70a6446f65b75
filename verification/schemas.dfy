/** The request schemas of `backend/src/schemas/screenshot.ts` as
    validate-and-default functions: each takes the raw fields (absent ones
    as `None`) and either fills in the defaults or lists the fields that
    failed, in the schema's key order.

    zod's `datetime`, `uuid` and `url` string formats are library regular
    expressions; they are passed in as the predicates of `Formats`. */
module Schemas {
  import opened Wrappers

  /** The string format checks zod performs, left abstract. */
  datatype Formats = Formats(isDatetime: string -> bool, isUuid: string -> bool, isUrl: string -> bool)

  /** A zod issue: the field whose check failed, or the upload refinement. */
  datatype Issue = Invalid(field: string) | FileOrUrlMissing

  /** `sort_by`: `z.enum(['createdAt', 'takenAt', 'updatedAt'])`. */
  datatype SortField = CreatedAt | TakenAt | UpdatedAt

  /** `sort_order`: `z.enum(['asc', 'desc'])`. */
  datatype SortOrder = Asc | Desc

  function ParseSortField(s: string): Option<SortField> {
    if s == "createdAt" then Some(CreatedAt)
    else if s == "takenAt" then Some(TakenAt)
    else if s == "updatedAt" then Some(UpdatedAt)
    else None
  }

  function ParseSortOrder(s: string): Option<SortOrder> {
    if s == "asc" then Some(Asc) else if s == "desc" then Some(Desc) else None
  }

  /** Adds `Invalid(field)` when `ok` is false. */
  function Check(ok: bool, field: string): seq<Issue> {
    if ok then [] else [Invalid(field)]
  }

  /** An optional string field with a format check. */
  predicate OptionalFormat(v: Option<string>, format: string -> bool) {
    v.None? || format(v.value)
  }

  // ---------------------------------------------------------------------
  // ScreenshotQuerySchema

  /** The query fields as received; numbers are JavaScript numbers, so
      fractions are possible. */
  datatype RawQuery = RawQuery(
    q: Option<string>, tags: Option<string>,
    dateFrom: Option<string>, dateTo: Option<string>,
    limit: Option<real>, offset: Option<real>,
    sortBy: Option<string>, sortOrder: Option<string>)

  /** The parsed query with every default filled in. */
  datatype Query = Query(
    q: Option<string>, tags: Option<string>,
    dateFrom: Option<string>, dateTo: Option<string>,
    limit: real, offset: real,
    sortBy: SortField, sortOrder: SortOrder)

  const DefaultLimit: real := 20.0
  const MinLimit: real := 1.0
  const MaxLimit: real := 100.0
  const DefaultOffset: real := 0.0

  predicate LimitOk(limit: Option<real>) {
    limit.None? || MinLimit <= limit.value <= MaxLimit
  }

  predicate OffsetOk(offset: Option<real>) {
    offset.None? || offset.value >= 0.0
  }

  predicate SortByOk(sortBy: Option<string>) {
    sortBy.None? || sortBy.value in {"createdAt", "takenAt", "updatedAt"}
  }

  predicate SortOrderOk(sortOrder: Option<string>) {
    sortOrder.None? || sortOrder.value in {"asc", "desc"}
  }

  /** Every field of the query passes its own check. */
  predicate QueryFieldsValid(raw: RawQuery, fmt: Formats) {
    && OptionalFormat(raw.dateFrom, fmt.isDatetime)
    && OptionalFormat(raw.dateTo, fmt.isDatetime)
    && LimitOk(raw.limit)
    && OffsetOk(raw.offset)
    && SortByOk(raw.sortBy)
    && SortOrderOk(raw.sortOrder)
  }

  /** `ScreenshotQuerySchema.parse`. */
  function ValidateQuery(raw: RawQuery, fmt: Formats): (r: Result<Query, seq<Issue>>)
    ensures r.Ok? <==> QueryFieldsValid(raw, fmt)
    ensures r.Ok? ==> MinLimit <= r.value.limit <= MaxLimit && r.value.offset >= 0.0
    ensures r.Ok? ==> r.value.limit == (if raw.limit.Some? then raw.limit.value else DefaultLimit)
    ensures r.Ok? ==> r.value.offset == (if raw.offset.Some? then raw.offset.value else DefaultOffset)
    ensures r.Ok? ==> r.value.q == raw.q && r.value.tags == raw.tags
    ensures r.Ok? ==> r.value.dateFrom == raw.dateFrom && r.value.dateTo == raw.dateTo
    ensures r.Ok? && raw.sortBy.None? ==> r.value.sortBy == CreatedAt
    ensures r.Ok? && raw.sortBy.Some? ==> ParseSortField(raw.sortBy.value) == Some(r.value.sortBy)
    ensures r.Ok? && raw.sortOrder.None? ==> r.value.sortOrder == Desc
    ensures r.Ok? && raw.sortOrder.Some? ==> ParseSortOrder(raw.sortOrder.value) == Some(r.value.sortOrder)
    ensures !LimitOk(raw.limit) ==> r.Err? && Invalid("limit") in r.error
    ensures !OffsetOk(raw.offset) ==> r.Err? && Invalid("offset") in r.error
  {
    var issues :=
      Check(OptionalFormat(raw.dateFrom, fmt.isDatetime), "date_from")
      + Check(OptionalFormat(raw.dateTo, fmt.isDatetime), "date_to")
      + Check(LimitOk(raw.limit), "limit")
      + Check(OffsetOk(raw.offset), "offset")
      + Check(ParseSortField(raw.sortBy.GetOr("createdAt")).Some?, "sort_by")
      + Check(ParseSortOrder(raw.sortOrder.GetOr("desc")).Some?, "sort_order");
    if issues != [] then Err(issues)
    else
      Ok(Query(raw.q, raw.tags, raw.dateFrom, raw.dateTo,
        raw.limit.GetOr(DefaultLimit), raw.offset.GetOr(DefaultOffset),
        ParseSortField(raw.sortBy.GetOr("createdAt")).value,
        ParseSortOrder(raw.sortOrder.GetOr("desc")).value))
  }

  /** The enums are parsed to the value they name. */
  lemma QuerySortParsed(raw: RawQuery, fmt: Formats)
    requires ValidateQuery(raw, fmt).Ok?
    ensures raw.sortBy == Some("takenAt") ==> ValidateQuery(raw, fmt).value.sortBy == TakenAt
    ensures raw.sortBy == Some("updatedAt") ==> ValidateQuery(raw, fmt).value.sortBy == UpdatedAt
    ensures raw.sortBy == Some("createdAt") ==> ValidateQuery(raw, fmt).value.sortBy == CreatedAt
    ensures raw.sortOrder == Some("asc") ==> ValidateQuery(raw, fmt).value.sortOrder == Asc
    ensures raw.sortOrder == Some("desc") ==> ValidateQuery(raw, fmt).value.sortOrder == Desc
  {
  }

  /** With every field absent the query is the default one. */
  lemma EmptyQueryDefaults(fmt: Formats)
    ensures ValidateQuery(RawQuery(None, None, None, None, None, None, None, None), fmt)
      == Ok(Query(None, None, None, None, 20.0, 0.0, CreatedAt, Desc))
  {
  }

  // ---------------------------------------------------------------------
  // ScreenshotUploadSchema

  /** The upload fields; `hasFile` is whether `file` is present and truthy. */
  datatype RawUpload = RawUpload(
    hasFile: bool, url: Option<string>, takenAt: Option<string>,
    deviceType: Option<string>, sourceApp: Option<string>, userId: Option<string>)

  /** The refinement `data.file || data.url`: an empty url string is falsy. */
  predicate FileOrUrl(raw: RawUpload) {
    raw.hasFile || (raw.url.Some? && raw.url.value != "")
  }

  predicate UploadFieldsValid(raw: RawUpload, fmt: Formats) {
    && OptionalFormat(raw.url, fmt.isUrl)
    && OptionalFormat(raw.takenAt, fmt.isDatetime)
    && OptionalFormat(raw.userId, fmt.isUuid)
  }

  /** `ScreenshotUploadSchema.parse`: the field checks, then the refinement. */
  function ValidateUpload(raw: RawUpload, fmt: Formats): (r: Result<RawUpload, seq<Issue>>)
    ensures r.Ok? <==> UploadFieldsValid(raw, fmt) && FileOrUrl(raw)
    ensures r.Ok? ==> r.value == raw
    ensures !FileOrUrl(raw) ==> r.Err? && FileOrUrlMissing in r.error
  {
    var issues :=
      Check(OptionalFormat(raw.url, fmt.isUrl), "url")
      + Check(OptionalFormat(raw.takenAt, fmt.isDatetime), "takenAt")
      + Check(OptionalFormat(raw.userId, fmt.isUuid), "userId")
      + (if FileOrUrl(raw) then [] else [FileOrUrlMissing]);
    if issues == [] then Ok(raw) else Err(issues)
  }

  // ---------------------------------------------------------------------
  // Tag schemas

  const MinTagName: nat := 1
  const MaxTagName: nat := 50

  predicate IsHexDigit(c: char) {
    ('0' <= c <= '9') || ('A' <= c <= 'F') || ('a' <= c <= 'f')
  }

  /** `/^#[0-9A-F]{6}$/i`: `#` and exactly six hex digits in either case. */
  predicate IsHexColor(s: string) {
    |s| == 7 && s[0] == '#' && forall i :: 1 <= i < 7 ==> IsHexDigit(s[i])
  }

  predicate TagNameOk(name: string) {
    MinTagName <= |name| <= MaxTagName
  }

  datatype RawTagCreate = RawTagCreate(name: Option<string>, color: Option<string>, isSystemTag: Option<bool>)
  datatype TagCreate = TagCreate(name: string, color: Option<string>, isSystemTag: bool)

  predicate TagCreateValid(raw: RawTagCreate) {
    raw.name.Some? && TagNameOk(raw.name.value) && (raw.color.None? || IsHexColor(raw.color.value))
  }

  /** `TagCreateSchema.parse`: a required name of 1 to 50 characters, an
      optional colour, and `isSystemTag` defaulting to false. */
  function ValidateTagCreate(raw: RawTagCreate): (r: Result<TagCreate, seq<Issue>>)
    ensures r.Ok? <==> TagCreateValid(raw)
    ensures r.Ok? ==> r.value.name == raw.name.value && r.value.color == raw.color
    ensures r.Ok? ==> r.value.isSystemTag == (raw.isSystemTag == Some(true))
  {
    var issues :=
      Check(raw.name.Some? && TagNameOk(raw.name.value), "name")
      + Check(raw.color.None? || IsHexColor(raw.color.value), "color");
    if issues == [] then Ok(TagCreate(raw.name.value, raw.color, raw.isSystemTag.GetOr(false)))
    else Err(issues)
  }

  datatype TagUpdate = TagUpdate(name: Option<string>, color: Option<string>)

  predicate TagUpdateValid(raw: TagUpdate) {
    (raw.name.None? || TagNameOk(raw.name.value)) && (raw.color.None? || IsHexColor(raw.color.value))
  }

  /** `TagUpdateSchema.parse`: both fields optional, each checked when present. */
  function ValidateTagUpdate(raw: TagUpdate): (r: Result<TagUpdate, seq<Issue>>)
    ensures r.Ok? <==> TagUpdateValid(raw)
    ensures r.Ok? ==> r.value == raw
  {
    var issues :=
      Check(raw.name.None? || TagNameOk(raw.name.value), "name")
      + Check(raw.color.None? || IsHexColor(raw.color.value), "color");
    if issues == [] then Ok(raw) else Err(issues)
  }

  /** The colour test ignores letter case. */
  lemma {:induction false} HexColorIgnoresCase(s: string, t: string)
    requires |s| == |t|
    requires forall i :: 0 <= i < |s| ==> s[i] == t[i] || (('a' <= s[i] <= 'f') && t[i] == (s[i] as int - 32) as char)
    ensures IsHexColor(s) <==> IsHexColor(t)
  {
    if |s| == 7 {
      assert s[0] == '#' <==> t[0] == '#';
      forall i | 1 <= i < 7
        ensures IsHexDigit(s[i]) <==> IsHexDigit(t[i])
      {
      }
    }
  }

  /** Colours as the tag routes use them, and the near misses the pattern rejects. */
  lemma HexColorExamples()
    ensures IsHexColor("#3B82F6") && IsHexColor("#3b82f6")
    ensures !IsHexColor("3B82F6") && !IsHexColor("#3B82F") && !IsHexColor("#3B82F6\n") && !IsHexColor("#3G82F6")
  {
    assert !IsHexDigit("#3G82F6"[2]);
  }

  /** Names of 1 to 50 characters pass; empty and 51-character names fail, on create and on update. */
  lemma TagNameBounds(name: string, fmt: Formats)
    ensures ValidateTagCreate(RawTagCreate(Some(name), None, None)).Ok? <==> 1 <= |name| <= 50
    ensures ValidateTagUpdate(TagUpdate(Some(name), None)).Ok? <==> 1 <= |name| <= 50
    ensures ValidateTagUpdate(TagUpdate(None, None)).Ok?
  {
  }

  // ---------------------------------------------------------------------
  // TagAttachmentSchema, TagRemovalSchema, OcrTriggerSchema

  datatype TagAttachment = TagAttachment(screenshotId: string, tagIds: seq<string>)

  /** `z.array(z.string().uuid()).min(1)`. */
  predicate TagIdsValid(tagIds: seq<string>, fmt: Formats) {
    |tagIds| >= 1 && forall i :: 0 <= i < |tagIds| ==> fmt.isUuid(tagIds[i])
  }

  /** `TagAttachmentSchema.parse`: a uuid screenshot id and a non-empty list of uuid tag ids. */
  function ValidateTagAttachment(raw: TagAttachment, fmt: Formats): (r: Result<TagAttachment, seq<Issue>>)
    ensures r.Ok? <==> fmt.isUuid(raw.screenshotId) && TagIdsValid(raw.tagIds, fmt)
    ensures r.Ok? ==> r.value == raw
    ensures raw.tagIds == [] ==> r.Err? && Invalid("tagIds") in r.error
  {
    var issues :=
      Check(fmt.isUuid(raw.screenshotId), "screenshotId")
      + Check(|raw.tagIds| >= 1 && forall i :: 0 <= i < |raw.tagIds| ==> fmt.isUuid(raw.tagIds[i]), "tagIds");
    if issues == [] then Ok(raw) else Err(issues)
  }

  datatype TagRemoval = TagRemoval(screenshotId: string, tagId: string)

  /** `TagRemovalSchema.parse`: both ids must be uuids. */
  function ValidateTagRemoval(raw: TagRemoval, fmt: Formats): (r: Result<TagRemoval, seq<Issue>>)
    ensures r.Ok? <==> fmt.isUuid(raw.screenshotId) && fmt.isUuid(raw.tagId)
    ensures r.Ok? ==> r.value == raw
  {
    var issues := Check(fmt.isUuid(raw.screenshotId), "screenshotId") + Check(fmt.isUuid(raw.tagId), "tagId");
    if issues == [] then Ok(raw) else Err(issues)
  }

  datatype RawOcrTrigger = RawOcrTrigger(screenshotId: string, force: Option<bool>)
  datatype OcrTrigger = OcrTrigger(screenshotId: string, force: bool)

  /** `OcrTriggerSchema.parse`: a uuid screenshot id; `force` defaults to false. */
  function ValidateOcrTrigger(raw: RawOcrTrigger, fmt: Formats): (r: Result<OcrTrigger, seq<Issue>>)
    ensures r.Ok? <==> fmt.isUuid(raw.screenshotId)
    ensures r.Ok? ==> r.value.screenshotId == raw.screenshotId
    ensures r.Ok? ==> (r.value.force <==> raw.force == Some(true))
  {
    if fmt.isUuid(raw.screenshotId) then Ok(OcrTrigger(raw.screenshotId, raw.force.GetOr(false)))
    else Err([Invalid("screenshotId")])
  }
}
