# Screenshot library core, modelled in Dafny

This project models the core of a screenshot-library backend:

- the filename-and-dimensions heuristic that decides whether an uploaded image is a screenshot;
- the screenshot store operations: create, list, get, tag attachment and removal, OCR triggering and soft delete;
- the request validators for queries, uploads, tags and OCR triggers;
- the file-extension helpers that pick a MIME type and decide whether a file is a supported image.

Everything is a pure function over immutable values. The database is a `Store.Db` value, and each service operation maps one database to the next database or to the error the service throws. The clock, fresh ids, the thumbnail URL and the OCR engine are parameters.

Modules, one per file:

| file | module | models |
|---|---|---|
| `wrappers.dfy` | `Wrappers` | `Option` and `Result` |
| `text.dfy` | `Text` | ASCII lower-casing, substring search, `lastIndexOf` |
| `detection.dfy` | `Detection` | `isLikelyScreenshot`, `getAspectRatioName` |
| `image.dfy` | `Image` | `path.extname`, `getMimeTypeFromExtension`, `isSupportedImage`, `formatFileSize(0)` |
| `schemas.dfy` | `Schemas` | the zod schemas, as validate-and-default functions |
| `store.dfy` | `Store` | the records, the database and its validity invariant |
| `ordering.dfy` | `Ordering` | the single-key `orderBy`, as an insertion sort |
| `query.dfy` | `Query` | `listScreenshots`, `getScreenshotById` |
| `service.dfy` | `Service` | `createScreenshot`, `attachTags`, `removeTag`, `triggerOcr`, `deleteScreenshot` |

Representation choices:

- Confidence is counted in integer tenths. The keyword bonus is 6, the ratio bonus 3, the 16:9 bonus 1 and the extension bonus 1. The cap is 10 and the threshold is 3. The threshold is applied to the uncapped sum, as in the code.
- The 1% ratio test `|w/h - r| < r * 0.01` is decided exactly, by cross-multiplying: `100 * |w*den - num*h| < num * |h|`.
  - `Detection.NearRatioIsRelativeTolerance` proves this equal to the real-number test whenever the height is non-zero.
  - A zero height never matches. In JavaScript `width / height` is then `Infinity` or `NaN`, and neither compares below a finite bound, so the tolerance test fails.
  - 19.5/9 is written 39/18.
- JavaScript truthiness of a dimension is "present and non-zero". A negative dimension is truthy.
- Instants are integers (milliseconds). Ids are strings.
- zod numbers are reals.

The model follows the code as written, including:

- An out-of-range query `limit` or `offset` is rejected, not clamped.
- The sort has no tie-breaker on `id`.
- When a date bound is given, the OCR text search is dropped, because `where.OR` is reassigned.
- Negative dimensions reach the ratio test.

## Model

| member | source | states |
|---|---|---|
| Detection.Detect | backend/src/utils/screenshotDetection.ts:40-89 | confidence is at most 1.0, there are at most four reasons in check order, confidence is the capped sum of the reasons' scores, and `isScreenshot` holds exactly when the uncapped sum reaches 0.3 |
| Detection.ReasonsAgreeWithScore | backend/src/utils/screenshotDetection.ts:50-80 | the reasons pushed and the confidence added always correspond: each reason contributes exactly its bonus |
| Detection.DetectReasons | backend/src/utils/screenshotDetection.ts:45-80 | each reason appears exactly when its check fires: keyword, catalog ratio with truthy dimensions, 16:9 with truthy dimensions, listed extension |
| Detection.KeywordMeansScreenshot | backend/src/utils/screenshotDetection.ts:45-53 | a filename containing any keyword, ignoring case, is a screenshot with confidence at least 0.6 whatever the dimensions, and the keyword reason comes first |
| Detection.ScreenshotIffStrongSignal | backend/src/utils/screenshotDetection.ts:50-82 | `isScreenshot` holds exactly when there is a keyword or a catalog ratio match |
| Detection.WeakSignalsOnly | backend/src/utils/screenshotDetection.ts:74-82 | without a keyword or a catalog match, only the extension bonus (0.1) can be earned, below the threshold |
| Detection.RatioSkippedWithoutDimensions | backend/src/utils/screenshotDetection.ts:56 | an absent or zero width or height skips both ratio checks |
| Detection.WidescreenEarnsBothBonuses | backend/src/utils/screenshotDetection.ts:56-71 | a ratio within 1% of 16:9 earns both the catalog bonus and the 16:9 bonus |
| Detection.WidescreenIsCommon | backend/src/utils/screenshotDetection.ts:29-71 | the 16:9 test implies the catalog test, since 16:9 is in the catalog |
| Detection.ExtensionBonusIff | backend/src/utils/screenshotDetection.ts:75-80 | the extension bonus is earned exactly when the name has a dot and the lower-cased text from its last dot is one of the five listed extensions |
| Detection.ExtensionOf | backend/src/utils/screenshotDetection.ts:76 | the suffix is the lower-cased tail of the name; with a dot it starts at the last dot and holds no other, and without one it is the whole lower-cased name |
| Detection.NoDotNoExtension | backend/src/utils/screenshotDetection.ts:76 | a name without a dot takes the whole name as its suffix, which never earns the bonus |
| Detection.GifEarnsNoBonus | backend/src/utils/screenshotDetection.ts:75-77 | `.gif` earns no extension bonus after any stem, dotted or not |
| Detection.NoKeywordWithout | backend/src/utils/screenshotDetection.ts:14-48 | a name with none of the keywords' first letters contains no keyword |
| Detection.ExamplePhotoAt1080p | backend/test-detection.js:27-31 | `IMG_1234.jpg` at 1920×1080 is a screenshot with confidence 0.5 and the ratio, 16:9 and extension reasons |
| Detection.ExampleKeywordAt1080p | backend/test-detection.js:7-11 | any stem after `screenshot`, with `.png`, at 1920×1080 sums to 1.1, is capped at 1.0 and has all four reasons |
| Detection.ExampleNoSignal | backend/src/utils/screenshotDetection.ts:40-89 | `random.xyz` without dimensions is not a screenshot, with confidence 0 and no reasons |
| Detection.NearRatioIsRelativeTolerance | backend/src/utils/screenshotDetection.ts:57-59 | the integer test agrees with the source's relative tolerance test, evaluated on exact rationals |
| Detection.NegatedDimensionsDetectAlike | backend/src/utils/screenshotDetection.ts:56-59 | negating both dimensions changes nothing, since the guard is truthiness only |
| Detection.NegativeDimensionsMatch | backend/src/utils/screenshotDetection.ts:56-71 | −1920×−1080 earns both ratio bonuses |
| Detection.FirstMatch | backend/src/utils/screenshotDetection.ts:95-99 | returns the first catalog entry within tolerance, in table order, or none when no entry is |
| Detection.AspectRatioName | backend/src/utils/screenshotDetection.ts:92-102 | the result is "Custom" exactly when no catalog ratio matches; otherwise it is the name of the first matching entry |
| Detection.AspectRatioNameExamples | backend/test-detection.js:38-41 | 1920×1080 is "Standard widescreen", 3000×2000 is "Traditional 4:6", and 1000×800 and the portrait 1170×2532 are "Custom" |
| Detection.ZeroHeightIsCustom | backend/src/utils/screenshotDetection.ts:93-101 | a zero height matches no entry |
| Text.ContainsIff | backend/src/utils/screenshotDetection.ts:47 | the substring search holds exactly when the needle occurs at some position |
| Text.LastIndexOf | backend/src/utils/screenshotDetection.ts:76 | returns −1 exactly when the character is absent; otherwise it returns a position holding it, with none after |
| Image.ExtName | backend/src/services/image.ts:79-97 | the extension is non-empty exactly when the final path segment has a dot after its first character and is not `..`; it then runs from that segment's last dot to its end, so it is a dot followed by no dot or slash |
| Image.ExtNameInDirectory | backend/src/services/image.ts:79-97 | for a path `dir/stem.ext`, the directory part plays no role and the extension is `.ext` |
| Image.IsSupportedImage | backend/src/services/image.ts:96-100 | a file is supported exactly when it gets a MIME type other than `application/octet-stream`, and never without an extension |
| Image.TableMatchesList | backend/src/services/image.ts:81-98 | the MIME table has an entry exactly for the six supported extensions, and no entry is the fallback |
| Image.MimeTypeFromExtension | backend/src/services/image.ts:78-91 | every result is one of the table's image types or the fallback, and a path without an extension gets the fallback |
| Image.ImageMimeTypesAreImages | backend/src/services/image.ts:82-87 | every table value starts with `image/` |
| Image.NoExtensionUnsupported | backend/src/services/image.ts:79-97 | a final segment with no dot, or only a leading one, has extension "", is unsupported and gets the fallback type |
| Image.MimeOfName | backend/src/services/image.ts:78-99 | for a plain `stem.ext` name, the type and the support depend on the lower-cased `.ext` alone |
| Image.UpperCaseJpegIsJpeg | backend/src/services/image.ts:79-82 | `.JPG` maps to `image/jpeg` |
| Image.UnlistedExtensionIsOctetStream | backend/src/services/image.ts:90-98 | any unlisted extension gets the fallback type and is unsupported |
| Image.FormatFileSize | backend/src/services/image.ts:105-106 | zero bytes format as "0 Bytes"; no other size is modelled |
| Schemas.ValidateQuery | backend/src/schemas/screenshot.ts:35-44 | accepts exactly when the dates are datetimes, limit is in [1, 100], offset is at least 0 and both enums are valid; `q`, `tags` and the dates pass through unchanged; defaults are 20, 0, createdAt and desc; a given sort field or direction is the one its string names; given numbers are kept, never clamped; a bad limit or offset is reported against its field |
| Schemas.QuerySortParsed | backend/src/schemas/screenshot.ts:42-43 | each of the five enum strings, including an explicit `createdAt` or `desc`, parses to the field or direction it names |
| Schemas.ValidateUpload | backend/src/schemas/screenshot.ts:4-24 | accepts exactly when the format checks pass and a truthy file or a non-empty url is given; otherwise the refinement issue is reported |
| Schemas.ValidateTagCreate | backend/src/schemas/screenshot.ts:65-69 | requires a 1–50 character name and an optional hex colour; `isSystemTag` defaults to false |
| Schemas.ValidateTagUpdate | backend/src/schemas/screenshot.ts:72-75 | the name and colour checks apply only when the field is present |
| Schemas.TagNameBounds | backend/src/schemas/screenshot.ts:66-73 | a name passes on create, and on update, exactly when it has 1 to 50 characters |
| Schemas.HexColorIgnoresCase | backend/src/schemas/screenshot.ts:67-74 | changing the case of the hex letters does not change acceptance |
| Schemas.HexColorExamples | backend/src/schemas/screenshot.ts:67 | `#3B82F6` and `#3b82f6` pass; a missing `#`, five digits, a trailing newline or a non-hex letter fail |
| Schemas.ValidateTagAttachment | backend/src/schemas/screenshot.ts:53-56 | requires a uuid screenshot id and at least one tag id, all uuids; an empty list is reported against `tagIds` |
| Schemas.ValidateTagRemoval | backend/src/schemas/screenshot.ts:59-62 | both ids must be uuids |
| Schemas.ValidateOcrTrigger | backend/src/schemas/screenshot.ts:47-50 | requires a uuid screenshot id; `force` defaults to false |
| Store.FindIndex | backend/src/services/screenshotService.ts:269-271 | `findUnique` by id: the position of the first row with that id, or none exactly when no row has it |
| Store.FindLive | backend/src/services/screenshotService.ts:183-220 | `findFirst` with `isDeleted: false`: a live row with that id, or none exactly when every row with that id is deleted |
| Ordering.Sort | backend/src/services/screenshotService.ts:158-160 | the result is ordered by the requested key and direction, and it is a permutation of the input |
| Ordering.InOrderTotalPreorder | backend/src/services/screenshotService.ts:158-160 | the single-key order is reflexive, total and transitive |
| Ordering.SortKeepsStrictlySorted | backend/src/services/screenshotService.ts:158-160 | rows whose keys are already strictly ordered are left as they are |
| Ordering.TiesHaveNoFixedOrder | backend/src/services/screenshotService.ts:158-160 | with no tie-breaker, two rows with equal keys are correctly sorted either way round |
| Ordering.NullTakenAtPlacement | backend/src/services/screenshotService.ts:159 | a missing `takenAt` sorts last in ascending order and first in descending order |
| Query.MatchesIff | backend/src/services/screenshotService.ts:91-136 | the `where` object selects exactly the live rows that pass every given filter; the text search applies only without a date bound |
| Query.BuildWhere | backend/src/services/screenshotService.ts:91-136 | a date bound sets `OR` to the date range, whatever `q` is; otherwise a non-empty `q` sets it to the text search; a tag filter is present exactly when the tag list is non-empty |
| Query.Filter | backend/src/services/screenshotService.ts:139-143 | keeps exactly the rows that satisfy the `where` object |
| Query.DateRangeDropsTextFilter | backend/src/services/screenshotService.ts:96-136 | with `q` and `dateFrom`, a row with no OCR record is listed; with `q` alone it is not |
| Query.ListScreenshots | backend/src/services/screenshotService.ts:83-177 | rejects a negative limit or offset; `total` counts every match; items are live matching rows with their tag summaries and OCR record; the item count is the limit, or whatever remains past the offset; `hasMore` holds exactly when offset + limit < total; items are in the requested order |
| Query.ListedWindow | backend/src/services/screenshotService.ts:158-162 | a page is the window, at `offset`, of at most `limit` of the ordered matches |
| Query.Window | backend/src/services/screenshotService.ts:161-162 | `skip`/`take`: the window's length is the limit, or what remains past the offset, and its k-th element is the input's (offset + k)-th |
| Query.WindowsConcatenate | backend/src/services/screenshotService.ts:161-162 | two consecutive windows together form the window that spans both |
| Query.PagesConcatenate | backend/src/services/screenshotService.ts:142-175 | pages that differ only in paging walk the same ordered matches, so consecutive pages concatenate without gaps or repeats |
| Query.Expand | backend/src/services/screenshotService.ts:144-170 | an item's tags are exactly the summaries (id, name, colour) of its associated tags, and its OCR record is attached when it exists |
| Query.GetScreenshotById | backend/src/services/screenshotService.ts:182-211 | returns a live row with that id and its relations; it returns nothing exactly when the id is missing or soft-deleted |
| Query.ListedItemsAreFetchable | backend/src/services/screenshotService.ts:83-211 | in a valid database, every listed item is what `getScreenshotById` returns for its id |
| Service.CreateScreenshot | backend/src/services/screenshotService.ts:46-78 | appends one row and changes nothing else; the width and height are stored as given, or 1920 and 1080 when they are falsy; `fileSize`, `deviceType`, `sourceApp` and `takenAt` are copied from the caller; `fullSizeUrl` is null and `updatedAt` is the creation time; the detection entries override the caller's metadata keys, and the other caller keys are kept |
| Service.DetectionMetadata | backend/src/services/screenshotService.ts:66-73 | writes exactly the five detection keys: the detector's verdict, its confidence as a fraction, its reason messages, the file name, and `width / height` when both dimensions are truthy or null otherwise |
| Service.FallbackDimensionsNotDetected | backend/src/services/screenshotService.ts:50-72 | without dimensions, the row stores 1920×1080 but detection ran without a ratio: the aspect ratio is null and only a keyword makes it a screenshot |
| Service.DetectionOverridesCaller | backend/src/services/screenshotService.ts:66-68 | a caller-supplied `isScreenshot` is replaced by the detector's verdict |
| Service.CreatePreservesInvariants | backend/src/services/screenshotService.ts:60-75 | with a fresh id, the database stays valid, and `aiProcessed` still holds exactly for the rows with an OCR record |
| Service.AttachTags | backend/src/services/screenshotService.ts:216-237 | fails when the screenshot is missing or soft-deleted, or when a tag is missing; a missing live screenshot gives `ScreenshotNotFound` and, when the screenshot exists, a missing tag gives `TagNotFound`; otherwise the association keys become the old ones plus one pair per given tag, and existing rows are kept |
| Service.AddLinks | backend/src/services/screenshotService.ts:227-236 | `skipDuplicates`: existing associations keep their row, and new ones get a fresh row |
| Service.AttachIdempotent | backend/src/services/screenshotService.ts:233-236 | repeating an attachment changes nothing |
| Service.AttachPreservesInvariants | backend/src/services/screenshotService.ts:216-237 | attaching keeps the database valid, and `aiProcessed` still holds exactly for the rows with an OCR record |
| Service.RemoveTag | backend/src/services/screenshotService.ts:242-251 | deletes exactly the one pair and changes nothing else; a missing pair is an error |
| Service.RemoveUndoesAttach | backend/src/services/screenshotService.ts:216-251 | removing a tag that was just attached, and was not attached before, restores the database |
| Service.RemovePreservesInvariants | backend/src/services/screenshotService.ts:242-251 | removing keeps the database valid, and `aiProcessed` still holds exactly for the rows with an OCR record |
| Service.UpsertOcr | backend/src/services/screenshotService.ts:281-294 | an update keeps the record's id and language, and its confidence when the engine gives none; a create starts a record with no language |
| Service.TriggerOcr | backend/src/services/screenshotService.ts:256-303 | without `force`, an existing record is returned, the engine does not run and nothing changes; otherwise the engine runs on the file of the row with that id: the call fails for an unknown id, succeeds exactly when the engine does (failing with `OcrFailed` otherwise), upserts the engine's result under that screenshot and marks only that row as processed |
| Service.SecondTriggerUsesCache | backend/src/services/screenshotService.ts:258-266 | after a successful trigger, a call without `force` serves the stored record without running the engine |
| Service.SoftDeletedStillOcrd | backend/src/services/screenshotService.ts:269-271 | a soft-deleted screenshot can still be OCR'd, and it stays deleted |
| Service.TriggerOcrPreservesInvariants | backend/src/services/screenshotService.ts:256-303 | OCR keeps the database valid, and `aiProcessed` still holds exactly for the rows with an OCR record: an OCR record implies processed, and processed implies an OCR record |
| Service.DeleteScreenshot | backend/src/services/screenshotService.ts:308-316 | a missing id is an error; otherwise only that row changes, gaining `isDeleted` and `deletedAt` |
| Service.DeleteHidesFromReads | backend/src/services/screenshotService.ts:308-316 | after a delete, `getScreenshotById` returns nothing for that id and no listing contains it |
| Service.DeletePreservesInvariants | backend/src/services/screenshotService.ts:308-316 | a soft delete keeps the database valid, and `aiProcessed` still holds exactly for the rows with an OCR record |

## Left out

- File I/O, thumbnail generation and image metadata reading (`generateThumbnail`, `getImageMetadata`). The thumbnail URL is a parameter of `Service.CreateScreenshot`.
- The OCR engine. It is a parameter `string -> Option<OcrResult>`; `None` stands for a thrown error. The mock's timers and the Google Vision stub are not modelled.
- Prisma itself. The database is a value, and these behaviours are assumptions:
  - `update` and `delete` of a missing row fail;
  - `createMany` with `skipDuplicates` has set semantics, and an unknown tag id fails the whole statement through the foreign key;
  - NULL never satisfies a range comparison;
  - NULLs sort last in ascending order and first in descending order;
  - every update also sets `updatedAt` to the current time.
- Query.ListScreenshots: rows with equal sort keys keep store order. The database promises no particular order among ties (see `Ordering.TiesHaveNoFixedOrder`), so two real pages may overlap or skip a tied row where the model's pages do not.
- Query.ListScreenshots: a negative `take`, which Prisma reads as paging backwards, is an error in the model rather than modelled.
- Service.TriggerOcr: the row-by-row statement that only the OCR'd row gains `aiProcessed` is proved only for a store with unique ids; the database guarantees these through its primary key.
- Schemas.ValidateQuery: zod numbers are exact reals, so JavaScript's NaN, infinities and float rounding of `limit` and `offset` are not modelled.
- Concurrency between the service's separate statements, such as the OCR upsert and the following update.
- Floating-point effects. The model uses exact arithmetic:
  - Detection.Detect: does not model the float sum, e.g. 0.6 + 0.3 is 0.8999999999999999 in JavaScript;
  - Detection.NearRatio: does not model float rounding of `width / height` exactly at the tolerance boundary;
  - Service.DetectionMetadata: stores `aspectRatio` and `detectionConfidence` as exact reals;
  - NaN dimensions are not modelled.
- Text.Lower: lower-cases ASCII letters only, not full Unicode `toLowerCase`. Keywords are compared after the same function.
- Schemas.ValidateTagCreate: counts Unicode code points, where JavaScript `length` counts UTF-16 units, so a name with characters outside the Basic Multilingual Plane may pass here but fail in the source.
- zod's `uuid`, `datetime` and `url` formats are library regular expressions. They are opaque predicates in `Schemas.Formats`. The model reports only which fields failed, not zod's messages or issue codes.
- `ScreenshotUpdateSchema` and the response schemas carry no rule beyond field types and are not modelled.
- Image.FormatFileSize: only the zero case is modelled. Other sizes go through `Math.log` and float rounding.
- Image.ExtName: models Node's POSIX `path`. On Windows Node's default `path` is `path.win32`, with backslash separators and drive letters; that variant is not modelled.
- Store.MetaValue: a `metadata` value is a boolean, number, string, string list or null. The nested objects and number arrays that `Record<string, any>` allows are not modelled. The detection entries never need them, and a caller's other entries are only copied through.
- Query.Item: an item's tags are a set. The source returns an array whose order the query leaves unspecified, and a set keeps only what is fixed: which tags appear.
- Service.AddLinks: a new association gets no confidence score and `isAiGenerated` false. Both are assumed database defaults, because the service writes neither.
- The HTTP routes, the Express wiring and the mobile screens are outside this model.
