/** The read side of `ScreenshotService`: `listScreenshots` (filter, sort,
    skip/take, `hasMore`) and `getScreenshotById`, evaluated over a `Db`.
    The `where` object the service builds is modelled as a `Where` value,
    including the reassignment of `where.OR` when a date bound is given. */
module Query {
  import opened Wrappers
  import opened Text
  import opened Store
  import opened Schemas
  import opened Ordering

  /** `ScreenshotFilters`; absent fields take the defaults of `listScreenshots`. */
  datatype Filters = Filters(
    q: Option<string>,
    tags: Option<seq<Id>>,
    dateFrom: Option<Time>,
    dateTo: Option<Time>,
    limit: Option<int>,
    offset: Option<int>,
    sortBy: Option<SortField>,
    sortOrder: Option<SortOrder>)

  const DefaultLimit: int := 20
  const DefaultOffset: int := 0

  /** The `where.OR` entry: absent, the OCR text search, or the date range
      over `takenAt` or `createdAt`. */
  datatype OrClause =
    | NoOr
    | OcrTextContains(q: string)
    | TakenOrCreatedIn(from: Option<Time>, to: Option<Time>)

  /** The `where` object; `isDeleted: false` is always part of it. */
  datatype Where = Where(or: OrClause, tagIn: Option<seq<Id>>)

  /** Builds the `where` object in the order the service does: the text
      search first, then the tag filter, then the date range, which
      overwrites `where.OR`. A JavaScript `Date` is always truthy. */
  function BuildWhere(f: Filters): (w: Where)
    ensures HasDateBound(f) ==> w.or == TakenOrCreatedIn(f.dateFrom, f.dateTo)
    ensures !HasDateBound(f) && f.q.Some? && f.q.value != "" ==> w.or == OcrTextContains(f.q.value)
    ensures w.or == NoOr <==> !HasDateBound(f) && (f.q.None? || f.q.value == "")
    ensures w.tagIn.Some? <==> f.tags.Some? && f.tags.value != []
    ensures w.tagIn.Some? ==> w.tagIn.value == f.tags.value
  {
    var textOr := if f.q.Some? && f.q.value != "" then OcrTextContains(f.q.value) else NoOr;
    var or := if f.dateFrom.Some? || f.dateTo.Some? then TakenOrCreatedIn(f.dateFrom, f.dateTo) else textOr;
    var tagIn := if f.tags.Some? && |f.tags.value| > 0 then Some(f.tags.value) else None;
    Where(or, tagIn)
  }

  /** `ocr: { extractedText: { contains: q, mode: 'insensitive' } }`: a
      screenshot without an OCR record, or whose text is null, never matches. */
  predicate OcrContains(db: Db, s: Screenshot, q: string) {
    s.id in db.ocr && db.ocr[s.id].extractedText.Some?
    && Contains(Lower(db.ocr[s.id].extractedText.value), Lower(q))
  }

  /** `{ gte: from, lte: to }` on a nullable column: NULL never satisfies it. */
  predicate InRange(t: Option<Time>, from: Option<Time>, to: Option<Time>) {
    t.Some? && (from.None? || from.value <= t.value) && (to.None? || t.value <= to.value)
  }

  /** `tags: { some: { tagId: { in: tags } } }`. */
  predicate HasTagIn(db: Db, s: Screenshot, tags: seq<Id>) {
    exists l :: l in db.links && l.screenshotId == s.id && l.tagId in tags
  }

  /** Whether a row satisfies a `where` object. */
  predicate Matches(db: Db, s: Screenshot, w: Where) {
    && !s.isDeleted
    && (match w.or
        case NoOr => true
        case OcrTextContains(q) => OcrContains(db, s, q)
        case TakenOrCreatedIn(from, to) => InRange(s.takenAt, from, to) || InRange(Some(s.createdAt), from, to))
    && (w.tagIn.None? || HasTagIn(db, s, w.tagIn.value))
  }

  predicate HasDateBound(f: Filters) {
    f.dateFrom.Some? || f.dateTo.Some?
  }

  /** The filters a screenshot passes, stated per filter field: the text
      search applies only when no date bound is given. */
  predicate Selected(db: Db, s: Screenshot, f: Filters) {
    && !s.isDeleted
    && (HasDateBound(f) ==> InRange(s.takenAt, f.dateFrom, f.dateTo) || InRange(Some(s.createdAt), f.dateFrom, f.dateTo))
    && (!HasDateBound(f) && f.q.Some? && f.q.value != "" ==> OcrContains(db, s, f.q.value))
    && (f.tags.Some? && f.tags.value != [] ==> HasTagIn(db, s, f.tags.value))
  }

  /** The `where` object the service builds selects exactly the screenshots
      that pass every filter. */
  lemma MatchesIff(db: Db, s: Screenshot, f: Filters)
    ensures Matches(db, s, BuildWhere(f)) <==> Selected(db, s, f)
  {
  }

  /** The rows of `ss` satisfying `w`, in their original order. */
  function Filter(db: Db, ss: seq<Screenshot>, w: Where): (r: seq<Screenshot>)
    ensures forall x :: x in r <==> x in ss && Matches(db, x, w)
    ensures multiset(r) <= multiset(ss)
  {
    if ss == [] then []
    else
      assert ss == [ss[0]] + ss[1..];
      var rest := Filter(db, ss[1..], w);
      if Matches(db, ss[0], w) then [ss[0]] + rest else rest
  }

  /** Every screenshot the filters select, in store order. */
  function Matching(db: Db, f: Filters): seq<Screenshot> {
    Filter(db, db.screenshots, BuildWhere(f))
  }

  /** The tag fields `listScreenshots` and `getScreenshotById` keep. */
  datatype TagSummary = TagSummary(id: Id, name: string, color: Option<string>)

  /** `ScreenshotWithRelations`: the row, its tags reduced to summaries, and
      its OCR record if any. */
  datatype Item = Item(screenshot: Screenshot, tags: set<TagSummary>, ocr: Option<OcrContent>)

  function Summary(t: Tag): TagSummary {
    TagSummary(t.id, t.name, t.color)
  }

  function Expand(db: Db, s: Screenshot): (item: Item)
    ensures item.screenshot == s
    ensures forall t :: t in item.tags <==> exists l :: l in db.links && l.screenshotId == s.id && l.tagId in db.tags && t == Summary(db.tags[l.tagId])
    ensures item.ocr.Some? <==> s.id in db.ocr
    ensures item.ocr.Some? ==> item.ocr.value == db.ocr[s.id]
  {
    var tags := set l | l in db.links && l.screenshotId == s.id && l.tagId in db.tags :: Summary(db.tags[l.tagId]);
    Item(s, tags, if s.id in db.ocr then Some(db.ocr[s.id]) else None)
  }

  function Max(a: int, b: int): int {
    if a < b then b else a
  }

  /** `skip: offset, take: limit` on an ordered result. */
  function Window<T>(xs: seq<T>, offset: nat, limit: nat): (r: seq<T>)
    ensures |r| == if offset + limit <= |xs| then limit else Max(|xs| - offset, 0)
    ensures forall k :: 0 <= k < |r| ==> r[k] == xs[offset + k]
  {
    if offset >= |xs| then []
    else if offset + limit <= |xs| then xs[offset..offset + limit]
    else xs[offset..]
  }

  /** Two consecutive windows make up the window spanning both. */
  lemma WindowsConcatenate<T>(xs: seq<T>, offset: nat, a: nat, b: nat)
    ensures Window(xs, offset, a) + Window(xs, offset + a, b) == Window(xs, offset, a + b)
  {
    var left, right, whole := Window(xs, offset, a), Window(xs, offset + a, b), Window(xs, offset, a + b);
    assert |left + right| == |whole|;
    forall k | 0 <= k < |whole|
      ensures (left + right)[k] == whole[k]
    {
      if k >= |left| {
        assert (left + right)[k] == right[k - |left|];
      }
    }
  }

  function Screens(items: seq<Item>): (r: seq<Screenshot>)
    ensures |r| == |items| && forall k :: 0 <= k < |items| ==> r[k] == items[k].screenshot
  {
    seq(|items|, k requires 0 <= k < |items| => items[k].screenshot)
  }

  /** The result of `listScreenshots`. */
  datatype Page = Page(items: seq<Item>, total: nat, hasMore: bool)

  /** Prisma refuses a negative `skip` or `take` (a negative `take`, which
      would page backwards, is not modelled). */
  datatype ListError = NegativeLimit | NegativeOffset

  function LimitOf(f: Filters): int { f.limit.GetOr(DefaultLimit) }
  function OffsetOf(f: Filters): int { f.offset.GetOr(DefaultOffset) }

  /** `listScreenshots`: the matching screenshots, counted, sorted by the
      requested field and direction, then the window after `offset` of at
      most `limit` items, each with its tag summaries and OCR record. */
  function ListScreenshots(db: Db, f: Filters): (r: Result<Page, ListError>)
    ensures r.Err? <==> LimitOf(f) < 0 || OffsetOf(f) < 0
    ensures r.Ok? ==> r.value.total == |Matching(db, f)|
    ensures r.Ok? ==> forall k :: 0 <= k < |r.value.items| ==>
      var item := r.value.items[k];
      && item.screenshot in db.screenshots
      && !item.screenshot.isDeleted
      && Selected(db, item.screenshot, f)
      && item == Expand(db, item.screenshot)
    ensures r.Ok? ==> |r.value.items| == if OffsetOf(f) + LimitOf(f) <= r.value.total then LimitOf(f) else Max(r.value.total - OffsetOf(f), 0)
    ensures r.Ok? ==> (r.value.hasMore <==> OffsetOf(f) + LimitOf(f) < r.value.total)
    ensures r.Ok? && !r.value.hasMore && OffsetOf(f) <= r.value.total ==> OffsetOf(f) + |r.value.items| == r.value.total
    ensures r.Ok? ==> SortedBy(Screens(r.value.items), f.sortBy.GetOr(CreatedAt), f.sortOrder.GetOr(Desc))
  {
    var limit, offset := LimitOf(f), OffsetOf(f);
    if limit < 0 then Err(NegativeLimit)
    else if offset < 0 then Err(NegativeOffset)
    else
      var field, order := f.sortBy.GetOr(CreatedAt), f.sortOrder.GetOr(Desc);
      var matches := Matching(db, f);
      var sorted := Sort(matches, field, order);
      var page := Window(sorted, offset, limit);
      var items := seq(|page|, k requires 0 <= k < |page| => Expand(db, page[k]));
      ListFacts(db, f, sorted, page, items, offset, limit);
      Ok(Page(items, |matches|, offset + limit < |matches|))
  }

  /** The per-item and ordering facts of a listed page. */
  lemma ListFacts(db: Db, f: Filters, sorted: seq<Screenshot>, page: seq<Screenshot>, items: seq<Item>, offset: nat, limit: nat)
    requires sorted == Sort(Matching(db, f), f.sortBy.GetOr(CreatedAt), f.sortOrder.GetOr(Desc))
    requires page == Window(sorted, offset, limit)
    requires |items| == |page| && forall k :: 0 <= k < |page| ==> items[k] == Expand(db, page[k])
    ensures Screens(items) == page
    ensures SortedBy(page, f.sortBy.GetOr(CreatedAt), f.sortOrder.GetOr(Desc))
    ensures forall k :: 0 <= k < |items| ==> items[k].screenshot in db.screenshots && Selected(db, items[k].screenshot, f)
  {
    var field, order := f.sortBy.GetOr(CreatedAt), f.sortOrder.GetOr(Desc);
    forall k | 0 <= k < |items|
      ensures items[k].screenshot in db.screenshots && Selected(db, items[k].screenshot, f)
    {
      var s := page[k];
      assert s == sorted[offset + k];
      assert s in multiset(sorted);
      assert s in Matching(db, f);
      MatchesIff(db, s, f);
    }
    forall i, j | 0 <= i < j < |page|
      ensures InOrder(page[i], page[j], field, order)
    {
      assert page[i] == sorted[offset + i] && page[j] == sorted[offset + j];
    }
  }

  /** The rows `listScreenshots` pages through: the matches in the requested
      order. */
  function Ordered(db: Db, f: Filters): seq<Screenshot> {
    Sort(Matching(db, f), f.sortBy.GetOr(CreatedAt), f.sortOrder.GetOr(Desc))
  }

  /** A listed page is the window of the ordered matches at its offset. */
  lemma ListedWindow(db: Db, f: Filters)
    requires ListScreenshots(db, f).Ok?
    ensures Screens(ListScreenshots(db, f).value.items) == Window(Ordered(db, f), OffsetOf(f), LimitOf(f))
  {
    var page := Window(Ordered(db, f), OffsetOf(f), LimitOf(f));
    var items := seq(|page|, k requires 0 <= k < |page| => Expand(db, page[k]));
    ListFacts(db, f, Ordered(db, f), page, items, OffsetOf(f), LimitOf(f));
  }

  /** Paging is consistent: the page at `offset` with `limit` a, followed by
      the page at `offset + a` with `limit` b, is the page at `offset` with
      `limit` a + b, since all three are windows of the same ordered matches. */
  lemma PagesConcatenate(db: Db, f: Filters, offset: nat, a: nat, b: nat)
    ensures Ordered(db, f.(limit := Some(a), offset := Some(offset))) == Ordered(db, f)
    ensures Ordered(db, f.(limit := Some(b), offset := Some(offset + a))) == Ordered(db, f)
    ensures Window(Ordered(db, f), offset, a) + Window(Ordered(db, f), offset + a, b) == Window(Ordered(db, f), offset, a + b)
  {
    SameMatching(db, f, f.(limit := Some(a), offset := Some(offset)));
    SameMatching(db, f, f.(limit := Some(b), offset := Some(offset + a)));
    WindowsConcatenate(Ordered(db, f), offset, a, b);
  }

  /** Filters that differ only in paging select and order the same rows. */
  lemma SameMatching(db: Db, f: Filters, g: Filters)
    requires g == f.(limit := g.limit, offset := g.offset)
    ensures Matching(db, g) == Matching(db, f)
    ensures g.sortBy == f.sortBy && g.sortOrder == f.sortOrder
  {
    assert BuildWhere(g) == BuildWhere(f);
  }

  /** With a date bound given, the text search is dropped: a screenshot with
      no OCR record is listed by `q` plus `dateFrom`, but not by `q` alone. */
  lemma DateRangeDropsTextFilter(db: Db, s: Screenshot, q: string, from: Time)
    requires s in db.screenshots && !s.isDeleted && s.id !in db.ocr
    requires q != "" && from <= s.createdAt
    ensures var withDate := Filters(Some(q), None, Some(from), None, None, None, None, None);
      s in Matching(db, withDate) && s !in Matching(db, withDate.(dateFrom := None))
  {
  }

  /** `getScreenshotById`: the screenshot with that id unless it is missing
      or soft-deleted, with its tag summaries and OCR record. */
  function GetScreenshotById(db: Db, id: Id): (r: Option<Item>)
    ensures r.Some? ==> r.value.screenshot.id == id && !r.value.screenshot.isDeleted
    ensures r.Some? ==> r.value.screenshot in db.screenshots && r.value == Expand(db, r.value.screenshot)
    ensures r.None? <==> forall j :: 0 <= j < |db.screenshots| ==> db.screenshots[j].id != id || db.screenshots[j].isDeleted
  {
    match FindLive(db.screenshots, id)
    case None => None
    case Some(i) => Some(Expand(db, db.screenshots[i]))
  }

  /** Every listed item is what `getScreenshotById` returns for its id. */
  lemma ListedItemsAreFetchable(db: Db, f: Filters, k: nat)
    requires Valid(db)
    requires ListScreenshots(db, f).Ok? && k < |ListScreenshots(db, f).value.items|
    ensures var item := ListScreenshots(db, f).value.items[k];
      GetScreenshotById(db, item.screenshot.id) == Some(item)
  {
    var item := ListScreenshots(db, f).value.items[k];
    var i :| 0 <= i < |db.screenshots| && db.screenshots[i] == item.screenshot;
    FindLiveUnique(db.screenshots, item.screenshot.id, i);
  }

  /** With unique ids, a live screenshot is the one `FindLive` finds. */
  lemma {:induction false} FindLiveUnique(ss: seq<Screenshot>, id: Id, i: nat)
    requires UniqueIds(ss) && i < |ss| && ss[i].id == id && !ss[i].isDeleted
    ensures FindLive(ss, id) == Some(i)
  {
    if i > 0 {
      assert ss[0].id != id;
      assert UniqueIds(ss[1..]) by {
        forall a, b | 0 <= a < b < |ss[1..]|
          ensures ss[1..][a].id != ss[1..][b].id
        {
          assert ss[1..][a] == ss[a + 1] && ss[1..][b] == ss[b + 1];
        }
      }
      FindLiveUnique(ss[1..], id, i - 1);
    }
  }
}
