/**
 * ResearchService: create a research paper under a unique slug, read one by
 * id or slug (each read counts a view), update it, delete it, and list a page
 * of papers, filtered by category, search text and publication date.
 */
module Research {
  import opened Errors
  import opened Lists
  import opened Translations
  import opened Identity
  import opened Content
  import opened ContentTables
  import opened Calendar
  import Pagination
  import ExceptionFilter

  const SLUG_EXISTS := "Research with this slug already exists"

  function NotFoundById(id: int): string {
    "Research with ID " + IntToDecimal(id) + " not found"
  }

  function NotFoundBySlug(slug: string): string {
    "Research with slug \"" + slug + "\" not found"
  }

  /** `publishedAt` is the instant its date string denotes; an empty string counts as absent. */
  datatype CreateResearchDto = CreateResearchDto(
    slug: Option<string>, publishedAt: Option<Instant>, pages: Option<int>, isPublished: Option<bool>,
    categoryId: int, fileId: Option<int>, translations: seq<Translation<ResearchText>>,
    tagIds: Option<seq<int>>)

  /** Every field of the create DTO, each optional. */
  datatype UpdateResearchDto = UpdateResearchDto(
    slug: Option<string>, publishedAt: Option<Instant>, pages: Option<int>, isPublished: Option<bool>,
    categoryId: Option<int>, fileId: Option<int>, translations: Option<seq<Translation<ResearchText>>>,
    tagIds: Option<seq<int>>)

  function ResearchTitle(t: ResearchText): string { t.title }

  /** The row `create` inserts: `publishedAt` null unless given; a new paper has not been viewed. */
  function NewResearch(id: int, slug: string, dto: CreateResearchDto, now: Instant): (r: Research)
    ensures r.id == id && r.slug == slug && r.views == 0 && r.createdAt == now
    ensures r.publishedAt == dto.publishedAt && r.translations == dto.translations
    ensures dto.tagIds.Some? ==> r.tagIds == dto.tagIds.value
    ensures dto.tagIds.None? ==> r.tagIds == []
  {
    Research(id, slug, dto.publishedAt, dto.pages, dto.isPublished, dto.categoryId, dto.fileId, 0, now,
             dto.translations, LinksOnCreate(dto.tagIds))
  }

  /** The row after `update`'s write: the given scalar fields overwrite, the
      publication date only when given, and the translation and tag lists are
      replaced when given. */
  function ApplyResearchUpdate(p: Research, dto: UpdateResearchDto): (r: Research)
    ensures r.id == p.id && r.views == p.views && r.createdAt == p.createdAt
    ensures dto.slug.None? ==> r.slug == p.slug
    ensures dto.slug.Some? ==> r.slug == dto.slug.value
    ensures dto.publishedAt.None? ==> r.publishedAt == p.publishedAt
    ensures dto.publishedAt.Some? ==> r.publishedAt == dto.publishedAt
    ensures dto.pages.None? ==> r.pages == p.pages
    ensures dto.pages.Some? ==> r.pages == dto.pages
    ensures dto.isPublished.None? ==> r.isPublished == p.isPublished
    ensures dto.isPublished.Some? ==> r.isPublished == dto.isPublished
    ensures dto.categoryId.None? ==> r.categoryId == p.categoryId
    ensures dto.categoryId.Some? ==> r.categoryId == dto.categoryId.value
    ensures dto.fileId.None? ==> r.fileId == p.fileId
    ensures dto.fileId.Some? ==> r.fileId == dto.fileId
    ensures dto.translations.None? ==> r.translations == p.translations
    ensures dto.translations.Some? ==> r.translations == dto.translations.value
    ensures dto.tagIds.None? ==> r.tagIds == p.tagIds
    ensures dto.tagIds.Some? ==> r.tagIds == dto.tagIds.value
  {
    p.(slug := dto.slug.GetOr(p.slug),
       publishedAt := Over(dto.publishedAt, p.publishedAt),
       pages := Over(dto.pages, p.pages), isPublished := Over(dto.isPublished, p.isPublished),
       categoryId := dto.categoryId.GetOr(p.categoryId), fileId := Over(dto.fileId, p.fileId),
       translations := ReplaceAll(p.translations, dto.translations),
       tagIds := ReplaceAll(p.tagIds, dto.tagIds))
  }

  /** Sending the same update twice leaves the row as sending it once. */
  lemma ResearchUpdateIdempotent(p: Research, dto: UpdateResearchDto)
    ensures ApplyResearchUpdate(ApplyResearchUpdate(p, dto), dto) == ApplyResearchUpdate(p, dto)
  {
  }

  /** The row with its view counter bumped by one. */
  function Viewed(p: Research): (r: Research)
    ensures r.views == p.views + 1 && r.id == p.id && r.slug == p.slug
  {
    p.(views := p.views + 1)
  }

  /** The response of `findOne`/`findBySlug` and of each `findAll` item. */
  datatype ResearchView = ResearchView(
    id: int, slug: string, text: Option<ResearchText>, categoryId: int, category: Option<Summary>,
    fileId: Option<int>, publishedAt: Option<Instant>, isPublished: Option<bool>, views: nat,
    createdAt: Instant, tags: seq<Summary>)

  /** `formatResearchResponse(research, lang)`. */
  function FormatResearch(categories: seq<Category>, tags: seq<Tag>, lang: Option<string>): Research -> ResearchView {
    (p: Research) =>
      ResearchView(p.id, p.slug, Chosen(p.translations, lang), p.categoryId, CategoryField(categories, p.categoryId, lang),
                   p.fileId, p.publishedAt, p.isPublished, p.views, p.createdAt, TagsField(tags, p.tagIds, lang))
  }

  /** A `publishedAt` condition: `gte`, `lte` and `lt` bounds, each optional. */
  datatype DateRange = DateRange(gte: Option<Instant>, lte: Option<Instant>, lt: Option<Instant>)

  /** A row's publication date meets the condition; a null date meets none. */
  predicate InRange(publishedAt: Option<Instant>, c: DateRange) {
    && publishedAt.Some?
    && (c.gte.Some? ==> c.gte.value <= publishedAt.value)
    && (c.lte.Some? ==> publishedAt.value <= c.lte.value)
    && (c.lt.Some? ==> publishedAt.value < c.lt.value)
  }

  /** `where.publishedAt` of `findAll`: the year as the closed range from
      `YYYY-01-01` to `YYYY-12-31`, both at midnight, and a `dateFrom`
      replacing it with a lower bound alone. */
  function FindAllDates(year: Option<int>, dateFrom: Option<Instant>): Option<DateRange> {
    if dateFrom.Some? then Some(DateRange(dateFrom, None, None))
    else if year.Some? then Some(DateRange(Some(YearStart(year.value)), Some(LastDayStart(year.value)), None))
    else None
  }

  /** `where.publishedAt` of `findAllLanguages`: the year as the half-open
      range from `YYYY-01-01` up to the next year's `01-01`, and a `dateFrom`
      replacing it with a lower bound alone. */
  function YearDates(year: Option<int>, dateFrom: Option<Instant>): Option<DateRange> {
    if dateFrom.Some? then Some(DateRange(dateFrom, None, None))
    else if year.Some? then Some(DateRange(Some(YearStart(year.value)), None, Some(YearStart(year.value + 1))))
    else None
  }

  /** A row meets an optional `publishedAt` condition. */
  predicate DatesMatch(publishedAt: Option<Instant>, c: Option<DateRange>) {
    c.Some? ==> InRange(publishedAt, c.value)
  }

  /** As written, the `findAll` year filter drops every paper published on
      December 31 after midnight: one second past it is in the year, yet
      outside the filter, while `findAllLanguages` keeps it. */
  lemma FindAllYearMissesLastDay(y: int)
    ensures var t := LastDayStart(y) + 1;
      && InYear(t, y)
      && !DatesMatch(Some(t), FindAllDates(Some(y), None))
      && DatesMatch(Some(t), YearDates(Some(y), None))
  {
    NextYearStart(y);
  }

  /** The half-open year filter admits exactly the papers published in the
      year, and no paper is admitted by the filters of two different years.
      Without a year and a start date every paper passes; a start date alone
      admits the papers published from it on, whatever the year. */
  lemma YearDatesExact(publishedAt: Option<Instant>, y: int, z: int, dateFrom: Option<Instant>)
    ensures DatesMatch(publishedAt, YearDates(Some(y), None)) <==> publishedAt.Some? && InYear(publishedAt.value, y)
    ensures DatesMatch(publishedAt, YearDates(Some(y), None)) && DatesMatch(publishedAt, YearDates(Some(z), None)) ==> y == z
    ensures DatesMatch(publishedAt, YearDates(None, None))
    ensures dateFrom.Some? ==>
      (DatesMatch(publishedAt, YearDates(Some(y), dateFrom)) <==> publishedAt.Some? && dateFrom.value <= publishedAt.value)
  {
    if DatesMatch(publishedAt, YearDates(Some(y), None)) && DatesMatch(publishedAt, YearDates(Some(z), None)) {
      InOneYear(publishedAt.value, y, z);
    }
  }

  /** `title`, `abstract` or `authors` contains the search text. */
  function ResearchMatches(text: ResearchText, search: string, contains: (string, string) -> bool): bool {
    || contains(text.title, search)
    || (text.abstractText.Some? && contains(text.abstractText.value, search))
    || (text.authors.Some? && contains(text.authors.value, search))
  }

  /** The `where` of `findAll`: the category when one is given (0 counts as
      none), a translation matching the search (in the requested language
      when there is one), and the publication date condition. */
  function ResearchWhere(lang: Option<string>, categoryId: Option<int>, search: Option<string>,
                         contains: (string, string) -> bool, dates: Option<DateRange>): Research -> bool {
    (p: Research) =>
      && (categoryId.Some? && categoryId.value != 0 ==> p.categoryId == categoryId.value)
      && (Given(search) ==>
            exists k :: 0 <= k < |p.translations|
              && (Given(lang) ==> p.translations[k].languageCode == lang.value)
              && ResearchMatches(p.translations[k].content, search.value, contains))
      && DatesMatch(p.publishedAt, dates)
  }

  /** `findAll(lang, page, limit, categoryId, search, year, dateFrom)`: a
      page of matching papers, newest first, formatted in the language. */
  function FindAll(
    research: seq<Research>, categories: seq<Category>, tags: seq<Tag>, lang: Option<string>,
    page: Option<int>, limit: Option<int>, categoryId: Option<int>, search: Option<string>,
    year: Option<int>, dateFrom: Option<Instant>, contains: (string, string) -> bool): (r: Result<Listing<ResearchView>>)
    requires limit.GetOr(Pagination.DEFAULT_LIMIT) > 0
    ensures r.Ok? <==> page.GetOr(Pagination.DEFAULT_PAGE) >= 1
    ensures r.Ok? ==>
      r.value.pagination.totalItems == |Filter(research, ResearchWhere(lang, categoryId, search, contains, FindAllDates(year, dateFrom)))|
    ensures r.Ok? ==> forall v :: v in r.value.items ==>
      exists p :: p in research && DatesMatch(p.publishedAt, FindAllDates(year, dateFrom))
        && v == FormatResearch(categories, tags, lang)(p)
  {
    ListPage(research, ResearchWhere(lang, categoryId, search, contains, FindAllDates(year, dateFrom)),
             page, limit, FormatResearch(categories, tags, lang))
  }

  /** With a year and no start date every paper `findAll` lists was
      published in that year (though not every such paper is listed). */
  lemma FindAllYearItems(
    research: seq<Research>, categories: seq<Category>, tags: seq<Tag>, lang: Option<string>,
    page: Option<int>, limit: Option<int>, categoryId: Option<int>, search: Option<string>,
    y: int, contains: (string, string) -> bool)
    requires limit.GetOr(Pagination.DEFAULT_LIMIT) > 0 && page.GetOr(Pagination.DEFAULT_PAGE) >= 1
    ensures var r := FindAll(research, categories, tags, lang, page, limit, categoryId, search, Some(y), None, contains);
      forall v :: v in r.value.items ==> v.publishedAt.Some? && InYear(v.publishedAt.value, y)
  {
    NextYearStart(y);
  }

  /** An item of `findAllLanguages`: the paper with all its translations and
      those of its category and tags. */
  datatype ResearchAllView = ResearchAllView(
    id: int, slug: string, translations: seq<Translation<ResearchText>>, categoryId: int,
    category: Option<AllSummary>, publishedAt: Option<Instant>, views: nat, createdAt: Instant,
    tags: seq<AllSummary>)

  function AllLanguagesItem(categories: seq<Category>, tags: seq<Tag>): Research -> ResearchAllView {
    (p: Research) =>
      ResearchAllView(p.id, p.slug, p.translations, p.categoryId, CategoryAllField(categories, p.categoryId),
                      p.publishedAt, p.views, p.createdAt, Map(LinkedTags(tags, p.tagIds), TagAllSummary))
  }

  /** The `where` of `findAllLanguages` without a search: the category when
      one is given (0 counts as none) and the publication date condition. */
  function AllLanguagesWhere(categoryId: Option<int>, dates: Option<DateRange>): Research -> bool {
    (p: Research) =>
      && (categoryId.Some? && categoryId.value != 0 ==> p.categoryId == categoryId.value)
      && DatesMatch(p.publishedAt, dates)
  }

  /** What the Prisma client says of the search condition of `findAllLanguages`:
      research translations have no `summary` column to filter on. */
  const UNKNOWN_SUMMARY := "Unknown argument `summary`"

  /** `findAllLanguages(page, limit, categoryId, search, year, dateFrom)`.
      With a search, the query names the column `summary`, which research
      translations do not have, and the Prisma client rejects the query
      before it reaches the database. */
  function FindAllLanguages(
    research: seq<Research>, categories: seq<Category>, tags: seq<Tag>,
    page: Option<int>, limit: Option<int>, categoryId: Option<int>, search: Option<string>,
    year: Option<int>, dateFrom: Option<Instant>): (r: Result<Listing<ResearchAllView>>)
    requires limit.GetOr(Pagination.DEFAULT_LIMIT) > 0
    ensures Given(search) ==> r == Err(PrismaValidation(UNKNOWN_SUMMARY))
    ensures !Given(search) ==> (r.Ok? <==> page.GetOr(Pagination.DEFAULT_PAGE) >= 1)
    ensures r.Ok? ==>
      r.value.pagination.totalItems == |Filter(research, AllLanguagesWhere(categoryId, YearDates(year, dateFrom)))|
    ensures r.Ok? ==> forall v :: v in r.value.items ==>
      exists p :: p in research && DatesMatch(p.publishedAt, YearDates(year, dateFrom)) && v.translations == p.translations
  {
    if Given(search) then Err(PrismaValidation(UNKNOWN_SUMMARY))
    else ListPage(research, AllLanguagesWhere(categoryId, YearDates(year, dateFrom)),
                  page, limit, AllLanguagesItem(categories, tags))
  }

  /** As written, every `findAllLanguages` call with a search text fails, and
      the exception filter answers 400 "Invalid data provided to database". */
  lemma FindAllLanguagesSearchRejected(
    research: seq<Research>, categories: seq<Category>, tags: seq<Tag>,
    page: Option<int>, limit: Option<int>, categoryId: Option<int>, search: Option<string>,
    year: Option<int>, dateFrom: Option<Instant>)
    requires limit.GetOr(Pagination.DEFAULT_LIMIT) > 0 && Given(search)
    ensures var r := FindAllLanguages(research, categories, tags, page, limit, categoryId, search, year, dateFrom);
      && r.Err?
      && ExceptionFilter.Catch(r.error) ==
           (BAD_REQUEST, ExceptionFilter.ErrorBody("error", "Invalid data provided to database"))
  {
  }

  /** `findAllLanguages` with the search it evidently means: the `findAll`
      search (title, abstract or authors) in a translation of any language. */
  function FindAllLanguagesSearched(
    research: seq<Research>, categories: seq<Category>, tags: seq<Tag>,
    page: Option<int>, limit: Option<int>, categoryId: Option<int>, search: Option<string>,
    year: Option<int>, dateFrom: Option<Instant>, contains: (string, string) -> bool): (r: Result<Listing<ResearchAllView>>)
    requires limit.GetOr(Pagination.DEFAULT_LIMIT) > 0
    ensures r.Ok? <==> page.GetOr(Pagination.DEFAULT_PAGE) >= 1
    ensures r.Ok? ==>
      r.value.pagination.totalItems == |Filter(research, ResearchWhere(None, categoryId, search, contains, YearDates(year, dateFrom)))|
    ensures r.Ok? ==> forall v :: v in r.value.items ==>
      exists p :: p in research && ResearchWhere(None, categoryId, search, contains, YearDates(year, dateFrom))(p)
        && v.translations == p.translations
  {
    ListPage(research, ResearchWhere(None, categoryId, search, contains, YearDates(year, dateFrom)),
             page, limit, AllLanguagesItem(categories, tags))
  }

  /** The corrected listing: every listed paper has a translation, in some
      language, that matches the search; without a search it is the listing
      as written; and it accepts every paper the search of any one language
      accepts. */
  lemma SearchedListingCorrect(
    research: seq<Research>, categories: seq<Category>, tags: seq<Tag>,
    page: Option<int>, limit: Option<int>, categoryId: Option<int>, search: Option<string>,
    year: Option<int>, dateFrom: Option<Instant>, contains: (string, string) -> bool,
    lang: Option<string>, p: Research)
    requires limit.GetOr(Pagination.DEFAULT_LIMIT) > 0 && page.GetOr(Pagination.DEFAULT_PAGE) >= 1
    ensures var r := FindAllLanguagesSearched(research, categories, tags, page, limit, categoryId, search, year, dateFrom, contains);
      Given(search) ==> forall v :: v in r.value.items ==>
        exists k :: 0 <= k < |v.translations| && ResearchMatches(v.translations[k].content, search.value, contains)
    ensures !Given(search) ==>
      FindAllLanguagesSearched(research, categories, tags, page, limit, categoryId, search, year, dateFrom, contains) ==
      FindAllLanguages(research, categories, tags, page, limit, categoryId, search, year, dateFrom)
    ensures ResearchWhere(lang, categoryId, search, contains, YearDates(year, dateFrom))(p) ==>
      ResearchWhere(None, categoryId, search, contains, YearDates(year, dateFrom))(p)
  {
    var dates := YearDates(year, dateFrom);
    if !Given(search) {
      FilterSameTest(research, ResearchWhere(None, categoryId, search, contains, dates), AllLanguagesWhere(categoryId, dates));
    }
  }

  /** With a year and no start date every paper `findAllLanguages` lists was
      published in that year. */
  lemma FindAllLanguagesYearItems(
    research: seq<Research>, categories: seq<Category>, tags: seq<Tag>,
    page: Option<int>, limit: Option<int>, categoryId: Option<int>, search: Option<string>,
    y: int, contains: (string, string) -> bool)
    requires limit.GetOr(Pagination.DEFAULT_LIMIT) > 0
    ensures var r := FindAllLanguages(research, categories, tags, page, limit, categoryId, search, Some(y), None);
      r.Ok? ==> forall v :: v in r.value.items ==> v.publishedAt.Some? && InYear(v.publishedAt.value, y)
    ensures var r := FindAllLanguagesSearched(research, categories, tags, page, limit, categoryId, search, Some(y), None, contains);
      r.Ok? ==> forall v :: v in r.value.items ==> v.publishedAt.Some? && InYear(v.publishedAt.value, y)
  {
    var format := AllLanguagesItem(categories, tags);
    var dates := YearDates(Some(y), None);
    if !Given(search) && page.GetOr(Pagination.DEFAULT_PAGE) >= 1 {
      YearItems(research, AllLanguagesWhere(categoryId, dates), page, limit, format, y);
    }
    if page.GetOr(Pagination.DEFAULT_PAGE) >= 1 {
      YearItems(research, ResearchWhere(None, categoryId, search, contains, dates), page, limit, format, y);
    }
  }

  /** A listing whose filter includes the half-open year condition lists
      papers of that year only. */
  lemma YearItems(research: seq<Research>, where: Research -> bool, page: Option<int>, limit: Option<int>,
                  format: Research -> ResearchAllView, y: int)
    requires limit.GetOr(Pagination.DEFAULT_LIMIT) > 0 && page.GetOr(Pagination.DEFAULT_PAGE) >= 1
    requires forall p :: where(p) ==> DatesMatch(p.publishedAt, YearDates(Some(y), None))
    requires forall p :: format(p).publishedAt == p.publishedAt
    ensures forall v :: v in ListPage(research, where, page, limit, format).value.items ==>
      v.publishedAt.Some? && InYear(v.publishedAt.value, y)
  {
    var r := ListPage(research, where, page, limit, format);
    forall v: ResearchAllView | v in r.value.items ensures v.publishedAt.Some? && InYear(v.publishedAt.value, y) {
      var p :| p in research && where(p) && v == format(p);
      YearDatesExact(p.publishedAt, y, y, None);
    }
  }

  class ResearchService {
    const db: ContentDb

    constructor(db: ContentDb)
      ensures this.db == db
    {
      this.db := db;
    }

    /** `create(dto)`: derive the slug, refuse one in use, insert the row. */
    method Create(dto: CreateResearchDto, now: Instant) returns (r: Result<Research>)
      requires db.Valid()
      modifies db`research, db`nextResearchId
      ensures db.Valid()
      ensures var slug := DeriveSlug(dto.slug, dto.translations, ResearchTitle);
        if SlugHeld(old(db.research), ResearchSlug, slug) then
          && r == Err(Conflict(SLUG_EXISTS))
          && db.research == old(db.research) && db.nextResearchId == old(db.nextResearchId)
        else
          && r == Ok(NewResearch(old(db.nextResearchId), slug, dto, now))
          && db.research == old(db.research) + [r.value] && db.nextResearchId == old(db.nextResearchId) + 1
          && FindBy(db.research, ResearchSlug, slug) == Some(r.value)
    {
      var slug := DeriveSlug(dto.slug, dto.translations, ResearchTitle);
      if SlugHeld(db.research, ResearchSlug, slug) {
        return Err(Conflict(SLUG_EXISTS));
      }
      var p := NewResearch(db.nextResearchId, slug, dto, now);
      TableInsert(db.research, p, ResearchId, ResearchSlug, db.nextResearchId);
      db.research := db.research + [p];
      db.nextResearchId := db.nextResearchId + 1;
      r := Ok(p);
    }

    /** Count a view of row i and answer with the row as read before the increment. */
    method ViewAt(i: int, lang: Option<string>) returns (v: ResearchView)
      requires db.Valid() && 0 <= i < |db.research|
      modifies db`research
      ensures db.Valid()
      ensures db.research == old(db.research)[i := Viewed(old(db.research)[i])]
      ensures v == FormatResearch(db.categories, db.tags, lang)(old(db.research)[i])
      ensures db.research[i].views == v.views + 1
    {
      var p := db.research[i];
      OwnSlugFree(db.research, i, ResearchId, ResearchSlug, db.nextResearchId);
      TableReplace(db.research, i, Viewed(p), ResearchId, ResearchSlug, db.nextResearchId);
      db.research := db.research[i := Viewed(p)];
      v := FormatResearch(db.categories, db.tags, lang)(p);
    }

    /** `findOne(id, lang)`: NotFound, or one more view and the row as it was read. */
    method FindOne(id: int, lang: Option<string>) returns (r: Result<ResearchView>)
      requires db.Valid()
      modifies db`research
      ensures db.Valid()
      ensures match IndexBy(old(db.research), ResearchId, id)
        case None => r == Err(NotFound(NotFoundById(id))) && db.research == old(db.research)
        case Some(i) =>
          && db.research == old(db.research)[i := Viewed(old(db.research)[i])]
          && r == Ok(FormatResearch(db.categories, db.tags, lang)(old(db.research)[i]))
      ensures r.Ok? ==> exists p :: p in db.research && p.id == id && p.views == r.value.views + 1
    {
      var index := IndexBy(db.research, ResearchId, id);
      if index.None? {
        return Err(NotFound(NotFoundById(id)));
      }
      var v := ViewAt(index.value, lang);
      r := Ok(v);
      assert db.research[index.value].id == id;
    }

    /** `findBySlug(slug, lang)`: as `findOne`, keyed by the slug. */
    method FindBySlug(slug: string, lang: Option<string>) returns (r: Result<ResearchView>)
      requires db.Valid()
      modifies db`research
      ensures db.Valid()
      ensures match IndexBy(old(db.research), ResearchSlug, slug)
        case None => r == Err(NotFound(NotFoundBySlug(slug))) && db.research == old(db.research)
        case Some(i) =>
          && db.research == old(db.research)[i := Viewed(old(db.research)[i])]
          && r == Ok(FormatResearch(db.categories, db.tags, lang)(old(db.research)[i]))
      ensures r.Ok? ==> exists p :: p in db.research && p.slug == slug && p.views == r.value.views + 1
    {
      var index := IndexBy(db.research, ResearchSlug, slug);
      if index.None? {
        return Err(NotFound(NotFoundBySlug(slug)));
      }
      var v := ViewAt(index.value, lang);
      r := Ok(v);
      assert db.research[index.value].slug == slug;
    }

    /** `update(id, dto)`: `findOne` first (NotFound, or one more view, which
        stays even when the update is then refused), a non-empty new slug
        that another paper holds is a Conflict, then the write; the slug
        column is unique, so an empty slug another paper holds fails there. */
    method Update(id: int, dto: UpdateResearchDto) returns (r: Result<Research>)
      requires db.Valid()
      modifies db`research
      ensures db.Valid()
      ensures match IndexBy(old(db.research), ResearchId, id)
        case None => r == Err(NotFound(NotFoundById(id))) && db.research == old(db.research)
        case Some(i) =>
          var seen := Viewed(old(db.research)[i]);
          var u := ApplyResearchUpdate(seen, dto);
          if Given(dto.slug) && SlugHeldByOther(old(db.research), ResearchId, ResearchSlug, dto.slug.value, id) then
            r == Err(Conflict(SLUG_EXISTS)) && db.research == old(db.research)[i := seen]
          else if SlugHeldByOther(old(db.research), ResearchId, ResearchSlug, u.slug, id) then
            r == Err(UniqueViolation(["slug"])) && db.research == old(db.research)[i := seen]
          else
            r == Ok(u) && db.research == old(db.research)[i := u]
    {
      var before := db.research;
      var index := IndexBy(db.research, ResearchId, id);
      if index.None? {
        return Err(NotFound(NotFoundById(id)));
      }
      var i := index.value;
      var _ := ViewAt(i, None);
      r := WriteAt(i, id, dto, before);
    }

    /** The part of `update` after `findOne` counted its view of row i: the
        slug check and the write. */
    method WriteAt(i: int, id: int, dto: UpdateResearchDto, ghost before: seq<Research>) returns (r: Result<Research>)
      requires db.Valid() && TableValid(before, ResearchId, ResearchSlug, db.nextResearchId)
      requires 0 <= i < |before| && id == before[i].id && db.research == before[i := Viewed(before[i])]
      modifies db`research
      ensures db.Valid()
      ensures
        var u := ApplyResearchUpdate(Viewed(before[i]), dto);
        if Given(dto.slug) && SlugHeldByOther(before, ResearchId, ResearchSlug, dto.slug.value, id) then
          r == Err(Conflict(SLUG_EXISTS)) && db.research == old(db.research)
        else if SlugHeldByOther(before, ResearchId, ResearchSlug, u.slug, id) then
          r == Err(UniqueViolation(["slug"])) && db.research == old(db.research)
        else
          r == Ok(u) && db.research == before[i := u]
    {
      SameKeysSameHolders(before, i, Viewed(before[i]), ResearchId, ResearchSlug);
      if Given(dto.slug) && SlugHeldByOther(db.research, ResearchId, ResearchSlug, dto.slug.value, id) {
        return Err(Conflict(SLUG_EXISTS));
      }
      var u := ApplyResearchUpdate(db.research[i], dto);
      if SlugHeldByOther(db.research, ResearchId, ResearchSlug, u.slug, id) {
        return Err(UniqueViolation(["slug"]));
      }
      TableReplace(before, i, u, ResearchId, ResearchSlug, db.nextResearchId);
      db.research := db.research[i := u];
      assert db.research == before[i := u];
      r := Ok(u);
    }

    /** `remove(id)`: `findOne` first (NotFound, or one more view), then the
        delete, which answers with the deleted row; no other row changes. */
    method Remove(id: int) returns (r: Result<Research>)
      requires db.Valid()
      modifies db`research
      ensures db.Valid()
      ensures match IndexBy(old(db.research), ResearchId, id)
        case None => r == Err(NotFound(NotFoundById(id))) && db.research == old(db.research)
        case Some(i) => r == Ok(Viewed(old(db.research)[i])) && db.research == RemoveAt(old(db.research), i)
      ensures forall p :: p in db.research ==> p.id != id
    {
      var before := db.research;
      var index := IndexBy(db.research, ResearchId, id);
      if index.None? {
        return Err(NotFound(NotFoundById(id)));
      }
      var i := index.value;
      var _ := ViewAt(i, None);
      r := Ok(db.research[i]);
      TableRemove(db.research, i, ResearchId, ResearchSlug, db.nextResearchId);
      assert RemoveAt(db.research, i) == RemoveAt(before, i);
      db.research := RemoveAt(db.research, i);
    }
  }
}
