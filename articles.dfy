/**
 * ArticlesService: create an article under a unique slug, read one by id or
 * slug (each read counts a view), update it, delete it, and list a page of
 * articles in one language or in all of them.
 */
module Articles {
  import opened Errors
  import opened Lists
  import opened Translations
  import opened Identity
  import opened Content
  import opened ContentTables
  import Pagination

  const SLUG_EXISTS := "Article with this slug already exists"

  function NotFoundById(id: int): string {
    "Article with ID " + IntToDecimal(id) + " not found"
  }

  function NotFoundBySlug(slug: string): string {
    "Article with slug \"" + slug + "\" not found"
  }

  datatype CreateArticleDto = CreateArticleDto(
    slug: Option<string>, publishedAt: Option<Instant>, isPublished: Option<bool>,
    categoryId: int, mainImageId: Option<int>, translations: seq<Translation<ArticleText>>,
    tagIds: Option<seq<int>>, attachmentIds: Option<seq<int>>)

  /** Every field of the create DTO, each optional. */
  datatype UpdateArticleDto = UpdateArticleDto(
    slug: Option<string>, publishedAt: Option<Instant>, isPublished: Option<bool>,
    categoryId: Option<int>, mainImageId: Option<int>, translations: Option<seq<Translation<ArticleText>>>,
    tagIds: Option<seq<int>>, attachmentIds: Option<seq<int>>)

  function ArticleTitle(t: ArticleText): string { t.title }

  /** The row `create` inserts; a new article has not been viewed. */
  function NewArticle(id: int, slug: string, dto: CreateArticleDto, now: Instant): (r: Article)
    ensures r.id == id && r.slug == slug && r.views == 0 && r.createdAt == now
    ensures dto.publishedAt.None? ==> r.publishedAt.None?
    ensures r.translations == dto.translations
    ensures dto.tagIds.Some? ==> r.tagIds == dto.tagIds.value
    ensures dto.tagIds.None? ==> r.tagIds == []
    ensures dto.attachmentIds.Some? ==> r.attachmentIds == dto.attachmentIds.value
    ensures dto.attachmentIds.None? ==> r.attachmentIds == []
  {
    Article(id, slug, dto.categoryId, dto.mainImageId, dto.publishedAt, dto.isPublished, 0, now,
            dto.translations, LinksOnCreate(dto.tagIds), LinksOnCreate(dto.attachmentIds))
  }

  /** The row after `update`'s write: the given scalar fields overwrite
      (`...updateData`), publishedAt only when given, and the translation,
      tag and attachment lists are replaced when given. */
  function ApplyArticleUpdate(a: Article, dto: UpdateArticleDto): (r: Article)
    ensures r.id == a.id && r.views == a.views && r.createdAt == a.createdAt
    ensures dto.slug.None? ==> r.slug == a.slug
    ensures dto.slug.Some? ==> r.slug == dto.slug.value
    ensures dto.categoryId.None? ==> r.categoryId == a.categoryId
    ensures dto.categoryId.Some? ==> r.categoryId == dto.categoryId.value
    ensures dto.mainImageId.None? ==> r.mainImageId == a.mainImageId
    ensures dto.mainImageId.Some? ==> r.mainImageId == dto.mainImageId
    ensures dto.isPublished.None? ==> r.isPublished == a.isPublished
    ensures dto.isPublished.Some? ==> r.isPublished == dto.isPublished
    ensures dto.publishedAt.None? ==> r.publishedAt == a.publishedAt
    ensures dto.publishedAt.Some? ==> r.publishedAt == dto.publishedAt
    ensures dto.translations.None? ==> r.translations == a.translations
    ensures dto.translations.Some? ==> r.translations == dto.translations.value
    ensures dto.tagIds.None? ==> r.tagIds == a.tagIds
    ensures dto.tagIds.Some? ==> r.tagIds == dto.tagIds.value
    ensures dto.attachmentIds.None? ==> r.attachmentIds == a.attachmentIds
    ensures dto.attachmentIds.Some? ==> r.attachmentIds == dto.attachmentIds.value
  {
    a.(slug := dto.slug.GetOr(a.slug),
       categoryId := dto.categoryId.GetOr(a.categoryId),
       mainImageId := if dto.mainImageId.Some? then dto.mainImageId else a.mainImageId,
       isPublished := if dto.isPublished.Some? then dto.isPublished else a.isPublished,
       publishedAt := if dto.publishedAt.Some? then dto.publishedAt else a.publishedAt,
       translations := ReplaceAll(a.translations, dto.translations),
       tagIds := ReplaceAll(a.tagIds, dto.tagIds),
       attachmentIds := ReplaceAll(a.attachmentIds, dto.attachmentIds))
  }

  /** Sending the same update twice leaves the row as sending it once. */
  lemma ArticleUpdateIdempotent(a: Article, dto: UpdateArticleDto)
    ensures ApplyArticleUpdate(ApplyArticleUpdate(a, dto), dto) == ApplyArticleUpdate(a, dto)
  {
  }

  /** An update that gives no field changes nothing. */
  lemma EmptyArticleUpdate(a: Article)
    ensures ApplyArticleUpdate(a, UpdateArticleDto(None, None, None, None, None, None, None, None)) == a
  {
  }

  /** The row with its view counter bumped by `update({data: {views: {increment: 1}}})`. */
  function Viewed(a: Article): (r: Article)
    ensures r.views == a.views + 1 && r.id == a.id && r.slug == a.slug
  {
    a.(views := a.views + 1)
  }

  /** The response of `findOne`/`findBySlug` and of each `findAll` item. */
  datatype ArticleView = ArticleView(
    id: int, slug: string, text: Option<ArticleText>, categoryId: int, category: Option<Summary>,
    mainImageId: Option<int>, publishedAt: Option<Instant>, isPublished: Option<bool>, views: nat,
    createdAt: Instant, tags: seq<Summary>, attachmentIds: seq<int>)

  /** `formatArticleResponse(article, lang)`. */
  function FormatArticle(categories: seq<Category>, tags: seq<Tag>, lang: Option<string>): Article -> ArticleView {
    (a: Article) =>
      ArticleView(a.id, a.slug, Chosen(a.translations, lang), a.categoryId, CategoryField(categories, a.categoryId, lang),
                  a.mainImageId, a.publishedAt, a.isPublished, a.views, a.createdAt,
                  TagsField(tags, a.tagIds, lang), a.attachmentIds)
  }

  /** `title`, `summary` or `body` contains the search text; `contains` is the
      database's case-insensitive substring test. */
  function ArticleMatches(text: ArticleText, search: string, contains: (string, string) -> bool): bool {
    contains(text.title, search) || (text.summary.Some? && contains(text.summary.value, search)) || contains(text.body, search)
  }

  /** The `where` of `findAll`: the category when one is given (0 counts as
      none), and a translation matching the search, in the requested language
      when there is one. `findAllLanguages` passes no language. */
  function ArticleWhere(lang: Option<string>, categoryId: Option<int>, search: Option<string>, contains: (string, string) -> bool): Article -> bool {
    (a: Article) =>
      && (categoryId.Some? && categoryId.value != 0 ==> a.categoryId == categoryId.value)
      && (Given(search) ==>
            exists k :: 0 <= k < |a.translations|
              && (Given(lang) ==> a.translations[k].languageCode == lang.value)
              && ArticleMatches(a.translations[k].content, search.value, contains))
  }

  /** `findAll(lang, page, limit, categoryId, search)`: a page of matching
      articles, newest first, each formatted in the requested language. */
  function FindAll(
    articles: seq<Article>, categories: seq<Category>, tags: seq<Tag>, lang: Option<string>,
    page: Option<int>, limit: Option<int>, categoryId: Option<int>, search: Option<string>,
    contains: (string, string) -> bool): (r: Result<Listing<ArticleView>>)
    requires limit.GetOr(Pagination.DEFAULT_LIMIT) > 0
    ensures r.Ok? <==> page.GetOr(Pagination.DEFAULT_PAGE) >= 1
    ensures r.Ok? ==> r.value.pagination.totalItems == |Filter(articles, ArticleWhere(lang, categoryId, search, contains))|
    ensures r.Ok? ==> |r.value.items| <= limit.GetOr(Pagination.DEFAULT_LIMIT)
    ensures r.Ok? ==> forall v :: v in r.value.items ==>
      exists a :: a in articles && ArticleWhere(lang, categoryId, search, contains)(a) && v == FormatArticle(categories, tags, lang)(a)
  {
    ListPage(articles, ArticleWhere(lang, categoryId, search, contains), page, limit, FormatArticle(categories, tags, lang))
  }

  /** With neither a category nor a search text every article is counted,
      and with a category every listed article belongs to it. */
  lemma FindAllFilters(
    articles: seq<Article>, categories: seq<Category>, tags: seq<Tag>, lang: Option<string>,
    page: Option<int>, limit: Option<int>, categoryId: Option<int>, search: Option<string>,
    contains: (string, string) -> bool)
    requires limit.GetOr(Pagination.DEFAULT_LIMIT) > 0 && page.GetOr(Pagination.DEFAULT_PAGE) >= 1
    ensures var r := FindAll(articles, categories, tags, lang, page, limit, categoryId, search, contains);
      && (!(categoryId.Some? && categoryId.value != 0) && !Given(search) ==> r.value.pagination.totalItems == |articles|)
      && (categoryId.Some? && categoryId.value != 0 ==> forall v :: v in r.value.items ==> v.categoryId == categoryId.value)
  {
    var where := ArticleWhere(lang, categoryId, search, contains);
    if !(categoryId.Some? && categoryId.value != 0) && !Given(search) {
      FilterAllPass(articles, where);
    }
  }

  /** An item of `findAllLanguages`: the article with all its translations
      and those of its category and tags. */
  datatype ArticleAllView = ArticleAllView(
    id: int, slug: string, translations: seq<Translation<ArticleText>>, categoryId: int,
    category: Option<AllSummary>, mainImageId: Option<int>, views: nat, createdAt: Instant,
    tags: seq<AllSummary>, attachmentIds: seq<int>)

  function AllLanguagesItem(categories: seq<Category>, tags: seq<Tag>): Article -> ArticleAllView {
    (a: Article) =>
      ArticleAllView(a.id, a.slug, a.translations, a.categoryId, CategoryAllField(categories, a.categoryId),
                     a.mainImageId, a.views, a.createdAt, Map(LinkedTags(tags, a.tagIds), TagAllSummary), a.attachmentIds)
  }

  /** `findAllLanguages(page, limit, categoryId, search)`: the same filter
      without a language, so a search matches a translation in any language. */
  function FindAllLanguages(
    articles: seq<Article>, categories: seq<Category>, tags: seq<Tag>,
    page: Option<int>, limit: Option<int>, categoryId: Option<int>, search: Option<string>,
    contains: (string, string) -> bool): (r: Result<Listing<ArticleAllView>>)
    requires limit.GetOr(Pagination.DEFAULT_LIMIT) > 0
    ensures r.Ok? <==> page.GetOr(Pagination.DEFAULT_PAGE) >= 1
    ensures r.Ok? ==> r.value.pagination.totalItems == |Filter(articles, ArticleWhere(None, categoryId, search, contains))|
    ensures r.Ok? ==> forall v :: v in r.value.items ==>
      exists a :: a in articles && ArticleWhere(None, categoryId, search, contains)(a) && v.translations == a.translations
  {
    ListPage(articles, ArticleWhere(None, categoryId, search, contains), page, limit, AllLanguagesItem(categories, tags))
  }

  /** Without a language the search accepts every article the search of any
      one language accepts: the all-languages listing counts at least as many. */
  lemma AllLanguagesSearchWidens(lang: Option<string>, categoryId: Option<int>, search: Option<string>,
                                 contains: (string, string) -> bool, a: Article)
    requires ArticleWhere(lang, categoryId, search, contains)(a)
    ensures ArticleWhere(None, categoryId, search, contains)(a)
  {
  }

  class ArticlesService {
    const db: ContentDb

    constructor(db: ContentDb)
      ensures this.db == db
    {
      this.db := db;
    }

    /** `create(dto)`: derive the slug, refuse one in use, insert the row. */
    method Create(dto: CreateArticleDto, now: Instant) returns (r: Result<Article>)
      requires db.Valid()
      modifies db`articles, db`nextArticleId
      ensures db.Valid()
      ensures var slug := DeriveSlug(dto.slug, dto.translations, ArticleTitle);
        if SlugHeld(old(db.articles), ArticleSlug, slug) then
          && r == Err(Conflict(SLUG_EXISTS))
          && db.articles == old(db.articles) && db.nextArticleId == old(db.nextArticleId)
        else
          && r == Ok(NewArticle(old(db.nextArticleId), slug, dto, now))
          && db.articles == old(db.articles) + [r.value] && db.nextArticleId == old(db.nextArticleId) + 1
          && FindBy(db.articles, ArticleSlug, slug) == Some(r.value)
    {
      var slug := DeriveSlug(dto.slug, dto.translations, ArticleTitle);
      if SlugHeld(db.articles, ArticleSlug, slug) {
        return Err(Conflict(SLUG_EXISTS));
      }
      var a := NewArticle(db.nextArticleId, slug, dto, now);
      TableInsert(db.articles, a, ArticleId, ArticleSlug, db.nextArticleId);
      db.articles := db.articles + [a];
      db.nextArticleId := db.nextArticleId + 1;
      r := Ok(a);
    }

    /** Count a view of row i and answer with the row as read before the increment. */
    method ViewAt(i: int, lang: Option<string>) returns (v: ArticleView)
      requires db.Valid() && 0 <= i < |db.articles|
      modifies db`articles
      ensures db.Valid()
      ensures db.articles == old(db.articles)[i := Viewed(old(db.articles)[i])]
      ensures v == FormatArticle(db.categories, db.tags, lang)(old(db.articles)[i])
    {
      var a := db.articles[i];
      OwnSlugFree(db.articles, i, ArticleId, ArticleSlug, db.nextArticleId);
      TableReplace(db.articles, i, Viewed(a), ArticleId, ArticleSlug, db.nextArticleId);
      db.articles := db.articles[i := Viewed(a)];
      v := FormatArticle(db.categories, db.tags, lang)(a);
    }

    /** `findOne(id, lang)`: NotFound, or one more view and the row as it was read. */
    method FindOne(id: int, lang: Option<string>) returns (r: Result<ArticleView>)
      requires db.Valid()
      modifies db`articles
      ensures db.Valid()
      ensures match IndexBy(old(db.articles), ArticleId, id)
        case None => r == Err(NotFound(NotFoundById(id))) && db.articles == old(db.articles)
        case Some(i) =>
          && db.articles == old(db.articles)[i := Viewed(old(db.articles)[i])]
          && r == Ok(FormatArticle(db.categories, db.tags, lang)(old(db.articles)[i]))
      ensures r.Ok? ==> exists a :: a in db.articles && a.id == id && a.views == r.value.views + 1
    {
      var index := IndexBy(db.articles, ArticleId, id);
      if index.None? {
        return Err(NotFound(NotFoundById(id)));
      }
      var v := ViewAt(index.value, lang);
      r := Ok(v);
      assert db.articles[index.value].id == id;
    }

    /** `findBySlug(slug, lang)`: as `findOne`, keyed by the slug. */
    method FindBySlug(slug: string, lang: Option<string>) returns (r: Result<ArticleView>)
      requires db.Valid()
      modifies db`articles
      ensures db.Valid()
      ensures match IndexBy(old(db.articles), ArticleSlug, slug)
        case None => r == Err(NotFound(NotFoundBySlug(slug))) && db.articles == old(db.articles)
        case Some(i) =>
          && db.articles == old(db.articles)[i := Viewed(old(db.articles)[i])]
          && r == Ok(FormatArticle(db.categories, db.tags, lang)(old(db.articles)[i]))
      ensures r.Ok? ==> exists a :: a in db.articles && a.slug == slug && a.views == r.value.views + 1
    {
      var index := IndexBy(db.articles, ArticleSlug, slug);
      if index.None? {
        return Err(NotFound(NotFoundBySlug(slug)));
      }
      var v := ViewAt(index.value, lang);
      r := Ok(v);
      assert db.articles[index.value].slug == slug;
    }

    /** `update(id, dto)`: `findOne` first (NotFound, or one more view, which
        stays even when the update is then refused), a non-empty new slug
        that another article holds is a Conflict, then the write; the slug
        column is unique, so an empty slug another article holds fails there. */
    method Update(id: int, dto: UpdateArticleDto) returns (r: Result<Article>)
      requires db.Valid()
      modifies db`articles
      ensures db.Valid()
      ensures match IndexBy(old(db.articles), ArticleId, id)
        case None => r == Err(NotFound(NotFoundById(id))) && db.articles == old(db.articles)
        case Some(i) =>
          var seen := Viewed(old(db.articles)[i]);
          var u := ApplyArticleUpdate(seen, dto);
          if Given(dto.slug) && SlugHeldByOther(old(db.articles), ArticleId, ArticleSlug, dto.slug.value, id) then
            r == Err(Conflict(SLUG_EXISTS)) && db.articles == old(db.articles)[i := seen]
          else if SlugHeldByOther(old(db.articles), ArticleId, ArticleSlug, u.slug, id) then
            r == Err(UniqueViolation(["slug"])) && db.articles == old(db.articles)[i := seen]
          else
            r == Ok(u) && db.articles == old(db.articles)[i := u]
    {
      var before := db.articles;
      var index := IndexBy(db.articles, ArticleId, id);
      if index.None? {
        return Err(NotFound(NotFoundById(id)));
      }
      var i := index.value;
      var _ := ViewAt(i, None);
      r := WriteAt(i, id, dto, before);
    }

    /** The part of `update` after `findOne` counted its view of row i: the
        slug check and the write. */
    method WriteAt(i: int, id: int, dto: UpdateArticleDto, ghost before: seq<Article>) returns (r: Result<Article>)
      requires db.Valid() && TableValid(before, ArticleId, ArticleSlug, db.nextArticleId)
      requires 0 <= i < |before| && id == before[i].id && db.articles == before[i := Viewed(before[i])]
      modifies db`articles
      ensures db.Valid()
      ensures
        var u := ApplyArticleUpdate(Viewed(before[i]), dto);
        if Given(dto.slug) && SlugHeldByOther(before, ArticleId, ArticleSlug, dto.slug.value, id) then
          r == Err(Conflict(SLUG_EXISTS)) && db.articles == old(db.articles)
        else if SlugHeldByOther(before, ArticleId, ArticleSlug, u.slug, id) then
          r == Err(UniqueViolation(["slug"])) && db.articles == old(db.articles)
        else
          r == Ok(u) && db.articles == before[i := u]
    {
      SameKeysSameHolders(before, i, Viewed(before[i]), ArticleId, ArticleSlug);
      if Given(dto.slug) && SlugHeldByOther(db.articles, ArticleId, ArticleSlug, dto.slug.value, id) {
        return Err(Conflict(SLUG_EXISTS));
      }
      var u := ApplyArticleUpdate(db.articles[i], dto);
      if SlugHeldByOther(db.articles, ArticleId, ArticleSlug, u.slug, id) {
        return Err(UniqueViolation(["slug"]));
      }
      TableReplace(before, i, u, ArticleId, ArticleSlug, db.nextArticleId);
      db.articles := db.articles[i := u];
      assert db.articles == before[i := u];
      r := Ok(u);
    }

    /** `remove(id)`: `findOne` first (NotFound, or one more view), then the
        delete, which answers with the deleted row; no other row changes. */
    method Remove(id: int) returns (r: Result<Article>)
      requires db.Valid()
      modifies db`articles
      ensures db.Valid()
      ensures match IndexBy(old(db.articles), ArticleId, id)
        case None => r == Err(NotFound(NotFoundById(id))) && db.articles == old(db.articles)
        case Some(i) => r == Ok(Viewed(old(db.articles)[i])) && db.articles == RemoveAt(old(db.articles), i)
      ensures forall a :: a in db.articles ==> a.id != id
    {
      var before := db.articles;
      var index := IndexBy(db.articles, ArticleId, id);
      if index.None? {
        return Err(NotFound(NotFoundById(id)));
      }
      var i := index.value;
      var _ := ViewAt(i, None);
      r := Ok(db.articles[i]);
      TableRemove(db.articles, i, ArticleId, ArticleSlug, db.nextArticleId);
      assert RemoveAt(db.articles, i) == RemoveAt(before, i);
      db.articles := RemoveAt(db.articles, i);
    }
  }
}
