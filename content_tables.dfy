/**
 * The content tables (categories, tags, articles, books and research with
 * their translations and link tables), held in memory as sequences of rows in
 * insertion order, and the related-row summaries the response formatters
 * read through Prisma `include`s.
 *
 * A row's translations and its tag (and attachment) links are held in the
 * row itself: the services only ever read them with the row and replace them
 * as a whole.
 */
module ContentTables {
  import opened Errors
  import opened Translations
  import opened Identity
  import opened Content

  /** A category's `model` column, an enum of the schema, held as the member's name. */
  type ModelType = string

  datatype Category = Category(
    id: int, slug: string, model: ModelType, isActive: bool,
    translations: seq<Translation<string>>, createdAt: Instant)

  datatype Tag = Tag(id: int, slug: string, translations: seq<Translation<string>>, createdAt: Instant)

  datatype ArticleText = ArticleText(title: string, summary: Option<string>, body: string)

  /** `isPublished: None` leaves the column's default, which the schema sets. */
  datatype Article = Article(
    id: int, slug: string, categoryId: int, mainImageId: Option<int>,
    publishedAt: Option<Instant>, isPublished: Option<bool>, views: nat, createdAt: Instant,
    translations: seq<Translation<ArticleText>>, tagIds: seq<int>, attachmentIds: seq<int>)

  datatype BookText = BookText(
    title: string, author: Option<string>, publisher: Option<string>, description: Option<string>,
    series: Option<string>, metaTitle: Option<string>, metaDescription: Option<string>)

  datatype Book = Book(
    id: int, slug: string, isbn: Option<string>, pages: Option<int>, partNumber: Option<int>,
    totalParts: Option<int>, publishYear: Option<string>, isPublished: Option<bool>,
    categoryId: int, coverId: Option<int>, fileId: Option<int>, parentBookId: Option<int>,
    views: nat, createdAt: Instant, translations: seq<Translation<BookText>>, tagIds: seq<int>)

  datatype ResearchText = ResearchText(
    title: string, abstractText: Option<string>, authors: Option<string>,
    metaTitle: Option<string>, metaDescription: Option<string>)

  datatype Research = Research(
    id: int, slug: string, publishedAt: Option<Instant>, pages: Option<int>, isPublished: Option<bool>,
    categoryId: int, fileId: Option<int>, views: nat, createdAt: Instant,
    translations: seq<Translation<ResearchText>>, tagIds: seq<int>)

  function CategoryId(c: Category): int { c.id }
  function CategorySlug(c: Category): string { c.slug }
  function TagId(t: Tag): int { t.id }
  function TagSlug(t: Tag): string { t.slug }
  function ArticleId(a: Article): int { a.id }
  function ArticleSlug(a: Article): string { a.slug }
  function BookId(b: Book): int { b.id }
  function BookSlug(b: Book): string { b.slug }
  function ResearchId(r: Research): int { r.id }
  function ResearchSlug(r: Research): string { r.slug }

  class ContentDb {
    var categories: seq<Category>
    var tags: seq<Tag>
    var articles: seq<Article>
    var books: seq<Book>
    var research: seq<Research>
    var nextCategoryId: int
    var nextTagId: int
    var nextArticleId: int
    var nextBookId: int
    var nextResearchId: int

    ghost predicate Valid()
      reads this
    {
      && TableValid(categories, CategoryId, CategorySlug, nextCategoryId) && nextCategoryId >= 1
      && TableValid(tags, TagId, TagSlug, nextTagId) && nextTagId >= 1
      && TableValid(articles, ArticleId, ArticleSlug, nextArticleId) && nextArticleId >= 1
      && TableValid(books, BookId, BookSlug, nextBookId) && nextBookId >= 1
      && TableValid(research, ResearchId, ResearchSlug, nextResearchId) && nextResearchId >= 1
    }

    constructor Empty()
      ensures Valid()
      ensures categories == [] && tags == [] && articles == [] && books == [] && research == []
    {
      categories, tags, articles, books, research := [], [], [], [], [];
      nextCategoryId, nextTagId, nextArticleId, nextBookId, nextResearchId := 1, 1, 1, 1, 1;
    }
  }

  /** `{id, slug, name: translation?.name, createdAt}` of a related category or tag. */
  datatype Summary = Summary(id: int, slug: string, name: Option<string>, createdAt: Instant)

  /** `{id, slug, translations, createdAt}` of a related row, in every language. */
  datatype AllSummary = AllSummary(id: int, slug: string, translations: seq<Translation<string>>, createdAt: Instant)

  function CategorySummary(c: Category, lang: Option<string>): Summary {
    Summary(c.id, c.slug, Chosen(c.translations, lang), c.createdAt)
  }

  function TagSummary(lang: Option<string>): Tag -> Summary {
    (t: Tag) => Summary(t.id, t.slug, Chosen(t.translations, lang), t.createdAt)
  }

  function TagAllSummary(t: Tag): AllSummary {
    AllSummary(t.id, t.slug, t.translations, t.createdAt)
  }

  /** `row.category`: the category the row's id finds, if any. */
  function RelatedCategory(categories: seq<Category>, categoryId: int): (r: Option<Category>)
    ensures r.Some? <==> exists c :: c in categories && c.id == categoryId
    ensures r.Some? ==> r.value in categories && r.value.id == categoryId
  {
    FindBy(categories, CategoryId, categoryId)
  }

  /** `row.category ? {...} : null` with the category's name in the requested language. */
  function CategoryField(categories: seq<Category>, categoryId: int, lang: Option<string>): Option<Summary> {
    match RelatedCategory(categories, categoryId)
    case Some(c) => Some(CategorySummary(c, lang))
    case None => None
  }

  /** `row.category ? {...} : null` with all of the category's translations. */
  function CategoryAllField(categories: seq<Category>, categoryId: int): Option<AllSummary> {
    match RelatedCategory(categories, categoryId)
    case Some(c) => Some(AllSummary(c.id, c.slug, c.translations, c.createdAt))
    case None => None
  }

  /** `row.tags?.map(link => link.tag) || []`: the linked tags in link order.
      A link always names an existing tag (a foreign key); an id without a
      row contributes nothing. */
  function LinkedTags(tags: seq<Tag>, tagIds: seq<int>): (r: seq<Tag>)
    ensures |r| <= |tagIds|
    ensures forall t :: t in r ==> t in tags && t.id in tagIds
    ensures (forall k :: 0 <= k < |tagIds| ==> exists t :: t in tags && t.id == tagIds[k]) ==>
      |r| == |tagIds| && forall k :: 0 <= k < |tagIds| ==> r[k].id == tagIds[k]
  {
    if tagIds == [] then []
    else
      var rest := LinkedTags(tags, tagIds[1..]);
      match FindBy(tags, TagId, tagIds[0])
      case Some(t) => [t] + rest
      case None => rest
  }

  /** The `tags` field of a response: the summary of each linked tag, in link order. */
  function TagsField(tags: seq<Tag>, tagIds: seq<int>, lang: Option<string>): (r: seq<Summary>)
    ensures |r| <= |tagIds|
    ensures forall s :: s in r ==> s.id in tagIds
    ensures (forall k :: 0 <= k < |tagIds| ==> exists t :: t in tags && t.id == tagIds[k]) ==>
      |r| == |tagIds| && forall k :: 0 <= k < |tagIds| ==> r[k].id == tagIds[k]
  {
    var linked := LinkedTags(tags, tagIds);
    var r := Map(linked, TagSummary(lang));
    assert forall k :: 0 <= k < |r| ==> r[k].id == linked[k].id;
    r
  }
}
