/**
 * BooksService: create a book under a unique slug, read one by id or slug
 * (each read counts a view), update it, delete it, and list a page of books.
 * A book may be a part of a parent book; the parent lists its parts.
 */
module Books {
  import opened Errors
  import opened Lists
  import opened Translations
  import opened Identity
  import opened Content
  import opened ContentTables
  import Pagination

  const SLUG_EXISTS := "Book with this slug already exists"

  function NotFoundById(id: int): string {
    "Book with ID " + IntToDecimal(id) + " not found"
  }

  function NotFoundBySlug(slug: string): string {
    "Book with slug \"" + slug + "\" not found"
  }

  datatype CreateBookDto = CreateBookDto(
    slug: Option<string>, isbn: Option<string>, pages: Option<int>, partNumber: Option<int>,
    totalParts: Option<int>, publishYear: Option<string>, isPublished: Option<bool>,
    categoryId: int, coverId: Option<int>, fileId: Option<int>, parentBookId: Option<int>,
    translations: seq<Translation<BookText>>, tagIds: Option<seq<int>>)

  /** Every field of the create DTO, each optional. */
  datatype UpdateBookDto = UpdateBookDto(
    slug: Option<string>, isbn: Option<string>, pages: Option<int>, partNumber: Option<int>,
    totalParts: Option<int>, publishYear: Option<string>, isPublished: Option<bool>,
    categoryId: Option<int>, coverId: Option<int>, fileId: Option<int>, parentBookId: Option<int>,
    translations: Option<seq<Translation<BookText>>>, tagIds: Option<seq<int>>)

  function BookTitle(t: BookText): string { t.title }

  /** The row `create` inserts; a new book has not been viewed. */
  function NewBook(id: int, slug: string, dto: CreateBookDto, now: Instant): (r: Book)
    ensures r.id == id && r.slug == slug && r.views == 0 && r.createdAt == now
    ensures r.translations == dto.translations && r.parentBookId == dto.parentBookId
    ensures dto.tagIds.Some? ==> r.tagIds == dto.tagIds.value
    ensures dto.tagIds.None? ==> r.tagIds == []
  {
    Book(id, slug, dto.isbn, dto.pages, dto.partNumber, dto.totalParts, dto.publishYear, dto.isPublished,
         dto.categoryId, dto.coverId, dto.fileId, dto.parentBookId, 0, now,
         dto.translations, LinksOnCreate(dto.tagIds))
  }

  /** The row after `update`'s write: the given scalar fields overwrite
      (`...updateData`), and the translation and tag lists are replaced when given. */
  function ApplyBookUpdate(b: Book, dto: UpdateBookDto): (r: Book)
    ensures r.id == b.id && r.views == b.views && r.createdAt == b.createdAt
    ensures dto.slug.None? ==> r.slug == b.slug
    ensures dto.slug.Some? ==> r.slug == dto.slug.value
    ensures dto.isbn.None? ==> r.isbn == b.isbn
    ensures dto.isbn.Some? ==> r.isbn == dto.isbn
    ensures dto.pages.None? ==> r.pages == b.pages
    ensures dto.pages.Some? ==> r.pages == dto.pages
    ensures dto.partNumber.None? ==> r.partNumber == b.partNumber
    ensures dto.partNumber.Some? ==> r.partNumber == dto.partNumber
    ensures dto.totalParts.None? ==> r.totalParts == b.totalParts
    ensures dto.totalParts.Some? ==> r.totalParts == dto.totalParts
    ensures dto.publishYear.None? ==> r.publishYear == b.publishYear
    ensures dto.publishYear.Some? ==> r.publishYear == dto.publishYear
    ensures dto.isPublished.None? ==> r.isPublished == b.isPublished
    ensures dto.isPublished.Some? ==> r.isPublished == dto.isPublished
    ensures dto.categoryId.None? ==> r.categoryId == b.categoryId
    ensures dto.categoryId.Some? ==> r.categoryId == dto.categoryId.value
    ensures dto.coverId.None? ==> r.coverId == b.coverId
    ensures dto.coverId.Some? ==> r.coverId == dto.coverId
    ensures dto.fileId.None? ==> r.fileId == b.fileId
    ensures dto.fileId.Some? ==> r.fileId == dto.fileId
    ensures dto.parentBookId.None? ==> r.parentBookId == b.parentBookId
    ensures dto.parentBookId.Some? ==> r.parentBookId == dto.parentBookId
    ensures dto.translations.None? ==> r.translations == b.translations
    ensures dto.translations.Some? ==> r.translations == dto.translations.value
    ensures dto.tagIds.None? ==> r.tagIds == b.tagIds
    ensures dto.tagIds.Some? ==> r.tagIds == dto.tagIds.value
  {
    b.(slug := dto.slug.GetOr(b.slug),
       isbn := Over(dto.isbn, b.isbn), pages := Over(dto.pages, b.pages),
       partNumber := Over(dto.partNumber, b.partNumber), totalParts := Over(dto.totalParts, b.totalParts),
       publishYear := Over(dto.publishYear, b.publishYear), isPublished := Over(dto.isPublished, b.isPublished),
       categoryId := dto.categoryId.GetOr(b.categoryId), coverId := Over(dto.coverId, b.coverId),
       fileId := Over(dto.fileId, b.fileId), parentBookId := Over(dto.parentBookId, b.parentBookId),
       translations := ReplaceAll(b.translations, dto.translations),
       tagIds := ReplaceAll(b.tagIds, dto.tagIds))
  }

  /** Sending the same update twice leaves the row as sending it once. */
  lemma BookUpdateIdempotent(b: Book, dto: UpdateBookDto)
    ensures ApplyBookUpdate(ApplyBookUpdate(b, dto), dto) == ApplyBookUpdate(b, dto)
  {
  }

  function Viewed(b: Book): (r: Book)
    ensures r.views == b.views + 1 && r.id == b.id && r.slug == b.slug
  {
    b.(views := b.views + 1)
  }

  /** `{id, slug, title: translation?.title, createdAt}` of a parent book or a part. */
  datatype BookSummary = BookSummary(id: int, slug: string, title: Option<string>, createdAt: Instant)

  function BookSummaryOf(lang: Option<string>): Book -> BookSummary {
    (b: Book) =>
      var text := Chosen(b.translations, lang);
      BookSummary(b.id, b.slug, if text.Some? then Some(text.value.title) else None, b.createdAt)
  }

  /** The books whose parent is the given book. */
  function PartOf(id: int): Book -> bool {
    (b: Book) => b.parentBookId == Some(id)
  }

  /** `book.parts?.map(...) || []`: the summary of each part, in table
      order; no part gives the empty list. */
  function PartsField(books: seq<Book>, id: int, lang: Option<string>): (r: seq<BookSummary>)
    ensures |r| == |Filter(books, PartOf(id))|
    ensures forall k :: 0 <= k < |r| ==> r[k].id == Filter(books, PartOf(id))[k].id
    ensures forall k :: 0 <= k < |r| ==> exists x :: x in books && x.parentBookId == Some(id) && r[k].id == x.id
    ensures (forall x :: x in books ==> x.parentBookId != Some(id)) ==> r == []
  {
    var parts := Filter(books, PartOf(id));
    var r := Map(parts, BookSummaryOf(lang));
    assert forall k :: 0 <= k < |r| ==> r[k].id == parts[k].id && parts[k] in parts;
    assert parts != [] ==> parts[0] in parts;
    r
  }

  /** `book.parentBook ? {...} : null`: the book the row's parentBookId finds, if any. */
  function ParentField(books: seq<Book>, b: Book, lang: Option<string>): (r: Option<BookSummary>)
    ensures r.Some? <==> b.parentBookId.Some? && exists x :: x in books && x.id == b.parentBookId.value
    ensures r.Some? ==> r.value.id == b.parentBookId.value
  {
    if b.parentBookId.None? then None
    else match FindBy(books, BookId, b.parentBookId.value)
      case Some(p) => Some(BookSummaryOf(lang)(p))
      case None => None
  }

  datatype BookView = BookView(
    id: int, slug: string, text: Option<BookText>, categoryId: int, category: Option<Summary>,
    parentBookId: Option<int>, parentBook: Option<BookSummary>, coverId: Option<int>, fileId: Option<int>,
    views: nat, createdAt: Instant, tags: seq<Summary>, parts: seq<BookSummary>)

  /** `formatBookResponse(book, lang)`. */
  function FormatBook(books: seq<Book>, categories: seq<Category>, tags: seq<Tag>, lang: Option<string>): Book -> BookView {
    (b: Book) =>
      BookView(b.id, b.slug, Chosen(b.translations, lang), b.categoryId, CategoryField(categories, b.categoryId, lang),
               b.parentBookId, ParentField(books, b, lang), b.coverId, b.fileId, b.views, b.createdAt,
               TagsField(tags, b.tagIds, lang), PartsField(books, b.id, lang))
  }

  /** `title`, `description` or `author` contains the search text. */
  function BookMatches(text: BookText, search: string, contains: (string, string) -> bool): bool {
    contains(text.title, search)
    || (text.description.Some? && contains(text.description.value, search))
    || (text.author.Some? && contains(text.author.value, search))
  }

  /** The `where` of `findAll`: the category when one is given (0 counts as
      none), and a translation matching the search, in the requested language
      when there is one. */
  function BookWhere(lang: Option<string>, categoryId: Option<int>, search: Option<string>, contains: (string, string) -> bool): Book -> bool {
    (b: Book) =>
      && (categoryId.Some? && categoryId.value != 0 ==> b.categoryId == categoryId.value)
      && (Given(search) ==>
            exists k :: 0 <= k < |b.translations|
              && (Given(lang) ==> b.translations[k].languageCode == lang.value)
              && BookMatches(b.translations[k].content, search.value, contains))
  }

  /** `findAll(lang, page, limit, categoryId, search)`. */
  function FindAll(
    books: seq<Book>, categories: seq<Category>, tags: seq<Tag>, lang: Option<string>,
    page: Option<int>, limit: Option<int>, categoryId: Option<int>, search: Option<string>,
    contains: (string, string) -> bool): (r: Result<Listing<BookView>>)
    requires limit.GetOr(Pagination.DEFAULT_LIMIT) > 0
    ensures r.Ok? <==> page.GetOr(Pagination.DEFAULT_PAGE) >= 1
    ensures r.Ok? ==> r.value.pagination.totalItems == |Filter(books, BookWhere(lang, categoryId, search, contains))|
    ensures r.Ok? ==> forall v :: v in r.value.items ==>
      exists b :: b in books && BookWhere(lang, categoryId, search, contains)(b) && v == FormatBook(books, categories, tags, lang)(b)
  {
    ListPage(books, BookWhere(lang, categoryId, search, contains), page, limit, FormatBook(books, categories, tags, lang))
  }

  class BooksService {
    const db: ContentDb

    constructor(db: ContentDb)
      ensures this.db == db
    {
      this.db := db;
    }

    /** `create(dto)`: derive the slug, refuse one in use, insert the row. */
    method Create(dto: CreateBookDto, now: Instant) returns (r: Result<Book>)
      requires db.Valid()
      modifies db`books, db`nextBookId
      ensures db.Valid()
      ensures var slug := DeriveSlug(dto.slug, dto.translations, BookTitle);
        if SlugHeld(old(db.books), BookSlug, slug) then
          r == Err(Conflict(SLUG_EXISTS)) && db.books == old(db.books) && db.nextBookId == old(db.nextBookId)
        else
          && r == Ok(NewBook(old(db.nextBookId), slug, dto, now))
          && db.books == old(db.books) + [r.value] && db.nextBookId == old(db.nextBookId) + 1
          && FindBy(db.books, BookSlug, slug) == Some(r.value)
    {
      var slug := DeriveSlug(dto.slug, dto.translations, BookTitle);
      if SlugHeld(db.books, BookSlug, slug) {
        return Err(Conflict(SLUG_EXISTS));
      }
      var b := NewBook(db.nextBookId, slug, dto, now);
      TableInsert(db.books, b, BookId, BookSlug, db.nextBookId);
      db.books := db.books + [b];
      db.nextBookId := db.nextBookId + 1;
      r := Ok(b);
    }

    /** Count a view of row i and answer with the row as read before the increment. */
    method ViewAt(i: int, lang: Option<string>) returns (v: BookView)
      requires db.Valid() && 0 <= i < |db.books|
      modifies db`books
      ensures db.Valid()
      ensures db.books == old(db.books)[i := Viewed(old(db.books)[i])]
      ensures v == FormatBook(old(db.books), db.categories, db.tags, lang)(old(db.books)[i])
      ensures db.books[i].views == v.views + 1
    {
      var b := db.books[i];
      v := FormatBook(db.books, db.categories, db.tags, lang)(b);
      OwnSlugFree(db.books, i, BookId, BookSlug, db.nextBookId);
      TableReplace(db.books, i, Viewed(b), BookId, BookSlug, db.nextBookId);
      db.books := db.books[i := Viewed(b)];
    }

    /** `findOne(id, lang)`: NotFound, or one more view and the row as it was read. */
    method FindOne(id: int, lang: Option<string>) returns (r: Result<BookView>)
      requires db.Valid()
      modifies db`books
      ensures db.Valid()
      ensures match IndexBy(old(db.books), BookId, id)
        case None => r == Err(NotFound(NotFoundById(id))) && db.books == old(db.books)
        case Some(i) =>
          && db.books == old(db.books)[i := Viewed(old(db.books)[i])]
          && r == Ok(FormatBook(old(db.books), db.categories, db.tags, lang)(old(db.books)[i]))
      ensures r.Ok? ==> exists b :: b in db.books && b.id == id && b.views == r.value.views + 1
    {
      var index := IndexBy(db.books, BookId, id);
      if index.None? {
        return Err(NotFound(NotFoundById(id)));
      }
      var v := ViewAt(index.value, lang);
      r := Ok(v);
      assert db.books[index.value].id == id;
    }

    /** `findBySlug(slug, lang)`: as `findOne`, keyed by the slug. */
    method FindBySlug(slug: string, lang: Option<string>) returns (r: Result<BookView>)
      requires db.Valid()
      modifies db`books
      ensures db.Valid()
      ensures match IndexBy(old(db.books), BookSlug, slug)
        case None => r == Err(NotFound(NotFoundBySlug(slug))) && db.books == old(db.books)
        case Some(i) =>
          && db.books == old(db.books)[i := Viewed(old(db.books)[i])]
          && r == Ok(FormatBook(old(db.books), db.categories, db.tags, lang)(old(db.books)[i]))
      ensures r.Ok? ==> exists b :: b in db.books && b.slug == slug && b.views == r.value.views + 1
    {
      var index := IndexBy(db.books, BookSlug, slug);
      if index.None? {
        return Err(NotFound(NotFoundBySlug(slug)));
      }
      var v := ViewAt(index.value, lang);
      r := Ok(v);
      assert db.books[index.value].slug == slug;
    }

    /** `update(id, dto)`: `findOne` first (NotFound, or one more view, which
        stays even when the update is then refused), a non-empty new slug
        that another book holds is a Conflict, then the write; the slug
        column is unique, so an empty slug another book holds fails there. */
    method Update(id: int, dto: UpdateBookDto) returns (r: Result<Book>)
      requires db.Valid()
      modifies db`books
      ensures db.Valid()
      ensures match IndexBy(old(db.books), BookId, id)
        case None => r == Err(NotFound(NotFoundById(id))) && db.books == old(db.books)
        case Some(i) =>
          var seen := Viewed(old(db.books)[i]);
          var u := ApplyBookUpdate(seen, dto);
          if Given(dto.slug) && SlugHeldByOther(old(db.books), BookId, BookSlug, dto.slug.value, id) then
            r == Err(Conflict(SLUG_EXISTS)) && db.books == old(db.books)[i := seen]
          else if SlugHeldByOther(old(db.books), BookId, BookSlug, u.slug, id) then
            r == Err(UniqueViolation(["slug"])) && db.books == old(db.books)[i := seen]
          else
            r == Ok(u) && db.books == old(db.books)[i := u]
    {
      var before := db.books;
      var index := IndexBy(db.books, BookId, id);
      if index.None? {
        return Err(NotFound(NotFoundById(id)));
      }
      var i := index.value;
      var _ := ViewAt(i, None);
      r := WriteAt(i, id, dto, before);
    }

    /** The part of `update` after `findOne` counted its view of row i: the
        slug check and the write. */
    method WriteAt(i: int, id: int, dto: UpdateBookDto, ghost before: seq<Book>) returns (r: Result<Book>)
      requires db.Valid() && TableValid(before, BookId, BookSlug, db.nextBookId)
      requires 0 <= i < |before| && id == before[i].id && db.books == before[i := Viewed(before[i])]
      modifies db`books
      ensures db.Valid()
      ensures
        var u := ApplyBookUpdate(Viewed(before[i]), dto);
        if Given(dto.slug) && SlugHeldByOther(before, BookId, BookSlug, dto.slug.value, id) then
          r == Err(Conflict(SLUG_EXISTS)) && db.books == old(db.books)
        else if SlugHeldByOther(before, BookId, BookSlug, u.slug, id) then
          r == Err(UniqueViolation(["slug"])) && db.books == old(db.books)
        else
          r == Ok(u) && db.books == before[i := u]
    {
      SameKeysSameHolders(before, i, Viewed(before[i]), BookId, BookSlug);
      if Given(dto.slug) && SlugHeldByOther(db.books, BookId, BookSlug, dto.slug.value, id) {
        return Err(Conflict(SLUG_EXISTS));
      }
      var u := ApplyBookUpdate(db.books[i], dto);
      if SlugHeldByOther(db.books, BookId, BookSlug, u.slug, id) {
        return Err(UniqueViolation(["slug"]));
      }
      TableReplace(before, i, u, BookId, BookSlug, db.nextBookId);
      db.books := db.books[i := u];
      assert db.books == before[i := u];
      r := Ok(u);
    }

    /** `remove(id)`: `findOne` first (NotFound, or one more view), then the
        delete, which answers with the deleted row; no other row changes. */
    method Remove(id: int) returns (r: Result<Book>)
      requires db.Valid()
      modifies db`books
      ensures db.Valid()
      ensures match IndexBy(old(db.books), BookId, id)
        case None => r == Err(NotFound(NotFoundById(id))) && db.books == old(db.books)
        case Some(i) => r == Ok(Viewed(old(db.books)[i])) && db.books == RemoveAt(old(db.books), i)
      ensures forall b :: b in db.books ==> b.id != id
    {
      var before := db.books;
      var index := IndexBy(db.books, BookId, id);
      if index.None? {
        return Err(NotFound(NotFoundById(id)));
      }
      var i := index.value;
      var _ := ViewAt(i, None);
      r := Ok(db.books[i]);
      TableRemove(db.books, i, BookId, BookSlug, db.nextBookId);
      assert RemoveAt(db.books, i) == RemoveAt(before, i);
      db.books := RemoveAt(db.books, i);
    }
  }
}
