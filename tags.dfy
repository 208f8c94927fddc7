/**
 * TagsService: create a tag under a unique slug, read one by id or slug,
 * update it, delete it, and list a page of all tags. Reading a tag counts
 * no view.
 */
module Tags {
  import opened Errors
  import opened Lists
  import opened Translations
  import opened Identity
  import opened Content
  import opened ContentTables
  import Pagination

  const SLUG_EXISTS := "Tag with this slug already exists"

  function NotFoundById(id: int): string {
    "Tag with ID " + IntToDecimal(id) + " not found"
  }

  function NotFoundBySlug(slug: string): string {
    "Tag with slug \"" + slug + "\" not found"
  }

  datatype CreateTagDto = CreateTagDto(slug: Option<string>, translations: seq<Translation<string>>)

  datatype UpdateTagDto = UpdateTagDto(slug: Option<string>, translations: Option<seq<Translation<string>>>)

  function TagName(name: string): string { name }

  /** The row after `update`: the slug changes only when non-empty, and given
      translations replace the old ones (deleted in a statement of their own
      just before). */
  function ApplyTagUpdate(t: Tag, dto: UpdateTagDto): (r: Tag)
    ensures r.id == t.id && r.createdAt == t.createdAt
    ensures r.slug == (if Given(dto.slug) then dto.slug.value else t.slug)
    ensures dto.translations.None? ==> r.translations == t.translations
    ensures dto.translations.Some? ==> r.translations == dto.translations.value
  {
    t.(slug := if Given(dto.slug) then dto.slug.value else t.slug,
       translations := ReplaceAll(t.translations, dto.translations))
  }

  /** Sending the same update twice leaves the row as sending it once. */
  lemma TagUpdateIdempotent(t: Tag, dto: UpdateTagDto)
    ensures ApplyTagUpdate(ApplyTagUpdate(t, dto), dto) == ApplyTagUpdate(t, dto)
  {
  }

  /** Every tag passes the listings' (empty) filter. */
  function AnyTag(t: Tag): bool { true }

  /** `findAll(lang, page, limit)`: a page of all tags, newest first, each as
      `formatTagResponse` gives it. */
  function FindAll(tags: seq<Tag>, lang: Option<string>, page: Option<int>, limit: Option<int>): (r: Result<Listing<Summary>>)
    requires limit.GetOr(Pagination.DEFAULT_LIMIT) > 0
    ensures r.Ok? <==> page.GetOr(Pagination.DEFAULT_PAGE) >= 1
    ensures r.Ok? ==> r.value.pagination.totalItems == |tags|
    ensures r.Ok? ==> forall v :: v in r.value.items ==> exists t :: t in tags && v == TagSummary(lang)(t)
  {
    FilterAllPass(tags, AnyTag);
    ListPage(tags, AnyTag, page, limit, TagSummary(lang))
  }

  /** The first page lists the newest tags: as many as the limit allows, the
      last created first. */
  lemma FirstPageNewest(tags: seq<Tag>, lang: Option<string>, limit: Option<int>)
    requires limit.GetOr(Pagination.DEFAULT_LIMIT) > 0
    ensures var r := FindAll(tags, lang, None, limit);
      && r.Ok?
      && |r.value.items| == Pagination.Min(|tags|, limit.GetOr(Pagination.DEFAULT_LIMIT))
      && (tags != [] ==> r.value.items[0] == TagSummary(lang)(tags[|tags| - 1]))
  {
    FilterAllPass(tags, AnyTag);
  }

  /** `findAllLanguages(page, limit)`: the same page, every translation kept. */
  function FindAllLanguages(tags: seq<Tag>, page: Option<int>, limit: Option<int>): (r: Result<Listing<AllSummary>>)
    requires limit.GetOr(Pagination.DEFAULT_LIMIT) > 0
    ensures r.Ok? <==> page.GetOr(Pagination.DEFAULT_PAGE) >= 1
    ensures r.Ok? ==> r.value.pagination.totalItems == |tags|
    ensures r.Ok? ==> forall v :: v in r.value.items ==> exists t :: t in tags && v == TagAllSummary(t)
  {
    FilterAllPass(tags, AnyTag);
    ListPage(tags, AnyTag, page, limit, TagAllSummary)
  }

  class TagsService {
    const db: ContentDb

    constructor(db: ContentDb)
      ensures this.db == db
    {
      this.db := db;
    }

    /** `create(dto)`: derive the slug from the default name, refuse one in use, insert the row. */
    method Create(dto: CreateTagDto, now: Instant) returns (r: Result<Tag>)
      requires db.Valid()
      modifies db`tags, db`nextTagId
      ensures db.Valid()
      ensures var slug := DeriveSlug(dto.slug, dto.translations, TagName);
        if SlugHeld(old(db.tags), TagSlug, slug) then
          && r == Err(Conflict(SLUG_EXISTS))
          && db.tags == old(db.tags) && db.nextTagId == old(db.nextTagId)
        else
          && r == Ok(Tag(old(db.nextTagId), slug, dto.translations, now))
          && db.tags == old(db.tags) + [r.value] && db.nextTagId == old(db.nextTagId) + 1
          && FindBy(db.tags, TagSlug, slug) == Some(r.value)
    {
      var slug := DeriveSlug(dto.slug, dto.translations, TagName);
      if SlugHeld(db.tags, TagSlug, slug) {
        return Err(Conflict(SLUG_EXISTS));
      }
      var t := Tag(db.nextTagId, slug, dto.translations, now);
      TableInsert(db.tags, t, TagId, TagSlug, db.nextTagId);
      db.tags := db.tags + [t];
      db.nextTagId := db.nextTagId + 1;
      r := Ok(t);
    }

    /** `findOne(id, lang)`: the tag with the id, or NotFound. */
    method FindOne(id: int, lang: Option<string>) returns (r: Result<Summary>)
      requires db.Valid()
      ensures r.Ok? <==> exists t :: t in db.tags && t.id == id
      ensures r.Ok? ==> exists t :: t in db.tags && t.id == id && r.value == TagSummary(lang)(t)
      ensures r.Err? ==> r.error == NotFound(NotFoundById(id))
    {
      var found := FindBy(db.tags, TagId, id);
      if found.None? {
        return Err(NotFound(NotFoundById(id)));
      }
      r := Ok(TagSummary(lang)(found.value));
    }

    /** `findBySlug(slug, lang)`: the tag with the slug, or NotFound. */
    method FindBySlug(slug: string, lang: Option<string>) returns (r: Result<Summary>)
      requires db.Valid()
      ensures r.Ok? <==> exists t :: t in db.tags && t.slug == slug
      ensures r.Ok? ==> exists t :: t in db.tags && t.slug == slug && r.value == TagSummary(lang)(t)
      ensures r.Err? ==> r.error == NotFound(NotFoundBySlug(slug))
    {
      var found := FindBy(db.tags, TagSlug, slug);
      if found.None? {
        return Err(NotFound(NotFoundBySlug(slug)));
      }
      r := Ok(TagSummary(lang)(found.value));
    }

    /** `findOneAllLanguages(id)`: the tag with every translation, or NotFound. */
    method FindOneAllLanguages(id: int) returns (r: Result<AllSummary>)
      requires db.Valid()
      ensures r.Ok? <==> exists t :: t in db.tags && t.id == id
      ensures r.Ok? ==> exists t :: t in db.tags && t.id == id && r.value == TagAllSummary(t)
      ensures r.Err? ==> r.error == NotFound(NotFoundById(id))
    {
      var found := FindBy(db.tags, TagId, id);
      if found.None? {
        return Err(NotFound(NotFoundById(id)));
      }
      r := Ok(TagAllSummary(found.value));
    }

    /** `findBySlugAllLanguages(slug)`: as `findOneAllLanguages`, keyed by the slug. */
    method FindBySlugAllLanguages(slug: string) returns (r: Result<AllSummary>)
      requires db.Valid()
      ensures r.Ok? <==> exists t :: t in db.tags && t.slug == slug
      ensures r.Ok? ==> exists t :: t in db.tags && t.slug == slug && r.value == TagAllSummary(t)
      ensures r.Err? ==> r.error == NotFound(NotFoundBySlug(slug))
    {
      var found := FindBy(db.tags, TagSlug, slug);
      if found.None? {
        return Err(NotFound(NotFoundBySlug(slug)));
      }
      r := Ok(TagAllSummary(found.value));
    }

    /** `update(id, dto)`: NotFound, then a non-empty new slug another tag
        holds is a Conflict, then the write. */
    method Update(id: int, dto: UpdateTagDto) returns (r: Result<Tag>)
      requires db.Valid()
      modifies db`tags
      ensures db.Valid()
      ensures match IndexBy(old(db.tags), TagId, id)
        case None => r == Err(NotFound(NotFoundById(id))) && db.tags == old(db.tags)
        case Some(i) =>
          if Given(dto.slug) && SlugHeldByOther(old(db.tags), TagId, TagSlug, dto.slug.value, id) then
            r == Err(Conflict(SLUG_EXISTS)) && db.tags == old(db.tags)
          else
            var u := ApplyTagUpdate(old(db.tags)[i], dto);
            r == Ok(u) && db.tags == old(db.tags)[i := u]
    {
      var index := IndexBy(db.tags, TagId, id);
      if index.None? {
        return Err(NotFound(NotFoundById(id)));
      }
      var i := index.value;
      if Given(dto.slug) && SlugHeldByOther(db.tags, TagId, TagSlug, dto.slug.value, id) {
        return Err(Conflict(SLUG_EXISTS));
      }
      var u := ApplyTagUpdate(db.tags[i], dto);
      OwnSlugFree(db.tags, i, TagId, TagSlug, db.nextTagId);
      TableReplace(db.tags, i, u, TagId, TagSlug, db.nextTagId);
      db.tags := db.tags[i := u];
      r := Ok(u);
    }

    /** `remove(id)`: NotFound, or the delete, which answers with the deleted row. */
    method Remove(id: int) returns (r: Result<Tag>)
      requires db.Valid()
      modifies db`tags
      ensures db.Valid()
      ensures match IndexBy(old(db.tags), TagId, id)
        case None => r == Err(NotFound(NotFoundById(id))) && db.tags == old(db.tags)
        case Some(i) => r == Ok(old(db.tags)[i]) && db.tags == RemoveAt(old(db.tags), i)
      ensures forall t :: t in db.tags ==> t.id != id
    {
      var index := IndexBy(db.tags, TagId, id);
      if index.None? {
        return Err(NotFound(NotFoundById(id)));
      }
      var i := index.value;
      r := Ok(db.tags[i]);
      TableRemove(db.tags, i, TagId, TagSlug, db.nextTagId);
      db.tags := RemoveAt(db.tags, i);
    }
  }
}
