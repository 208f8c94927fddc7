/**
 * CategoriesService: create a category under a unique slug, read one by id
 * or slug, update it, delete it, and list a page of categories, optionally
 * of one content model. Reading a category counts no view.
 */
module Categories {
  import opened Errors
  import opened Lists
  import opened Translations
  import opened Identity
  import opened Content
  import opened ContentTables
  import Pagination

  const SLUG_EXISTS := "Category with this slug already exists"

  function NotFoundById(id: int): string {
    "Category with ID " + IntToDecimal(id) + " not found"
  }

  function NotFoundBySlug(slug: string): string {
    "Category with slug \"" + slug + "\" not found"
  }

  datatype CreateCategoryDto = CreateCategoryDto(
    slug: Option<string>, model: ModelType, isActive: Option<bool>, translations: seq<Translation<string>>)

  datatype UpdateCategoryDto = UpdateCategoryDto(
    slug: Option<string>, model: Option<ModelType>, isActive: Option<bool>,
    translations: Option<seq<Translation<string>>>)

  function CategoryName(name: string): string { name }

  /** The row `create` inserts: active unless the DTO says otherwise. */
  function NewCategory(id: int, slug: string, dto: CreateCategoryDto, now: Instant): (r: Category)
    ensures r.id == id && r.slug == slug && r.model == dto.model && r.createdAt == now
    ensures r.translations == dto.translations
    ensures dto.isActive.None? ==> r.isActive
    ensures dto.isActive.Some? ==> r.isActive == dto.isActive.value
  {
    Category(id, slug, dto.model, dto.isActive.GetOr(true), dto.translations, now)
  }

  /** The row after `update`: slug and model change only when non-empty,
      `isActive` whenever given, and given translations replace the old ones
      (which `update` deletes in a statement of their own just before). */
  function ApplyCategoryUpdate(c: Category, dto: UpdateCategoryDto): (r: Category)
    ensures r.id == c.id && r.createdAt == c.createdAt
    ensures r.slug == (if Given(dto.slug) then dto.slug.value else c.slug)
    ensures r.model == (if Given(dto.model) then dto.model.value else c.model)
    ensures r.isActive == dto.isActive.GetOr(c.isActive)
    ensures dto.translations.None? ==> r.translations == c.translations
    ensures dto.translations.Some? ==> r.translations == dto.translations.value
  {
    c.(slug := if Given(dto.slug) then dto.slug.value else c.slug,
       model := if Given(dto.model) then dto.model.value else c.model,
       isActive := dto.isActive.GetOr(c.isActive),
       translations := ReplaceAll(c.translations, dto.translations))
  }

  /** An empty slug or model in an update is ignored, unlike the content
      services, where the value is written as given. */
  lemma EmptySlugIgnored(c: Category, dto: UpdateCategoryDto)
    requires dto.slug == Some("") && dto.model == Some("")
    ensures ApplyCategoryUpdate(c, dto).slug == c.slug && ApplyCategoryUpdate(c, dto).model == c.model
  {
  }

  /** Sending the same update twice leaves the row as sending it once. */
  lemma CategoryUpdateIdempotent(c: Category, dto: UpdateCategoryDto)
    ensures ApplyCategoryUpdate(ApplyCategoryUpdate(c, dto), dto) == ApplyCategoryUpdate(c, dto)
  {
  }

  /** `formatCategoryResponse(category, lang)`. */
  datatype CategoryView = CategoryView(
    id: int, slug: string, name: Option<string>, model: ModelType, isActive: bool, createdAt: Instant)

  function FormatCategory(lang: Option<string>): Category -> CategoryView {
    (c: Category) => CategoryView(c.id, c.slug, Chosen(c.translations, lang), c.model, c.isActive, c.createdAt)
  }

  /** The `where` of the listings: the model when one is given. */
  function ModelWhere(model: Option<ModelType>): Category -> bool {
    (c: Category) => Given(model) ==> c.model == model.value
  }

  /** `findAll(lang, page, limit, model)`: a page of categories, newest first. */
  function FindAll(categories: seq<Category>, lang: Option<string>, page: Option<int>, limit: Option<int>,
                   model: Option<ModelType>): (r: Result<Listing<CategoryView>>)
    requires limit.GetOr(Pagination.DEFAULT_LIMIT) > 0
    ensures r.Ok? <==> page.GetOr(Pagination.DEFAULT_PAGE) >= 1
    ensures r.Ok? ==> r.value.pagination.totalItems == |Filter(categories, ModelWhere(model))|
    ensures r.Ok? ==> forall v :: v in r.value.items ==>
      exists c :: c in categories && ModelWhere(model)(c) && v == FormatCategory(lang)(c)
  {
    ListPage(categories, ModelWhere(model), page, limit, FormatCategory(lang))
  }

  /** Without a model every category is counted; with one, every listed
      category is of that model. */
  lemma FindAllModels(categories: seq<Category>, lang: Option<string>, page: Option<int>, limit: Option<int>,
                      model: Option<ModelType>)
    requires limit.GetOr(Pagination.DEFAULT_LIMIT) > 0 && page.GetOr(Pagination.DEFAULT_PAGE) >= 1
    ensures var r := FindAll(categories, lang, page, limit, model);
      && (!Given(model) ==> r.value.pagination.totalItems == |categories|)
      && (Given(model) ==> forall v :: v in r.value.items ==> v.model == model.value)
  {
    if !Given(model) {
      FilterAllPass(categories, ModelWhere(model));
    }
  }

  /** An item of `findAllLanguages`: the category with all its translations. */
  datatype CategoryAllView = CategoryAllView(
    id: int, slug: string, translations: seq<Translation<string>>, model: ModelType, createdAt: Instant)

  function AllLanguagesItem(c: Category): CategoryAllView {
    CategoryAllView(c.id, c.slug, c.translations, c.model, c.createdAt)
  }

  /** `findAllLanguages(page, limit, model)`: the same page, every translation kept. */
  function FindAllLanguages(categories: seq<Category>, page: Option<int>, limit: Option<int>,
                            model: Option<ModelType>): (r: Result<Listing<CategoryAllView>>)
    requires limit.GetOr(Pagination.DEFAULT_LIMIT) > 0
    ensures r.Ok? <==> page.GetOr(Pagination.DEFAULT_PAGE) >= 1
    ensures r.Ok? ==> r.value.pagination.totalItems == |Filter(categories, ModelWhere(model))|
    ensures r.Ok? ==> forall v :: v in r.value.items ==>
      exists c :: c in categories && ModelWhere(model)(c) && v == AllLanguagesItem(c)
  {
    ListPage(categories, ModelWhere(model), page, limit, AllLanguagesItem)
  }

  /** Both listings show the same categories in the same order. */
  lemma ListingsAgree(categories: seq<Category>, lang: Option<string>, page: Option<int>, limit: Option<int>,
                      model: Option<ModelType>)
    requires limit.GetOr(Pagination.DEFAULT_LIMIT) > 0 && page.GetOr(Pagination.DEFAULT_PAGE) >= 1
    ensures var one := FindAll(categories, lang, page, limit, model).value;
      var all := FindAllLanguages(categories, page, limit, model).value;
      && one.pagination == all.pagination
      && |one.items| == |all.items|
      && forall k :: 0 <= k < |one.items| ==> one.items[k].id == all.items[k].id && one.items[k].slug == all.items[k].slug
  {
  }

  class CategoriesService {
    const db: ContentDb

    constructor(db: ContentDb)
      ensures this.db == db
    {
      this.db := db;
    }

    /** `create(dto)`: derive the slug from the default name, refuse one in use, insert the row. */
    method Create(dto: CreateCategoryDto, now: Instant) returns (r: Result<Category>)
      requires db.Valid()
      modifies db`categories, db`nextCategoryId
      ensures db.Valid()
      ensures var slug := DeriveSlug(dto.slug, dto.translations, CategoryName);
        if SlugHeld(old(db.categories), CategorySlug, slug) then
          && r == Err(Conflict(SLUG_EXISTS))
          && db.categories == old(db.categories) && db.nextCategoryId == old(db.nextCategoryId)
        else
          && r == Ok(NewCategory(old(db.nextCategoryId), slug, dto, now))
          && db.categories == old(db.categories) + [r.value] && db.nextCategoryId == old(db.nextCategoryId) + 1
          && FindBy(db.categories, CategorySlug, slug) == Some(r.value)
    {
      var slug := DeriveSlug(dto.slug, dto.translations, CategoryName);
      if SlugHeld(db.categories, CategorySlug, slug) {
        return Err(Conflict(SLUG_EXISTS));
      }
      var c := NewCategory(db.nextCategoryId, slug, dto, now);
      TableInsert(db.categories, c, CategoryId, CategorySlug, db.nextCategoryId);
      db.categories := db.categories + [c];
      db.nextCategoryId := db.nextCategoryId + 1;
      r := Ok(c);
    }

    /** `findOne(id, lang)`: the category with the id, or NotFound. */
    method FindOne(id: int, lang: Option<string>) returns (r: Result<CategoryView>)
      requires db.Valid()
      ensures r.Ok? <==> exists c :: c in db.categories && c.id == id
      ensures r.Ok? ==> exists c :: c in db.categories && c.id == id && r.value == FormatCategory(lang)(c)
      ensures r.Err? ==> r.error == NotFound(NotFoundById(id))
    {
      var found := FindBy(db.categories, CategoryId, id);
      if found.None? {
        return Err(NotFound(NotFoundById(id)));
      }
      r := Ok(FormatCategory(lang)(found.value));
    }

    /** `findBySlug(slug, lang)`: the category with the slug, or NotFound. */
    method FindBySlug(slug: string, lang: Option<string>) returns (r: Result<CategoryView>)
      requires db.Valid()
      ensures r.Ok? <==> exists c :: c in db.categories && c.slug == slug
      ensures r.Ok? ==> exists c :: c in db.categories && c.slug == slug && r.value == FormatCategory(lang)(c)
      ensures r.Err? ==> r.error == NotFound(NotFoundBySlug(slug))
    {
      var found := FindBy(db.categories, CategorySlug, slug);
      if found.None? {
        return Err(NotFound(NotFoundBySlug(slug)));
      }
      r := Ok(FormatCategory(lang)(found.value));
    }

    /** `findOneAllLanguages(id)`: the category with every translation, or NotFound. */
    method FindOneAllLanguages(id: int) returns (r: Result<CategoryAllView>)
      requires db.Valid()
      ensures r.Ok? <==> exists c :: c in db.categories && c.id == id
      ensures r.Ok? ==> exists c :: c in db.categories && c.id == id && r.value == AllLanguagesItem(c)
      ensures r.Err? ==> r.error == NotFound(NotFoundById(id))
    {
      var found := FindBy(db.categories, CategoryId, id);
      if found.None? {
        return Err(NotFound(NotFoundById(id)));
      }
      r := Ok(AllLanguagesItem(found.value));
    }

    /** `findBySlugAllLanguages(slug)`: as `findOneAllLanguages`, keyed by the slug. */
    method FindBySlugAllLanguages(slug: string) returns (r: Result<CategoryAllView>)
      requires db.Valid()
      ensures r.Ok? <==> exists c :: c in db.categories && c.slug == slug
      ensures r.Ok? ==> exists c :: c in db.categories && c.slug == slug && r.value == AllLanguagesItem(c)
      ensures r.Err? ==> r.error == NotFound(NotFoundBySlug(slug))
    {
      var found := FindBy(db.categories, CategorySlug, slug);
      if found.None? {
        return Err(NotFound(NotFoundBySlug(slug)));
      }
      r := Ok(AllLanguagesItem(found.value));
    }

    /** `update(id, dto)`: NotFound, then a non-empty new slug another
        category holds is a Conflict, then the write. Only a non-empty slug
        is written, so the write itself cannot break slug uniqueness. */
    method Update(id: int, dto: UpdateCategoryDto) returns (r: Result<Category>)
      requires db.Valid()
      modifies db`categories
      ensures db.Valid()
      ensures match IndexBy(old(db.categories), CategoryId, id)
        case None => r == Err(NotFound(NotFoundById(id))) && db.categories == old(db.categories)
        case Some(i) =>
          if Given(dto.slug) && SlugHeldByOther(old(db.categories), CategoryId, CategorySlug, dto.slug.value, id) then
            r == Err(Conflict(SLUG_EXISTS)) && db.categories == old(db.categories)
          else
            var u := ApplyCategoryUpdate(old(db.categories)[i], dto);
            r == Ok(u) && db.categories == old(db.categories)[i := u]
    {
      var index := IndexBy(db.categories, CategoryId, id);
      if index.None? {
        return Err(NotFound(NotFoundById(id)));
      }
      var i := index.value;
      if Given(dto.slug) && SlugHeldByOther(db.categories, CategoryId, CategorySlug, dto.slug.value, id) {
        return Err(Conflict(SLUG_EXISTS));
      }
      var u := ApplyCategoryUpdate(db.categories[i], dto);
      OwnSlugFree(db.categories, i, CategoryId, CategorySlug, db.nextCategoryId);
      TableReplace(db.categories, i, u, CategoryId, CategorySlug, db.nextCategoryId);
      db.categories := db.categories[i := u];
      r := Ok(u);
    }

    /** `remove(id)`: NotFound, or the delete, which answers with the deleted row. */
    method Remove(id: int) returns (r: Result<Category>)
      requires db.Valid()
      modifies db`categories
      ensures db.Valid()
      ensures match IndexBy(old(db.categories), CategoryId, id)
        case None => r == Err(NotFound(NotFoundById(id))) && db.categories == old(db.categories)
        case Some(i) => r == Ok(old(db.categories)[i]) && db.categories == RemoveAt(old(db.categories), i)
      ensures forall c :: c in db.categories ==> c.id != id
    {
      var index := IndexBy(db.categories, CategoryId, id);
      if index.None? {
        return Err(NotFound(NotFoundById(id)));
      }
      var i := index.value;
      r := Ok(db.categories[i]);
      TableRemove(db.categories, i, CategoryId, CategorySlug, db.nextCategoryId);
      db.categories := RemoveAt(db.categories, i);
    }
  }
}
