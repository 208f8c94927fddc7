/**
 * What the five content services (articles, books, research, categories and
 * tags) have in common: the slug a `create` derives, the replace-all rule for
 * translation and link lists on `update`, a table with a unique id and a
 * unique slug, and the page of rows a `findAll` returns, newest first.
 */
module Content {
  import opened Errors
  import opened Lists
  import opened Slugs
  import opened Translations
  import opened Identity
  import Pagination

  /** A point in time, in seconds since 1970-01-01T00:00:00Z. */
  type Instant = int

  /** `defaultTranslation?.<field> || ''`: the field of the first default translation. */
  function DefaultTitle<C>(ts: seq<Translation<C>>, title: C -> string): (r: string)
    ensures Find(ts, IsDefault).None? ==> r == ""
  {
    match Find(ts, IsDefault)
    case Some(t) => title(t.content)
    case None => ""
  }

  /** `dto.slug || generateSlug(defaultTranslation?.<field> || '')`. */
  function DeriveSlug<C>(requested: Option<string>, ts: seq<Translation<C>>, title: C -> string): string {
    if Given(requested) then requested.value else GenerateSlug(DefaultTitle(ts, title))
  }

  /** A non-empty requested slug is kept verbatim; otherwise the slug is
      generated from the default title (the empty string when there is no
      default translation) and is already in canonical form: generating a
      slug from it again gives it back. */
  lemma DeriveSlugSpec<C>(requested: Option<string>, ts: seq<Translation<C>>, title: C -> string)
    ensures Given(requested) ==> DeriveSlug(requested, ts, title) == requested.value
    ensures !Given(requested) ==>
      var s := DeriveSlug(requested, ts, title);
      AllSlugChars(s) && GenerateSlug(s) == s
    ensures !Given(requested) && (forall t :: t in ts ==> !t.isDefault) ==> DeriveSlug(requested, ts, title) == ""
  {
    if !Given(requested) {
      GenerateSlugIdempotent(DefaultTitle(ts, title));
    }
  }

  /** `translation?.<fields>`: the content of the translation `getTranslation` picks. */
  function Chosen<C>(ts: seq<Translation<C>>, lang: Option<string>): (r: Option<C>)
    ensures r.None? <==> ts == []
    ensures ts != [] ==> exists i :: IsFirstBest(ts, lang, i) && r == Some(ts[i].content)
  {
    if ts == [] then None
    else
      GetTranslationIsFirstBest(ts, lang);
      Some(GetTranslation(ts, lang).value.content)
  }

  /** `...updateData` for an optional column: a given value overwrites, an absent one leaves the column. */
  function Over<T>(given: Option<T>, current: Option<T>): (r: Option<T>)
    ensures given.Some? ==> r == given
    ensures given.None? ==> r == current
  {
    if given.Some? then given else current
  }

  /** `ids && ids.length > 0 && {create: ...}`: the link rows a `create` writes. */
  function LinksOnCreate<T>(ids: Option<seq<T>>): (r: seq<T>)
    ensures ids.None? ==> r == []
    ensures ids.Some? ==> r == ids.value
  {
    if ids.Some? && |ids.value| > 0 then ids.value else []
  }

  /** `...(ids !== undefined && {deleteMany: {}, ...(ids.length > 0 && {create})})`:
      an absent list leaves the current rows, a given one deletes them all
      and creates one row per element when there are any. */
  function ReplaceAll<T>(current: seq<T>, given: Option<seq<T>>): (r: seq<T>)
    ensures given.None? ==> r == current
    ensures given.Some? ==> r == given.value
  {
    match given
    case None => current
    case Some(xs) =>
      var kept := Filter(current, (_: T) => false);
      DeleteAllLeavesNothing(current);
      kept + (if |xs| > 0 then xs else [])
  }

  /** `deleteMany({})` keeps no row. */
  lemma {:induction false} DeleteAllLeavesNothing<T>(rows: seq<T>)
    ensures Filter(rows, (_: T) => false) == []
  {
    if rows != [] {
      DeleteAllLeavesNothing(rows[1..]);
    }
  }

  /** Replacing twice with the same list is replacing once. */
  lemma ReplaceAllIdempotent<T>(current: seq<T>, given: Option<seq<T>>)
    ensures ReplaceAll(ReplaceAll(current, given), given) == ReplaceAll(current, given)
  {
  }

  /** `a.map(f)`. */
  function Map<T, V>(xs: seq<T>, f: T -> V): (r: seq<V>)
    ensures |r| == |xs|
    ensures forall i :: 0 <= i < |xs| ==> r[i] == f(xs[i])
  {
    seq(|xs|, i requires 0 <= i < |xs| => f(xs[i]))
  }

  /** A content table: ids and slugs unique, ids handed out below `next`. */
  ghost predicate TableValid<T>(rows: seq<T>, id: T -> int, slug: T -> string, next: int) {
    Unique(rows, id) && Unique(rows, slug) && IdsBelow(rows, id, next)
  }

  /** Another row than the one with this id has the slug: `findFirst({where: {slug, id: {not: id}}})`. */
  predicate SlugHeldByOther<T>(rows: seq<T>, id: T -> int, slug: T -> string, s: string, self: int) {
    exists i :: 0 <= i < |rows| && slug(rows[i]) == s && id(rows[i]) != self
  }

  /** Some row has the slug: `findUnique({where: {slug}})`. */
  predicate SlugHeld<T>(rows: seq<T>, slug: T -> string, s: string) {
    exists i :: 0 <= i < |rows| && slug(rows[i]) == s
  }

  /** A row's own slug is held by no other row. */
  lemma OwnSlugFree<T>(rows: seq<T>, i: int, id: T -> int, slug: T -> string, next: int)
    requires TableValid(rows, id, slug, next) && 0 <= i < |rows|
    ensures !SlugHeldByOther(rows, id, slug, slug(rows[i]), id(rows[i]))
  {
  }

  /** Overwriting a row by one with the same id and slug changes no answer
      of the slug checks. */
  lemma SameKeysSameHolders<T>(rows: seq<T>, i: int, x: T, id: T -> int, slug: T -> string)
    requires 0 <= i < |rows| && id(x) == id(rows[i]) && slug(x) == slug(rows[i])
    ensures forall s, self :: SlugHeldByOther(rows[i := x], id, slug, s, self) == SlugHeldByOther(rows, id, slug, s, self)
  {
    forall s, self ensures SlugHeldByOther(rows[i := x], id, slug, s, self) == SlugHeldByOther(rows, id, slug, s, self) {
      if SlugHeldByOther(rows, id, slug, s, self) {
        var j :| 0 <= j < |rows| && slug(rows[j]) == s && id(rows[j]) != self;
        assert slug(rows[i := x][j]) == s && id(rows[i := x][j]) != self;
      }
    }
  }

  /** Inserting a row with the next id and a free slug keeps the table valid
      and makes the row the one its slug and its id find. */
  lemma TableInsert<T>(rows: seq<T>, x: T, id: T -> int, slug: T -> string, next: int)
    requires TableValid(rows, id, slug, next) && next >= 1
    requires id(x) == next && !SlugHeld(rows, slug, slug(x))
    ensures TableValid(rows + [x], id, slug, next + 1)
    ensures FindBy(rows + [x], slug, slug(x)) == Some(x)
    ensures FindBy(rows + [x], id, id(x)) == Some(x)
  {
    UniqueAppend(rows, x, id);
    UniqueAppend(rows, x, slug);
    FindByUnique(rows + [x], slug, x);
    FindByUnique(rows + [x], id, x);
  }

  /** Overwriting row i by a row with the same id and a slug no other row has keeps the table valid. */
  lemma TableReplace<T>(rows: seq<T>, i: int, x: T, id: T -> int, slug: T -> string, next: int)
    requires TableValid(rows, id, slug, next) && 0 <= i < |rows|
    requires id(x) == id(rows[i]) && !SlugHeldByOther(rows, id, slug, slug(x), id(x))
    ensures TableValid(rows[i := x], id, slug, next)
  {
    UniqueReplace(rows, i, x, id);
    UniqueReplace(rows, i, x, slug);
  }

  /** The table without row i. */
  function RemoveAt<T>(rows: seq<T>, i: int): (r: seq<T>)
    requires 0 <= i < |rows|
    ensures |r| == |rows| - 1
    ensures forall j :: 0 <= j < |rows| && j != i ==> rows[j] in r
    ensures forall x :: x in r ==> x in rows
  {
    rows[..i] + rows[i + 1..]
  }

  /** Deleting row i keeps the table valid and leaves no row with its id. */
  lemma TableRemove<T>(rows: seq<T>, i: int, id: T -> int, slug: T -> string, next: int)
    requires TableValid(rows, id, slug, next) && 0 <= i < |rows|
    ensures TableValid(RemoveAt(rows, i), id, slug, next)
    ensures forall x :: x in RemoveAt(rows, i) ==> id(x) != id(rows[i])
  {
    var r := RemoveAt(rows, i);
    forall a, b | 0 <= a < b < |r| ensures id(r[a]) != id(r[b]) && slug(r[a]) != slug(r[b]) {
      var a', b' := if a < i then a else a + 1, if b < i then b else b + 1;
      assert r[a] == rows[a'] && r[b] == rows[b'];
    }
    forall x | x in r ensures id(x) != id(rows[i]) {
      var k :| 0 <= k < |r| && r[k] == x;
      var k' := if k < i then k else k + 1;
      assert x == rows[k'];
    }
  }

  /** Under a unique key, the position IndexBy finds is the only one with that key. */
  lemma IndexByOnly<T, K>(rows: seq<T>, key: T -> K, k: K)
    requires Unique(rows, key) && IndexBy(rows, key, k).Some?
    ensures forall j :: 0 <= j < |rows| && key(rows[j]) == k ==> j == IndexBy(rows, key, k).value
  {
  }

  /** Reading a table backwards and concatenating commute. */
  lemma ReverseConcat<T>(a: seq<T>, b: seq<T>)
    ensures Reverse(a + b) == Reverse(b) + Reverse(a)
  {
    var l, r := Reverse(a + b), Reverse(b) + Reverse(a);
    forall i | 0 <= i < |l| ensures l[i] == r[i] {
      if i < |b| {
        assert l[i] == (a + b)[|a| + |b| - 1 - i] == b[|b| - 1 - i];
      } else {
        assert l[i] == (a + b)[|a| + |b| - 1 - i] == a[|a| - 1 - (i - |b|)];
      }
    }
  }

  /** Filtering the newest-first order gives the filtered rows newest first. */
  lemma {:induction false} FilterReverse<T>(xs: seq<T>, p: T -> bool)
    ensures Filter(Reverse(xs), p) == Reverse(Filter(xs, p))
  {
    if xs != [] {
      var head := if p(xs[0]) then [xs[0]] else [];
      FilterReverse(xs[1..], p);
      FilterSnoc(Reverse(xs[1..]), xs[0], p);
      ReverseConcat(head, Filter(xs[1..], p));
      assert Reverse(head) == head;
    }
  }

  /** The `items`/`pagination` body of a listing response. */
  datatype Listing<V> = Listing(items: seq<V>, pagination: Pagination.Meta)

  /** A `findAll` page: `findMany({where, skip, take, orderBy: {createdAt: 'desc'}})`
      with `count({where})`, each row formatted. Rows are kept in insertion
      order, so the newest row comes first when the table is read backwards. */
  function ListPage<T, V>(rows: seq<T>, where: T -> bool, page: Option<int>, limit: Option<int>, format: T -> V): (r: Result<Listing<V>>)
    requires limit.GetOr(Pagination.DEFAULT_LIMIT) > 0
    ensures r.Ok? <==> page.GetOr(Pagination.DEFAULT_PAGE) >= 1
    ensures r.Ok? ==> r.value.pagination == Pagination.CreatePaginationMeta(|Filter(rows, where)|, page, limit)
    ensures r.Ok? ==>
      var o := Pagination.CreatePaginationOptions(page, limit);
      r.value.items == Map(Pagination.Window(Reverse(Filter(rows, where)), o.skip, o.take), format)
    ensures r.Ok? ==> forall v :: v in r.value.items ==> exists x :: x in rows && where(x) && v == format(x)
  {
    FilterReverse(rows, where);
    match Pagination.Paginate(Reverse(rows), where, page, limit)
    case Err(e) => Err(e)
    case Ok(p) => Ok(Listing(Map(p.data, format), p.meta))
  }
}
