/**
 * The fixed data of the database seed: the role names, the model tags and
 * actions whose cross product names the permissions, and the permission list
 * granted to EDITOR, with what is known about them (every catalogue name is
 * distinct, `READ_` picks one action per model, every EDITOR entry names a
 * content permission that the catalogue holds).
 */
module SeedCatalogue {
  import opened Lists
  import Slugs

  const ROLE_NAMES: seq<string> := ["SUPER_ADMIN", "ADMIN", "EDITOR", "USER"]

  /** The model tags, in catalogue order; the first ten are the auth and ACL models. */
  const MODELS: seq<string> := [
    "USER", "ACTIVITYLOG", "ROLE", "PERMISSION", "USERROLE",
    "GROUP", "GROUPMEMBER", "ROLEPERMISSION", "GROUPPERMISSION", "REFRESHTOKEN",
    "LANGUAGE",
    "ATTACHMENTS",
    "TAG", "TAGTRANSLATION", "ARTICLETAG", "RESEARCHTAG", "BOOKTAG",
    "CATEGORY", "CATEGORYTRANSLATION",
    "ARTICLE", "ARTICLETRANSLATION", "ARTICLEATTACHMENTS",
    "RESEARCH", "RESEARCHTRANSLATION", "RESEARCHATTACHMENTS",
    "BOOK", "BOOKTRANSLATION", "BOOKATTACHMENTS"
  ]

  const AUTH_MODELS := 10

  const ACTIONS: seq<string> := ["CREATE", "READ", "UPDATE", "DELETE"]

  /** Number of permissions the seed defines: one per model and action. */
  const CATALOGUE_SIZE := 112

  /** `name.replace(/_/g, " ")`. */
  function ReplaceUnderscores(s: string): (r: string)
    ensures |r| == |s|
    ensures forall i :: 0 <= i < |s| ==> r[i] == (if s[i] == '_' then ' ' else s[i])
  {
    seq(|s|, i requires 0 <= i < |s| => if s[i] == '_' then ' ' else s[i])
  }

  /** A role's description: its name with underscores as spaces, lowercased. */
  function RoleDescription(name: string): (r: string)
    ensures |r| == |name|
    ensures forall i :: 0 <= i < |r| ==> r[i] != '_' && !('A' <= r[i] <= 'Z')
    ensures forall i :: 0 <= i < |r| ==> r[i] == (if name[i] == '_' then ' ' else Slugs.LowerChar(name[i]))
  {
    Slugs.ToLower(ReplaceUnderscores(name))
  }

  lemma SuperAdminDescription()
    ensures RoleDescription("SUPER_ADMIN") == "super admin"
  {
    SuperAdminSpaced();
    SuperAdminLowered();
  }

  lemma SuperAdminSpaced()
    ensures ReplaceUnderscores("SUPER_ADMIN") == "SUPER ADMIN"
  {
    var r := ReplaceUnderscores("SUPER_ADMIN");
    forall i | 0 <= i < |r| ensures r[i] == "SUPER ADMIN"[i] {
      assert "SUPER_ADMIN"[i] == '_' <==> i == 5;
    }
  }

  lemma SuperAdminLowered()
    ensures Slugs.ToLower("SUPER ADMIN") == "super admin"
  {
    var r := Slugs.ToLower("SUPER ADMIN");
    assert r[0] == 's' && r[1] == 'u' && r[2] == 'p' && r[3] == 'e' && r[4] == 'r';
    assert r[5] == ' ' && r[6] == 'a' && r[7] == 'd' && r[8] == 'm' && r[9] == 'i' && r[10] == 'n';
  }

  /** `${action}_${model}` for action `a` and model `m`. */
  function PermName(a: int, m: int): string
    requires 0 <= a < |ACTIONS| && 0 <= m < |MODELS|
  {
    ACTIONS[a] + "_" + MODELS[m]
  }

  /** `${action.toLowerCase()} ${model.toLowerCase()}`. */
  function PermDescription(a: int, m: int): string
    requires 0 <= a < |ACTIONS| && 0 <= m < |MODELS|
  {
    Slugs.ToLower(ACTIONS[a]) + " " + Slugs.ToLower(MODELS[m])
  }

  /** The k-th name the nested loops generate (models outside, actions inside). */
  function NameAt(k: int): string
    requires 0 <= k < CATALOGUE_SIZE
  {
    PermName(k % 4, k / 4)
  }

  function DescriptionAt(k: int): string
    requires 0 <= k < CATALOGUE_SIZE
  {
    PermDescription(k % 4, k / 4)
  }

  /** Iteration (model m, action a) is the (4m + a)-th. */
  lemma NameAtPosition(m: int, a: int)
    requires 0 <= m < |MODELS| && 0 <= a < |ACTIONS|
    ensures 0 <= 4 * m + a < CATALOGUE_SIZE
    ensures NameAt(4 * m + a) == PermName(a, m) && DescriptionAt(4 * m + a) == PermDescription(a, m)
  {
    assert (4 * m + a) % 4 == a && (4 * m + a) / 4 == m;
  }

  lemma LiteralsDistinct()
    ensures |MODELS| == 28 && |ACTIONS| == 4
    ensures NoDuplicates(MODELS) && NoDuplicates(ACTIONS) && NoDuplicates(ROLE_NAMES)
    ensures forall a :: 0 <= a < |ACTIONS| ==> '_' !in ACTIONS[a]
  {
    ModelsDistinctFrom(0, 6);
    ModelsDistinctFrom(6, 13);
    ModelsDistinctFrom(13, 28);
  }

  /** The models at positions `lo` up to `hi` differ from every later model. */
  lemma ModelsDistinctFrom(lo: int, hi: int)
    requires (lo, hi) in {(0, 6), (6, 13), (13, 28)}
    ensures forall i, j :: lo <= i < hi && i < j < |MODELS| ==> MODELS[i] != MODELS[j]
  {
  }

  /** A name `x_y` with no underscore in `x` splits back into `x` and `y`. */
  lemma SplitAtSeparator(x: string, y: string, x2: string, y2: string)
    requires '_' !in x && '_' !in x2 && x + "_" + y == x2 + "_" + y2
    ensures x == x2 && y == y2
  {
    var s := x + "_" + y;
    assert s[|x|] == '_' && s[|x2|] == '_';
    assert forall i :: 0 <= i < |x| ==> s[i] == x[i] && x[i] != '_';
    assert forall i :: 0 <= i < |x2| ==> s[i] == x2[i] && x2[i] != '_';
    assert |x| == |x2|;
    assert x == s[..|x|] && x2 == s[..|x2|];
    assert y == s[|x| + 1..] && y2 == s[|x2| + 1..];
  }

  /** Different (action, model) pairs give different names. */
  lemma PermNameInjective(a: int, m: int, a2: int, m2: int)
    requires 0 <= a < |ACTIONS| && 0 <= m < |MODELS| && 0 <= a2 < |ACTIONS| && 0 <= m2 < |MODELS|
    requires PermName(a, m) == PermName(a2, m2)
    ensures a == a2 && m == m2
  {
    LiteralsDistinct();
    SplitAtSeparator(ACTIONS[a], MODELS[m], ACTIONS[a2], MODELS[m2]);
  }

  /** The 112 generated names are pairwise distinct. */
  lemma NameAtInjective(k: int, k2: int)
    requires 0 <= k < CATALOGUE_SIZE && 0 <= k2 < CATALOGUE_SIZE && NameAt(k) == NameAt(k2)
    ensures k == k2
  {
    PermNameInjective(k % 4, k / 4, k2 % 4, k2 / 4);
  }

  /** The n-th generated name differs from every earlier one. */
  lemma NameAtFresh(n: int)
    requires 0 <= n < CATALOGUE_SIZE
    ensures forall k :: 0 <= k < n ==> NameAt(k) != NameAt(n)
  {
    forall k | 0 <= k < n ensures NameAt(k) != NameAt(n) {
      if NameAt(k) == NameAt(n) {
        NameAtInjective(k, n);
      }
    }
  }

  /** `key.startsWith(prefix)`. */
  predicate StartsWith(s: string, prefix: string) {
    |prefix| <= |s| && s[..|prefix|] == prefix
  }

  /** A generated name starts with "READ_" exactly when its action is READ. */
  lemma ReadPrefix(a: int, m: int)
    requires 0 <= a < |ACTIONS| && 0 <= m < |MODELS|
    ensures StartsWith(PermName(a, m), "READ_") <==> a == 1
  {
    var n := PermName(a, m);
    if a == 1 {
      assert n[..5] == "READ_";
    } else {
      assert n[0] == ACTIONS[a][0] && ACTIONS[a][0] != 'R';
    }
  }

  /** A permission on one of the content models (every model after the auth and ACL block). */
  predicate ContentPermission(n: string) {
    exists a, m :: 0 <= a < |ACTIONS| && AUTH_MODELS <= m < |MODELS| && n == PermName(a, m)
  }

  /** The names granted to EDITOR, in the order the seed grants them. */
  const EDITOR_ARTICLE_PERMISSIONS: seq<string> := [
    "CREATE_ARTICLE", "READ_ARTICLE", "UPDATE_ARTICLE", "DELETE_ARTICLE",
    "CREATE_ARTICLETRANSLATION", "READ_ARTICLETRANSLATION", "UPDATE_ARTICLETRANSLATION", "DELETE_ARTICLETRANSLATION",
    "CREATE_ARTICLEATTACHMENTS", "READ_ARTICLEATTACHMENTS", "UPDATE_ARTICLEATTACHMENTS", "DELETE_ARTICLEATTACHMENTS",
    "CREATE_ARTICLETAG", "READ_ARTICLETAG", "UPDATE_ARTICLETAG", "DELETE_ARTICLETAG"
  ]

  const EDITOR_BOOK_PERMISSIONS: seq<string> := [
    "CREATE_BOOK", "READ_BOOK", "UPDATE_BOOK", "DELETE_BOOK",
    "CREATE_BOOKTRANSLATION", "READ_BOOKTRANSLATION", "UPDATE_BOOKTRANSLATION", "DELETE_BOOKTRANSLATION",
    "CREATE_BOOKATTACHMENTS", "READ_BOOKATTACHMENTS", "UPDATE_BOOKATTACHMENTS", "DELETE_BOOKATTACHMENTS",
    "CREATE_BOOKTAG", "READ_BOOKTAG", "UPDATE_BOOKTAG", "DELETE_BOOKTAG"
  ]

  const EDITOR_RESEARCH_PERMISSIONS: seq<string> := [
    "CREATE_RESEARCH", "READ_RESEARCH", "UPDATE_RESEARCH", "DELETE_RESEARCH",
    "CREATE_RESEARCHTRANSLATION", "READ_RESEARCHTRANSLATION", "UPDATE_RESEARCHTRANSLATION", "DELETE_RESEARCHTRANSLATION",
    "CREATE_RESEARCHATTACHMENTS", "READ_RESEARCHATTACHMENTS", "UPDATE_RESEARCHATTACHMENTS", "DELETE_RESEARCHATTACHMENTS",
    "CREATE_RESEARCHTAG", "READ_RESEARCHTAG", "UPDATE_RESEARCHTAG", "DELETE_RESEARCHTAG"
  ]

  const EDITOR_CATEGORY_PERMISSIONS: seq<string> := [
    "CREATE_CATEGORY", "READ_CATEGORY", "UPDATE_CATEGORY", "DELETE_CATEGORY",
    "CREATE_CATEGORYTRANSLATION", "READ_CATEGORYTRANSLATION", "UPDATE_CATEGORYTRANSLATION", "DELETE_CATEGORYTRANSLATION"
  ]

  const EDITOR_TAG_PERMISSIONS: seq<string> := [
    "CREATE_TAG", "READ_TAG", "UPDATE_TAG", "DELETE_TAG",
    "CREATE_TAGTRANSLATION", "READ_TAGTRANSLATION", "UPDATE_TAGTRANSLATION", "DELETE_TAGTRANSLATION"
  ]

  const EDITOR_ATTACHMENT_PERMISSIONS: seq<string> := [
    "CREATE_ATTACHMENTS", "READ_ATTACHMENTS", "UPDATE_ATTACHMENTS", "DELETE_ATTACHMENTS"
  ]

  const EDITOR_LANGUAGE_PERMISSIONS: seq<string> := [
    "READ_LANGUAGE"
  ]

  const EDITOR_PERMISSIONS: seq<string> :=
    EDITOR_ARTICLE_PERMISSIONS + EDITOR_BOOK_PERMISSIONS + EDITOR_RESEARCH_PERMISSIONS
      + EDITOR_CATEGORY_PERMISSIONS + EDITOR_TAG_PERMISSIONS + EDITOR_ATTACHMENT_PERMISSIONS
      + EDITOR_LANGUAGE_PERMISSIONS

  lemma ArticleCreateRead()
    ensures EDITOR_ARTICLE_PERMISSIONS[0] == PermName(0, 19)
    ensures EDITOR_ARTICLE_PERMISSIONS[1] == PermName(1, 19)
  {
  }

  lemma ArticleUpdateDelete()
    ensures EDITOR_ARTICLE_PERMISSIONS[2] == PermName(2, 19)
    ensures EDITOR_ARTICLE_PERMISSIONS[3] == PermName(3, 19)
  {
  }

  lemma ArticleTranslationCreateRead()
    ensures EDITOR_ARTICLE_PERMISSIONS[4] == PermName(0, 20)
    ensures EDITOR_ARTICLE_PERMISSIONS[5] == PermName(1, 20)
  {
  }

  lemma ArticleTranslationUpdateDelete()
    ensures EDITOR_ARTICLE_PERMISSIONS[6] == PermName(2, 20)
    ensures EDITOR_ARTICLE_PERMISSIONS[7] == PermName(3, 20)
  {
  }

  lemma ArticleAttachmentsCreateRead()
    ensures EDITOR_ARTICLE_PERMISSIONS[8] == PermName(0, 21)
    ensures EDITOR_ARTICLE_PERMISSIONS[9] == PermName(1, 21)
  {
  }

  lemma ArticleAttachmentsUpdateDelete()
    ensures EDITOR_ARTICLE_PERMISSIONS[10] == PermName(2, 21)
    ensures EDITOR_ARTICLE_PERMISSIONS[11] == PermName(3, 21)
  {
  }

  lemma ArticleTagCreateRead()
    ensures EDITOR_ARTICLE_PERMISSIONS[12] == PermName(0, 14)
    ensures EDITOR_ARTICLE_PERMISSIONS[13] == PermName(1, 14)
  {
  }

  lemma ArticleTagUpdateDelete()
    ensures EDITOR_ARTICLE_PERMISSIONS[14] == PermName(2, 14)
    ensures EDITOR_ARTICLE_PERMISSIONS[15] == PermName(3, 14)
  {
  }

  lemma ArticleEntries()
    ensures forall j :: 0 <= j < |EDITOR_ARTICLE_PERMISSIONS| ==> ContentPermission(EDITOR_ARTICLE_PERMISSIONS[j])
  {
    ArticleCreateRead();
    ArticleUpdateDelete();
    ArticleTranslationCreateRead();
    ArticleTranslationUpdateDelete();
    ArticleAttachmentsCreateRead();
    ArticleAttachmentsUpdateDelete();
    ArticleTagCreateRead();
    ArticleTagUpdateDelete();
    forall j | 0 <= j < |EDITOR_ARTICLE_PERMISSIONS| ensures ContentPermission(EDITOR_ARTICLE_PERMISSIONS[j]) {
      if j == 0 { assert EDITOR_ARTICLE_PERMISSIONS[j] == PermName(0, 19);
      } else if j == 1 { assert EDITOR_ARTICLE_PERMISSIONS[j] == PermName(1, 19);
      } else if j == 2 { assert EDITOR_ARTICLE_PERMISSIONS[j] == PermName(2, 19);
      } else if j == 3 { assert EDITOR_ARTICLE_PERMISSIONS[j] == PermName(3, 19);
      } else if j == 4 { assert EDITOR_ARTICLE_PERMISSIONS[j] == PermName(0, 20);
      } else if j == 5 { assert EDITOR_ARTICLE_PERMISSIONS[j] == PermName(1, 20);
      } else if j == 6 { assert EDITOR_ARTICLE_PERMISSIONS[j] == PermName(2, 20);
      } else if j == 7 { assert EDITOR_ARTICLE_PERMISSIONS[j] == PermName(3, 20);
      } else if j == 8 { assert EDITOR_ARTICLE_PERMISSIONS[j] == PermName(0, 21);
      } else if j == 9 { assert EDITOR_ARTICLE_PERMISSIONS[j] == PermName(1, 21);
      } else if j == 10 { assert EDITOR_ARTICLE_PERMISSIONS[j] == PermName(2, 21);
      } else if j == 11 { assert EDITOR_ARTICLE_PERMISSIONS[j] == PermName(3, 21);
      } else if j == 12 { assert EDITOR_ARTICLE_PERMISSIONS[j] == PermName(0, 14);
      } else if j == 13 { assert EDITOR_ARTICLE_PERMISSIONS[j] == PermName(1, 14);
      } else if j == 14 { assert EDITOR_ARTICLE_PERMISSIONS[j] == PermName(2, 14);
      } else { assert EDITOR_ARTICLE_PERMISSIONS[j] == PermName(3, 14);
      }
    }
  }

  lemma BookCreateRead()
    ensures EDITOR_BOOK_PERMISSIONS[0] == PermName(0, 25)
    ensures EDITOR_BOOK_PERMISSIONS[1] == PermName(1, 25)
  {
  }

  lemma BookUpdateDelete()
    ensures EDITOR_BOOK_PERMISSIONS[2] == PermName(2, 25)
    ensures EDITOR_BOOK_PERMISSIONS[3] == PermName(3, 25)
  {
  }

  lemma BookTranslationCreateRead()
    ensures EDITOR_BOOK_PERMISSIONS[4] == PermName(0, 26)
    ensures EDITOR_BOOK_PERMISSIONS[5] == PermName(1, 26)
  {
  }

  lemma BookTranslationUpdateDelete()
    ensures EDITOR_BOOK_PERMISSIONS[6] == PermName(2, 26)
    ensures EDITOR_BOOK_PERMISSIONS[7] == PermName(3, 26)
  {
  }

  lemma BookAttachmentsCreateRead()
    ensures EDITOR_BOOK_PERMISSIONS[8] == PermName(0, 27)
    ensures EDITOR_BOOK_PERMISSIONS[9] == PermName(1, 27)
  {
  }

  lemma BookAttachmentsUpdateDelete()
    ensures EDITOR_BOOK_PERMISSIONS[10] == PermName(2, 27)
    ensures EDITOR_BOOK_PERMISSIONS[11] == PermName(3, 27)
  {
  }

  lemma BookTagCreateRead()
    ensures EDITOR_BOOK_PERMISSIONS[12] == PermName(0, 16)
    ensures EDITOR_BOOK_PERMISSIONS[13] == PermName(1, 16)
  {
  }

  lemma BookTagUpdateDelete()
    ensures EDITOR_BOOK_PERMISSIONS[14] == PermName(2, 16)
    ensures EDITOR_BOOK_PERMISSIONS[15] == PermName(3, 16)
  {
  }

  lemma BookEntries()
    ensures forall j :: 0 <= j < |EDITOR_BOOK_PERMISSIONS| ==> ContentPermission(EDITOR_BOOK_PERMISSIONS[j])
  {
    BookCreateRead();
    BookUpdateDelete();
    BookTranslationCreateRead();
    BookTranslationUpdateDelete();
    BookAttachmentsCreateRead();
    BookAttachmentsUpdateDelete();
    BookTagCreateRead();
    BookTagUpdateDelete();
    forall j | 0 <= j < |EDITOR_BOOK_PERMISSIONS| ensures ContentPermission(EDITOR_BOOK_PERMISSIONS[j]) {
      if j == 0 { assert EDITOR_BOOK_PERMISSIONS[j] == PermName(0, 25);
      } else if j == 1 { assert EDITOR_BOOK_PERMISSIONS[j] == PermName(1, 25);
      } else if j == 2 { assert EDITOR_BOOK_PERMISSIONS[j] == PermName(2, 25);
      } else if j == 3 { assert EDITOR_BOOK_PERMISSIONS[j] == PermName(3, 25);
      } else if j == 4 { assert EDITOR_BOOK_PERMISSIONS[j] == PermName(0, 26);
      } else if j == 5 { assert EDITOR_BOOK_PERMISSIONS[j] == PermName(1, 26);
      } else if j == 6 { assert EDITOR_BOOK_PERMISSIONS[j] == PermName(2, 26);
      } else if j == 7 { assert EDITOR_BOOK_PERMISSIONS[j] == PermName(3, 26);
      } else if j == 8 { assert EDITOR_BOOK_PERMISSIONS[j] == PermName(0, 27);
      } else if j == 9 { assert EDITOR_BOOK_PERMISSIONS[j] == PermName(1, 27);
      } else if j == 10 { assert EDITOR_BOOK_PERMISSIONS[j] == PermName(2, 27);
      } else if j == 11 { assert EDITOR_BOOK_PERMISSIONS[j] == PermName(3, 27);
      } else if j == 12 { assert EDITOR_BOOK_PERMISSIONS[j] == PermName(0, 16);
      } else if j == 13 { assert EDITOR_BOOK_PERMISSIONS[j] == PermName(1, 16);
      } else if j == 14 { assert EDITOR_BOOK_PERMISSIONS[j] == PermName(2, 16);
      } else { assert EDITOR_BOOK_PERMISSIONS[j] == PermName(3, 16);
      }
    }
  }

  lemma ResearchCreateRead()
    ensures EDITOR_RESEARCH_PERMISSIONS[0] == PermName(0, 22)
    ensures EDITOR_RESEARCH_PERMISSIONS[1] == PermName(1, 22)
  {
  }

  lemma ResearchUpdateDelete()
    ensures EDITOR_RESEARCH_PERMISSIONS[2] == PermName(2, 22)
    ensures EDITOR_RESEARCH_PERMISSIONS[3] == PermName(3, 22)
  {
  }

  lemma ResearchTranslationCreateRead()
    ensures EDITOR_RESEARCH_PERMISSIONS[4] == PermName(0, 23)
    ensures EDITOR_RESEARCH_PERMISSIONS[5] == PermName(1, 23)
  {
  }

  lemma ResearchTranslationUpdateDelete()
    ensures EDITOR_RESEARCH_PERMISSIONS[6] == PermName(2, 23)
    ensures EDITOR_RESEARCH_PERMISSIONS[7] == PermName(3, 23)
  {
  }

  lemma ResearchAttachmentsCreateRead()
    ensures EDITOR_RESEARCH_PERMISSIONS[8] == PermName(0, 24)
    ensures EDITOR_RESEARCH_PERMISSIONS[9] == PermName(1, 24)
  {
  }

  lemma ResearchAttachmentsUpdateDelete()
    ensures EDITOR_RESEARCH_PERMISSIONS[10] == PermName(2, 24)
    ensures EDITOR_RESEARCH_PERMISSIONS[11] == PermName(3, 24)
  {
  }

  lemma ResearchTagCreateRead()
    ensures EDITOR_RESEARCH_PERMISSIONS[12] == PermName(0, 15)
    ensures EDITOR_RESEARCH_PERMISSIONS[13] == PermName(1, 15)
  {
  }

  lemma ResearchTagUpdateDelete()
    ensures EDITOR_RESEARCH_PERMISSIONS[14] == PermName(2, 15)
    ensures EDITOR_RESEARCH_PERMISSIONS[15] == PermName(3, 15)
  {
  }

  lemma ResearchEntries()
    ensures forall j :: 0 <= j < |EDITOR_RESEARCH_PERMISSIONS| ==> ContentPermission(EDITOR_RESEARCH_PERMISSIONS[j])
  {
    ResearchCreateRead();
    ResearchUpdateDelete();
    ResearchTranslationCreateRead();
    ResearchTranslationUpdateDelete();
    ResearchAttachmentsCreateRead();
    ResearchAttachmentsUpdateDelete();
    ResearchTagCreateRead();
    ResearchTagUpdateDelete();
    forall j | 0 <= j < |EDITOR_RESEARCH_PERMISSIONS| ensures ContentPermission(EDITOR_RESEARCH_PERMISSIONS[j]) {
      if j == 0 { assert EDITOR_RESEARCH_PERMISSIONS[j] == PermName(0, 22);
      } else if j == 1 { assert EDITOR_RESEARCH_PERMISSIONS[j] == PermName(1, 22);
      } else if j == 2 { assert EDITOR_RESEARCH_PERMISSIONS[j] == PermName(2, 22);
      } else if j == 3 { assert EDITOR_RESEARCH_PERMISSIONS[j] == PermName(3, 22);
      } else if j == 4 { assert EDITOR_RESEARCH_PERMISSIONS[j] == PermName(0, 23);
      } else if j == 5 { assert EDITOR_RESEARCH_PERMISSIONS[j] == PermName(1, 23);
      } else if j == 6 { assert EDITOR_RESEARCH_PERMISSIONS[j] == PermName(2, 23);
      } else if j == 7 { assert EDITOR_RESEARCH_PERMISSIONS[j] == PermName(3, 23);
      } else if j == 8 { assert EDITOR_RESEARCH_PERMISSIONS[j] == PermName(0, 24);
      } else if j == 9 { assert EDITOR_RESEARCH_PERMISSIONS[j] == PermName(1, 24);
      } else if j == 10 { assert EDITOR_RESEARCH_PERMISSIONS[j] == PermName(2, 24);
      } else if j == 11 { assert EDITOR_RESEARCH_PERMISSIONS[j] == PermName(3, 24);
      } else if j == 12 { assert EDITOR_RESEARCH_PERMISSIONS[j] == PermName(0, 15);
      } else if j == 13 { assert EDITOR_RESEARCH_PERMISSIONS[j] == PermName(1, 15);
      } else if j == 14 { assert EDITOR_RESEARCH_PERMISSIONS[j] == PermName(2, 15);
      } else { assert EDITOR_RESEARCH_PERMISSIONS[j] == PermName(3, 15);
      }
    }
  }

  lemma CategoryCreateRead()
    ensures EDITOR_CATEGORY_PERMISSIONS[0] == PermName(0, 17)
    ensures EDITOR_CATEGORY_PERMISSIONS[1] == PermName(1, 17)
  {
  }

  lemma CategoryUpdateDelete()
    ensures EDITOR_CATEGORY_PERMISSIONS[2] == PermName(2, 17)
    ensures EDITOR_CATEGORY_PERMISSIONS[3] == PermName(3, 17)
  {
  }

  lemma CategoryTranslationCreateRead()
    ensures EDITOR_CATEGORY_PERMISSIONS[4] == PermName(0, 18)
    ensures EDITOR_CATEGORY_PERMISSIONS[5] == PermName(1, 18)
  {
  }

  lemma CategoryTranslationUpdateDelete()
    ensures EDITOR_CATEGORY_PERMISSIONS[6] == PermName(2, 18)
    ensures EDITOR_CATEGORY_PERMISSIONS[7] == PermName(3, 18)
  {
  }

  lemma CategoryEntries()
    ensures forall j :: 0 <= j < |EDITOR_CATEGORY_PERMISSIONS| ==> ContentPermission(EDITOR_CATEGORY_PERMISSIONS[j])
  {
    CategoryCreateRead();
    CategoryUpdateDelete();
    CategoryTranslationCreateRead();
    CategoryTranslationUpdateDelete();
    forall j | 0 <= j < |EDITOR_CATEGORY_PERMISSIONS| ensures ContentPermission(EDITOR_CATEGORY_PERMISSIONS[j]) {
      if j == 0 { assert EDITOR_CATEGORY_PERMISSIONS[j] == PermName(0, 17);
      } else if j == 1 { assert EDITOR_CATEGORY_PERMISSIONS[j] == PermName(1, 17);
      } else if j == 2 { assert EDITOR_CATEGORY_PERMISSIONS[j] == PermName(2, 17);
      } else if j == 3 { assert EDITOR_CATEGORY_PERMISSIONS[j] == PermName(3, 17);
      } else if j == 4 { assert EDITOR_CATEGORY_PERMISSIONS[j] == PermName(0, 18);
      } else if j == 5 { assert EDITOR_CATEGORY_PERMISSIONS[j] == PermName(1, 18);
      } else if j == 6 { assert EDITOR_CATEGORY_PERMISSIONS[j] == PermName(2, 18);
      } else { assert EDITOR_CATEGORY_PERMISSIONS[j] == PermName(3, 18);
      }
    }
  }

  lemma TagCreateRead()
    ensures EDITOR_TAG_PERMISSIONS[0] == PermName(0, 12)
    ensures EDITOR_TAG_PERMISSIONS[1] == PermName(1, 12)
  {
  }

  lemma TagUpdateDelete()
    ensures EDITOR_TAG_PERMISSIONS[2] == PermName(2, 12)
    ensures EDITOR_TAG_PERMISSIONS[3] == PermName(3, 12)
  {
  }

  lemma TagTranslationCreateRead()
    ensures EDITOR_TAG_PERMISSIONS[4] == PermName(0, 13)
    ensures EDITOR_TAG_PERMISSIONS[5] == PermName(1, 13)
  {
  }

  lemma TagTranslationUpdateDelete()
    ensures EDITOR_TAG_PERMISSIONS[6] == PermName(2, 13)
    ensures EDITOR_TAG_PERMISSIONS[7] == PermName(3, 13)
  {
  }

  lemma TagEntries()
    ensures forall j :: 0 <= j < |EDITOR_TAG_PERMISSIONS| ==> ContentPermission(EDITOR_TAG_PERMISSIONS[j])
  {
    TagCreateRead();
    TagUpdateDelete();
    TagTranslationCreateRead();
    TagTranslationUpdateDelete();
    forall j | 0 <= j < |EDITOR_TAG_PERMISSIONS| ensures ContentPermission(EDITOR_TAG_PERMISSIONS[j]) {
      if j == 0 { assert EDITOR_TAG_PERMISSIONS[j] == PermName(0, 12);
      } else if j == 1 { assert EDITOR_TAG_PERMISSIONS[j] == PermName(1, 12);
      } else if j == 2 { assert EDITOR_TAG_PERMISSIONS[j] == PermName(2, 12);
      } else if j == 3 { assert EDITOR_TAG_PERMISSIONS[j] == PermName(3, 12);
      } else if j == 4 { assert EDITOR_TAG_PERMISSIONS[j] == PermName(0, 13);
      } else if j == 5 { assert EDITOR_TAG_PERMISSIONS[j] == PermName(1, 13);
      } else if j == 6 { assert EDITOR_TAG_PERMISSIONS[j] == PermName(2, 13);
      } else { assert EDITOR_TAG_PERMISSIONS[j] == PermName(3, 13);
      }
    }
  }

  lemma AttachmentsCreateRead()
    ensures EDITOR_ATTACHMENT_PERMISSIONS[0] == PermName(0, 11)
    ensures EDITOR_ATTACHMENT_PERMISSIONS[1] == PermName(1, 11)
  {
  }

  lemma AttachmentsUpdateDelete()
    ensures EDITOR_ATTACHMENT_PERMISSIONS[2] == PermName(2, 11)
    ensures EDITOR_ATTACHMENT_PERMISSIONS[3] == PermName(3, 11)
  {
  }

  lemma AttachmentEntries()
    ensures forall j :: 0 <= j < |EDITOR_ATTACHMENT_PERMISSIONS| ==> ContentPermission(EDITOR_ATTACHMENT_PERMISSIONS[j])
  {
    AttachmentsCreateRead();
    AttachmentsUpdateDelete();
    forall j | 0 <= j < |EDITOR_ATTACHMENT_PERMISSIONS| ensures ContentPermission(EDITOR_ATTACHMENT_PERMISSIONS[j]) {
      if j == 0 { assert EDITOR_ATTACHMENT_PERMISSIONS[j] == PermName(0, 11);
      } else if j == 1 { assert EDITOR_ATTACHMENT_PERMISSIONS[j] == PermName(1, 11);
      } else if j == 2 { assert EDITOR_ATTACHMENT_PERMISSIONS[j] == PermName(2, 11);
      } else { assert EDITOR_ATTACHMENT_PERMISSIONS[j] == PermName(3, 11);
      }
    }
  }

  lemma LanguageLine()
    ensures EDITOR_LANGUAGE_PERMISSIONS[0] == PermName(1, 10)
  {
  }

  lemma LanguageEntries()
    ensures forall j :: 0 <= j < |EDITOR_LANGUAGE_PERMISSIONS| ==> ContentPermission(EDITOR_LANGUAGE_PERMISSIONS[j])
  {
    LanguageLine();
    forall j | 0 <= j < |EDITOR_LANGUAGE_PERMISSIONS| ensures ContentPermission(EDITOR_LANGUAGE_PERMISSIONS[j]) {
      assert EDITOR_LANGUAGE_PERMISSIONS[j] == PermName(1, 10);
    }
  }

  /** The EDITOR list: content permissions only, every one in the catalogue. */
  lemma EditorEntries()
    ensures |EDITOR_PERMISSIONS| == 69
    ensures forall j :: 0 <= j < |EDITOR_PERMISSIONS| ==> ContentPermission(EDITOR_PERMISSIONS[j])
  {
    ArticleEntries(); BookEntries(); ResearchEntries(); CategoryEntries();
    TagEntries(); AttachmentEntries(); LanguageEntries();
    var a, b, r, c := EDITOR_ARTICLE_PERMISSIONS, EDITOR_BOOK_PERMISSIONS, EDITOR_RESEARCH_PERMISSIONS, EDITOR_CATEGORY_PERMISSIONS;
    ConcatContent(a, b);
    ConcatContent(a + b, r);
    ConcatContent(a + b + r, c);
    ConcatContent(a + b + r + c, EDITOR_TAG_PERMISSIONS);
    ConcatContent(a + b + r + c + EDITOR_TAG_PERMISSIONS, EDITOR_ATTACHMENT_PERMISSIONS);
    ConcatContent(a + b + r + c + EDITOR_TAG_PERMISSIONS + EDITOR_ATTACHMENT_PERMISSIONS, EDITOR_LANGUAGE_PERMISSIONS);
  }

  lemma ConcatContent(xs: seq<string>, ys: seq<string>)
    requires forall j :: 0 <= j < |xs| ==> ContentPermission(xs[j])
    requires forall j :: 0 <= j < |ys| ==> ContentPermission(ys[j])
    ensures forall j :: 0 <= j < |xs + ys| ==> ContentPermission((xs + ys)[j])
  {
    forall j | 0 <= j < |xs + ys| ensures ContentPermission((xs + ys)[j]) {
      if j < |xs| {
        assert (xs + ys)[j] == xs[j];
      } else {
        assert (xs + ys)[j] == ys[j - |xs|];
      }
    }
  }

  /** Every EDITOR entry is one of the generated names, and none names an auth or ACL model
      (USER, ACTIVITYLOG, ROLE, PERMISSION, USERROLE, GROUP, GROUPMEMBER, ROLEPERMISSION,
      GROUPPERMISSION, REFRESHTOKEN). */
  lemma EditorWithinCatalogue(j: int)
    requires 0 <= j < |EDITOR_PERMISSIONS|
    ensures exists k :: 0 <= k < CATALOGUE_SIZE && EDITOR_PERMISSIONS[j] == NameAt(k)
    ensures forall k :: 0 <= k < 4 * AUTH_MODELS ==> EDITOR_PERMISSIONS[j] != NameAt(k)
  {
    EditorEntries();
    var n := EDITOR_PERMISSIONS[j];
    assert ContentPermission(n);
    ContentPermissionPosition(n);
  }

  /** A content permission is generated after every auth and ACL permission. */
  lemma ContentPermissionPosition(n: string)
    requires ContentPermission(n)
    ensures exists k :: 0 <= k < CATALOGUE_SIZE && n == NameAt(k)
    ensures forall k :: 0 <= k < 4 * AUTH_MODELS ==> n != NameAt(k)
  {
    var a, m :| 0 <= a < |ACTIONS| && AUTH_MODELS <= m < |MODELS| && n == PermName(a, m);
    NameAtPosition(m, a);
    forall k | 0 <= k < 4 * AUTH_MODELS ensures n != NameAt(k) {
      if n == NameAt(k) {
        PermNameInjective(k % 4, k / 4, a, m);
      }
    }
  }
}
