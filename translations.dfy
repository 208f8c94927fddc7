/**
 * `getTranslation`, identical in the articles, books, research, categories
 * and tags services: pick the translation in the requested language, else
 * the default one, else the first one.
 */
module Translations {
  import opened Errors
  import opened Lists

  /** One row of a `*Translation` table; `content` holds the per-entity text fields. */
  datatype Translation<C> = Translation(languageCode: string, isDefault: bool, content: C)

  function IsDefault<C>(t: Translation<C>): bool { t.isDefault }

  function InLanguage<C>(lang: string): Translation<C> -> bool {
    (t: Translation<C>) => t.languageCode == lang
  }

  /** `translations[0]`, undefined for an empty list. */
  function First<T>(xs: seq<T>): Option<T> {
    if xs == [] then None else Some(xs[0])
  }

  function OrElse<T>(a: Option<T>, b: Option<T>): Option<T> {
    if a.Some? then a else b
  }

  /** `getTranslation(translations, lang?)`. A missing or empty `lang` skips the language step. */
  function GetTranslation<C>(ts: seq<Translation<C>>, lang: Option<string>): (r: Option<Translation<C>>)
    ensures r.None? <==> ts == []
    ensures r.Some? ==> r.value in ts
  {
    if lang.None? || lang.value == "" then
      OrElse(Find(ts, IsDefault), First(ts))
    else
      OrElse(Find(ts, InLanguage(lang.value)), OrElse(Find(ts, IsDefault), First(ts)))
  }

  /** How well a translation answers a request: its language (2), being the default (1), anything (0). */
  function Rank<C>(t: Translation<C>, lang: Option<string>): nat {
    if lang.Some? && lang.value != "" && t.languageCode == lang.value then 2
    else if t.isDefault then 1
    else 0
  }

  /** Position i holds the first translation of the highest rank. */
  ghost predicate IsFirstBest<C>(ts: seq<Translation<C>>, lang: Option<string>, i: int) {
    && 0 <= i < |ts|
    && (forall j :: 0 <= j < |ts| ==> Rank(ts[j], lang) <= Rank(ts[i], lang))
    && (forall j :: 0 <= j < i ==> Rank(ts[j], lang) < Rank(ts[i], lang))
  }

  /** The fallback chain picks the first translation of the highest rank. */
  lemma GetTranslationIsFirstBest<C>(ts: seq<Translation<C>>, lang: Option<string>)
    requires ts != []
    ensures exists i :: IsFirstBest(ts, lang, i) && GetTranslation(ts, lang) == Some(ts[i])
  {
    var byLang := if lang.Some? && lang.value != "" then FirstIndex(ts, InLanguage(lang.value)) else None;
    var byDefault := FirstIndex(ts, IsDefault);
    if byLang.Some? {
      var i := byLang.value;
      assert IsFirstBest(ts, lang, i);
    } else if byDefault.Some? {
      var i := byDefault.value;
      assert forall j :: 0 <= j < |ts| ==> Rank(ts[j], lang) <= 1 by {
        if lang.Some? && lang.value != "" {
          assert forall j :: 0 <= j < |ts| ==> !InLanguage<C>(lang.value)(ts[j]);
        }
      }
      assert IsFirstBest(ts, lang, i);
    } else {
      assert forall j :: 0 <= j < |ts| ==> Rank(ts[j], lang) == 0 by {
        if lang.Some? && lang.value != "" {
          assert forall j :: 0 <= j < |ts| ==> !InLanguage<C>(lang.value)(ts[j]);
        }
      }
      assert IsFirstBest(ts, lang, 0);
    }
  }

  /** The requested language wins whenever one translation has it. */
  lemma RequestedLanguageWins<C>(ts: seq<Translation<C>>, lang: string, k: int)
    requires lang != "" && 0 <= k < |ts| && ts[k].languageCode == lang
    ensures GetTranslation(ts, Some(lang)).value.languageCode == lang
  {
    assert InLanguage<C>(lang)(ts[k]);
  }
}
