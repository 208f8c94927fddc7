/**
 * `generateSlug`, identical in the articles, books, research, categories and
 * tags services: lower-case the text, drop every character outside
 * a-z, 0-9, the Arabic block U+0600-U+06FF, whitespace and '-', turn each
 * run of whitespace into one '-', and trim.
 */
module Slugs {
  import Lists

  /** The characters JavaScript's `\s` and `String.prototype.trim` treat as white space. */
  predicate IsSpace(c: char) {
    c == ' ' || c == '\t' || c == '\n' || c == '\U{000B}' || c == '\U{000C}' || c == '\r' ||
    c == '\U{00A0}' || c == '\U{1680}' || ('\U{2000}' <= c <= '\U{200A}') ||
    c == '\U{2028}' || c == '\U{2029}' || c == '\U{202F}' || c == '\U{205F}' || c == '\U{3000}' || c == '\U{FEFF}'
  }

  predicate IsArabic(c: char) {
    '\U{0600}' <= c <= '\U{06FF}'
  }

  /** The characters a generated slug is made of. */
  predicate IsSlugChar(c: char) {
    ('a' <= c <= 'z') || ('0' <= c <= '9') || IsArabic(c) || c == '-'
  }

  predicate AllSlugChars(s: string) {
    forall i :: 0 <= i < |s| ==> IsSlugChar(s[i])
  }

  predicate NoSpace(s: string) {
    forall i :: 0 <= i < |s| ==> !IsSpace(s[i])
  }

  /** `toLowerCase` on one character (ASCII letters only). */
  function LowerChar(c: char): char {
    if 'A' <= c <= 'Z' then (c as int + 32) as char else c
  }

  function ToLower(s: string): (r: string)
    ensures |r| == |s|
    ensures forall i :: 0 <= i < |s| ==> r[i] == LowerChar(s[i])
  {
    seq(|s|, i requires 0 <= i < |s| => LowerChar(s[i]))
  }

  /** A character the first `replace` keeps: a slug character or white space. */
  predicate Kept(c: char) {
    IsSlugChar(c) || IsSpace(c)
  }

  /** `.replace(/[^a-z0-9\u0600-\u06FF\s-]/g, '')`. */
  function DropDisallowed(s: string): (r: string)
    ensures |r| <= |s|
    ensures forall i :: 0 <= i < |r| ==> Kept(r[i])
    ensures (forall i :: 0 <= i < |s| ==> Kept(s[i])) ==> r == s
  {
    if s == [] then []
    else if Kept(s[0]) then [s[0]] + DropDisallowed(s[1..])
    else DropDisallowed(s[1..])
  }

  /** The characters are dropped one by one: the text split anywhere loses
      the same characters on each side. */
  lemma {:induction false} DropDisallowedAppend(a: string, b: string)
    ensures DropDisallowed(a + b) == DropDisallowed(a) + DropDisallowed(b)
  {
    if a == [] {
      assert a + b == b;
    } else {
      assert (a + b)[0] == a[0];
      assert (a + b)[1..] == a[1..] + b;
      DropDisallowedAppend(a[1..], b);
    }
  }

  /** Exactly the kept characters remain, in their order: the `replace` is
      the filter of the text by `Kept`. */
  lemma {:induction false} DropDisallowedIsFilter(s: string)
    ensures DropDisallowed(s) == Lists.Filter(s, Kept)
  {
    if s != [] {
      DropDisallowedIsFilter(s[1..]);
    }
  }

  /** The text after the white space at its start. */
  function DropLeadingSpaces(s: string): (r: string)
    ensures |r| <= |s|
    ensures s != [] && IsSpace(s[0]) ==> |r| < |s|
    ensures r == [] || !IsSpace(r[0])
    ensures r == s[|s| - |r|..]
  {
    if s != [] && IsSpace(s[0]) then DropLeadingSpaces(s[1..]) else s
  }

  /** `.replace(/\s+/g, '-')`. */
  function CollapseSpaces(s: string): (r: string)
    ensures NoSpace(s) ==> r == s
    ensures forall i :: 0 <= i < |r| ==> !IsSpace(r[i]) && (r[i] == '-' || r[i] in s)
    decreases |s|
  {
    if s == [] then []
    else if IsSpace(s[0]) then "-" + CollapseSpaces(DropLeadingSpaces(s))
    else [s[0]] + CollapseSpaces(s[1..])
  }

  /** A run of white space followed by a non-space (or the end) becomes one '-'. */
  lemma {:induction false} CollapseRun(run: string, rest: string)
    requires run != [] && forall i :: 0 <= i < |run| ==> IsSpace(run[i])
    requires rest == [] || !IsSpace(rest[0])
    ensures CollapseSpaces(run + rest) == "-" + CollapseSpaces(rest)
  {
    DropRun(run, rest);
  }

  lemma {:induction false} DropRun(run: string, rest: string)
    requires forall i :: 0 <= i < |run| ==> IsSpace(run[i])
    requires rest == [] || !IsSpace(rest[0])
    ensures DropLeadingSpaces(run + rest) == rest
  {
    if run != [] {
      assert (run + rest)[1..] == run[1..] + rest;
      DropRun(run[1..], rest);
    }
  }

  /** Any other character is copied. */
  lemma CollapseKeeps(c: char, rest: string)
    requires !IsSpace(c)
    ensures CollapseSpaces([c] + rest) == [c] + CollapseSpaces(rest)
  {
    assert ([c] + rest)[1..] == rest;
  }

  function TrimStart(s: string): string {
    DropLeadingSpaces(s)
  }

  function TrimEnd(s: string): (r: string)
    ensures |r| <= |s|
  {
    if s != [] && IsSpace(s[|s| - 1]) then TrimEnd(s[..|s| - 1]) else s
  }

  /** `String.prototype.trim`. */
  function Trim(s: string): string {
    TrimEnd(TrimStart(s))
  }

  /** Trimming text that has no white space changes nothing. */
  lemma TrimNoSpace(s: string)
    requires NoSpace(s)
    ensures Trim(s) == s
  {
  }

  /** `generateSlug(title)`. */
  function GenerateSlug(title: string): (r: string)
    ensures AllSlugChars(r)
  {
    Trim(CollapseSpaces(DropDisallowed(ToLower(title))))
  }

  /** The final trim never changes anything: after the collapse no white space is left. */
  lemma TrimIsRedundant(title: string)
    ensures GenerateSlug(title) == CollapseSpaces(DropDisallowed(ToLower(title)))
  {
    TrimNoSpace(CollapseSpaces(DropDisallowed(ToLower(title))));
  }

  lemma {:induction false} ToLowerSlug(s: string)
    requires AllSlugChars(s)
    ensures ToLower(s) == s
  {
    if s != [] {
      ToLowerSlug(s[1..]);
    }
  }

  /** A slug is its own slug: generating twice equals generating once. */
  lemma GenerateSlugIdempotent(title: string)
    ensures GenerateSlug(GenerateSlug(title)) == GenerateSlug(title)
  {
    var s := GenerateSlug(title);
    ToLowerSlug(s);
    assert DropDisallowed(s) == s by {
      assert forall i :: 0 <= i < |s| ==> Kept(s[i]);
    }
    assert NoSpace(s);
    TrimNoSpace(s);
  }
}
