/**
 * The class-name inference and the spec template of src/fileCreator.ts.
 * The two unanchored patterns of `inferClassName` are matched as the
 * JavaScript engine matches them: start positions are tried from the left
 * and the first one at which the pattern matches wins. `toUpperCase` is
 * modelled on the ASCII letters only.
 */
module FileCreator {
  import opened Text
  import opened PathResolver

  /** The alternation `(app|lib|spec)` both patterns use, in its order. */
  const TopDirectories: seq<string> := ["app", "lib", "spec"]

  /** The optional category group of the standard pattern, in the order of its alternation. */
  const CategoryWords: seq<string> :=
    ["models", "controllers", "services", "lib", "workers", "jobs", "mailers", "helpers", "concerns"]

  /** `(app|lib|spec)\/` at index `i`: the alternative followed by a slash there. */
  function TopDirAt(s: string, i: nat): (d: Option<string>)
    ensures d.Some? ==> d.value in TopDirectories && At(s, i, d.value + "/")
    ensures d.None? ==> forall e | e in TopDirectories :: !At(s, i, e + "/")
  {
    if At(s, i, "app/") then Some("app")
    else if At(s, i, "lib/") then Some("lib")
    else if At(s, i, "spec/") then Some("spec")
    else None
  }

  /** `(.+)$` from index `k` of `t`: a non-empty rest with no line terminator, up to the end. */
  predicate RestMatches(t: string, k: nat)
  {
    k < |t| && NoLineBreak(t[k..])
  }

  // ---------------------------------------------------------------------
  // The pack pattern `packs\/[^/]+\/(app|lib|spec)\/(.+)$`

  /** The literal `packs\/` of the pack pattern at index `i`. */
  predicate PacksAt(s: string, i: nat)
  {
    At(s, i, "packs/")
  }

  /**
   * The pack pattern tried at index `i`: its second group, if it matches
   * there. `[^/]+` can only end at the first slash after `packs/` (a shorter
   * run is followed by another non-slash character), so the name is that
   * whole run and must be non-empty.
   */
  function PackRelativeAt(s: string, i: nat): (r: Option<string>)
    ensures r.Some? ==> r.value != "" && NoLineBreak(r.value) && EndsWith(s, r.value)
  {
    if !PacksAt(s, i) then None
    else match IndexOf(s[i + 6..], '/')
      case None => None
      case Some(k) =>
        if k == 0 then None else TopDirRest(s, i + 7 + k)
  }

  /** `(app|lib|spec)\/(.+)$` from index `m`: the rest after the top directory, if it matches there. */
  function TopDirRest(s: string, m: nat): (r: Option<string>)
    ensures r.Some? ==> r.value != "" && NoLineBreak(r.value) && EndsWith(s, r.value)
  {
    match TopDirAt(s, m)
      case None => None
      case Some(d) =>
        var start := m + |d| + 1;
        if RestMatches(s, start) then Some(s[start..]) else None
  }

  /** Where the engine finds the pack pattern: the leftmost index at which it matches. */
  function PackMatchStart(s: string): (r: Option<nat>)
    ensures r.Some? ==> r.value <= |s| && PackRelativeAt(s, r.value).Some?
    ensures r.Some? ==> forall j: nat | j < r.value :: PackRelativeAt(s, j).None?
    ensures r.None? ==> forall j: nat | j <= |s| :: PackRelativeAt(s, j).None?
  {
    var f := (j: nat) => PackRelativeAt(s, j).Some?;
    assert forall j: nat :: f(j) <==> PackRelativeAt(s, j).Some?;
    FirstWhere(f, 0, |s|)
  }

  // ---------------------------------------------------------------------
  // The standard pattern
  // `(?:app|lib|spec)\/(?:models|...|concerns)?\/?(.+)$`

  /** The first of `words` that `t` starts with, as an alternation tries them. */
  function FirstWordAt(t: string, words: seq<string>): (r: Option<string>)
    ensures r.Some? ==> r.value in words && StartsWith(t, r.value)
    ensures r.None? ==> forall w | w in words :: !StartsWith(t, w)
  {
    if words == [] then None
    else if StartsWith(t, words[0]) then Some(words[0])
    else FirstWordAt(t, words[1..])
  }

  /**
   * The indexes of `t` (the text after `(app|lib|spec)\/`) at which `(.+)`
   * can start, in the order the engine tries them: the greedy optional
   * category word first, taken with and then without the optional slash,
   * and then the word left out, again with and then without the slash.
   */
  function TailStarts(t: string): seq<nat>
  {
    (match FirstWordAt(t, CategoryWords)
     case Some(c) => (if At(t, |c|, "/") then [|c| + 1] else []) + [|c|]
     case None => [])
    + (if StartsWith(t, "/") then [1] else []) + [0]
  }

  /** What `(.+)$` captures from the first of `starts` at which it matches. */
  function FirstRest(t: string, starts: seq<nat>): (r: Option<string>)
    ensures r.Some? ==> r.value != "" && NoLineBreak(r.value) && EndsWith(t, r.value)
    ensures r.None? ==> forall k | k in starts :: !RestMatches(t, k)
  {
    if starts == [] then None
    else if RestMatches(t, starts[0]) then Some(t[starts[0]..])
    else FirstRest(t, starts[1..])
  }

  /** The group of the standard pattern, given the text after `(app|lib|spec)\/`. */
  function StandardRest(t: string): (r: Option<string>)
    ensures t != "" && NoLineBreak(t) ==> r.Some?
    ensures r.Some? ==> r.value != "" && NoLineBreak(r.value) && EndsWith(t, r.value)
  {
    assert 0 in TailStarts(t);
    FirstRest(t, TailStarts(t))
  }

  /** The standard pattern tried at index `i`. */
  function StandardRelativeAt(s: string, i: nat): Option<string>
  {
    match TopDirAt(s, i)
    case None => None
    case Some(d) => StandardRest(s[i + |d| + 1..])
  }

  /** Where the engine finds the standard pattern: the leftmost index at which it matches. */
  function StandardMatchStart(s: string): (r: Option<nat>)
    ensures r.Some? ==> r.value <= |s| && StandardRelativeAt(s, r.value).Some?
    ensures r.Some? ==> forall j: nat | j < r.value :: StandardRelativeAt(s, j).None?
    ensures r.None? ==> forall j: nat | j <= |s| :: StandardRelativeAt(s, j).None?
  {
    var f := (j: nat) => StandardRelativeAt(s, j).Some?;
    assert forall j: nat :: f(j) <==> StandardRelativeAt(s, j).Some?;
    FirstWhere(f, 0, |s|)
  }

  /**
   * The relative path the class name is built from: the pack pattern's
   * group if it matches, else the standard pattern's, else the whole path.
   */
  function RelativeName(clean: string): (r: string)
    ensures EndsWith(clean, r)
  {
    match PackMatchStart(clean)
    case Some(i) => PackRelativeAt(clean, i).value
    case None =>
      match StandardMatchStart(clean)
      case Some(i) =>
        var t := clean[i + |TopDirAt(clean, i).value| + 1..];
        assert EndsWith(clean, t);
        StandardRelativeAt(clean, i).value
      case None => clean
  }

  /** `relativePath.replace(/\.rb$/, '')` */
  function StripRb(r: string): string
  {
    if EndsWith(r, ".rb") then r[..|r| - 3] else r
  }

  // ---------------------------------------------------------------------
  // Snake case to Ruby constant names

  /** `toUpperCase` on one character, for the ASCII letters. */
  function ToUpper(c: char): char
  {
    if 'a' <= c <= 'z' then (c as int - 32) as char else c
  }

  /** `word.charAt(0).toUpperCase() + word.slice(1)` */
  function Capitalize(w: string): string
  {
    if w == [] then [] else [ToUpper(w[0])] + w[1..]
  }

  /** `words.map(capitalize)` */
  function CapitalizeAll(words: seq<string>): (r: seq<string>)
    ensures |r| == |words|
  {
    if words == [] then [] else [Capitalize(words[0])] + CapitalizeAll(words[1..])
  }

  /** `part.split('_').map(capitalize).join('')`: a snake-case segment in PascalCase. */
  function Camelize(part: string): string
  {
    Join(CapitalizeAll(Split(part, '_')), "")
  }

  /** `parts.map(camelize)` */
  function CamelizeAll(parts: seq<string>): (r: seq<string>)
    ensures |r| == |parts|
  {
    if parts == [] then [] else [Camelize(parts[0])] + CamelizeAll(parts[1..])
  }

  /** A relative path as a Ruby constant: its segments camelized and joined with `::`. */
  function ClassName(rel: string): string
  {
    Join(CamelizeAll(Split(rel, '/')), "::")
  }

  /** `inferClassName` */
  function InferClassName(p: string): string
  {
    var clean := RemoveSpecSuffix(Normalize(p));
    ClassName(StripRb(RelativeName(clean)))
  }

  // ---------------------------------------------------------------------
  // The spec template

  /** The template up to the class name. */
  const SpecHeader: string := "# frozen_string_literal: true\n\nrequire 'rails_helper'\n\nRSpec.describe "

  /** The template after the class name. */
  const SpecFooter: string := " do\n  pending 'add some examples to (or delete) #{__FILE__}'\nend\n"

  /** `generateSpecContent` */
  function GenerateSpecContent(implPath: string): string
  {
    SpecHeader + InferClassName(implPath) + SpecFooter
  }
}
