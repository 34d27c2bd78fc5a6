/**
 * The spec/implementation path resolver of a Rails project with packwerk
 * packs (src/pathResolver.ts). Every operation is a total function on
 * strings; each regular expression of the source is a dedicated matcher
 * built from the searches in module Text, with the source's greedy
 * (last position) or leftmost semantics.
 */
module PathResolver {
  import opened Text
  import opened Types

  /** `filePath.replace(/\\/g, '/')`: every backslash becomes a slash. */
  function Normalize(p: string): (n: string)
    ensures |n| == |p|
    ensures '\\' !in n
    ensures forall i | 0 <= i < |p| && p[i] != '\\' :: n[i] == p[i]
    ensures forall i | 0 <= i < |p| && p[i] == '\\' :: n[i] == '/'
  {
    if p == [] then []
    else [if p[0] == '\\' then '/' else p[0]] + Normalize(p[1..])
  }

  // ---------------------------------------------------------------------
  // Classifiers

  /** A file is a spec when it ends with `_spec.rb` or has a `spec` segment. */
  predicate IsSpecFile(p: string)
  {
    var n := Normalize(p);
    EndsWith(n, "_spec.rb") || "spec" in Split(n, '/')
  }

  /** `/\/packs\/[^/]+\//` matches at `i`: a non-empty, slash-free name follows, then a slash. */
  predicate InteriorPackAt(n: string, i: nat)
  {
    At(n, i, "/packs/") && i + 7 < |n| && n[i + 7] != '/' && '/' in n[i + 8..]
  }

  /** A file is in a pack when `/packs/<name>/` occurs anywhere or the path starts with `packs/`. */
  predicate IsPackFile(p: string)
  {
    var n := Normalize(p);
    (exists i: nat | i <= |n| :: InteriorPackAt(n, i)) || StartsWith(n, "packs/")
  }

  // ---------------------------------------------------------------------
  // The pack pattern `^(.*\/)?packs\/([^/]+)\/(.+)$`

  /**
   * The optional group `(.*\/)?` can end at `j`: it is skipped (`j == 0`),
   * or it spans `n[..j]`, which ends with a slash and has no line terminator.
   */
  predicate DirPrefixEndsAt(n: string, j: nat)
  {
    j <= |n| && (j == 0 || (n[j - 1] == '/' && NoLineBreak(n[..j])))
  }

  /**
   * The pack pattern with its first group ending at `j`. `[^/]+` takes the
   * whole run of non-slash characters after `packs/` (a shorter run would
   * not be followed by a slash), and `(.+)$` the rest, which must be
   * non-empty and free of line terminators.
   */
  function PackAt(n: string, j: nat): Option<PackInfo>
  {
    if DirPrefixEndsAt(n, j) && At(n, j, "packs/") then
      match IndexOf(n[j + 6..], '/')
      case None => None
      case Some(k) =>
        var name, rest := n[j + 6..j + 6 + k], n[j + 7 + k..];
        if name != "" && rest != "" && NoLineBreak(rest) then Some(PackInfo(name, rest)) else None
    else None
  }

  /**
   * Where the first group of the pack pattern ends in the match the engine
   * reports: the greedy `.*` backtracks from the right, so the largest `j`
   * at which the rest of the pattern matches.
   */
  function PackMatchEnd(n: string): (r: Option<nat>)
    ensures r.Some? ==> r.value <= |n| && PackAt(n, r.value).Some?
    ensures r.Some? ==> forall j: nat | r.value < j <= |n| :: PackAt(n, j).None?
    ensures r.None? ==> forall j: nat | j <= |n| :: PackAt(n, j).None?
  {
    var f := (j: nat) => PackAt(n, j).Some?;
    assert forall j: nat :: f(j) <==> PackAt(n, j).Some?;
    LastWhere(f, |n|)
  }

  /** `extractPackInfo`: the pack name and the path inside the pack, if the pack pattern matches. */
  function ExtractPackInfo(p: string): Option<PackInfo>
  {
    var n := Normalize(p);
    match PackMatchEnd(n)
    case None => None
    case Some(j) => PackAt(n, j)
  }

  /** `^(.*\/)?packs\/` matches with its group ending at `j`. */
  predicate PacksDirAt(n: string, j: nat)
  {
    DirPrefixEndsAt(n, j) && At(n, j, "packs/")
  }

  /**
   * The text before `packs/` that the pack resolvers put back in front
   * (`prefixMatch[1] || ''`): the group of `^(.*\/)?packs\/`, ending at the
   * last `packs/` it can reach, or empty when it does not match.
   */
  function PackPrefix(n: string): (prefix: string)
    ensures prefix == "" || (EndsWith(prefix, "/") && NoLineBreak(prefix))
    ensures prefix != "" ==> At(n, |prefix|, "packs/") && n[..|prefix|] == prefix
    ensures forall j: nat | |prefix| < j <= |n| :: !PacksDirAt(n, j)
  {
    var f := (j: nat) => PacksDirAt(n, j);
    assert forall j: nat :: f(j) <==> PacksDirAt(n, j);
    match LastWhere(f, |n|)
    case None => ""
    case Some(j) => n[..j]
  }

  // ---------------------------------------------------------------------
  // Suffix helpers

  /** `insertSpecSuffix`: `x.rb` becomes `x_spec.rb` unless it already ends with `_spec.rb`. */
  function InsertSpecSuffix(s: string): string
  {
    if EndsWith(s, "_spec.rb") then s
    else if EndsWith(s, ".rb") then s[..|s| - 3] + "_spec.rb"
    else s
  }

  /** `removeSpecSuffix`: a trailing `_spec.rb` becomes `.rb`. */
  function RemoveSpecSuffix(s: string): string
  {
    if EndsWith(s, "_spec.rb") then s[..|s| - 8] + ".rb" else s
  }

  // ---------------------------------------------------------------------
  // Directory rewrites

  /** `n.includes('/d/') || n.startsWith('d/')`: `d` names a directory of `n`. */
  predicate HasDir(n: string, d: string)
  {
    Contains(n, "/" + d + "/") || StartsWith(n, d + "/")
  }

  /**
   * `s.replace(/^(.*)\/dir\//, '$1/repl/')`: the last `/dir/` with no line
   * terminator before it becomes `/repl/`; no such occurrence, no change.
   */
  function ReplaceLastDir(s: string, dir: string, repl: string): string
  {
    var pat := "/" + dir + "/";
    match GreedyPrefixEnd(s, pat)
    case None => s
    case Some(i) => s[..i] + "/" + repl + "/" + s[i + |pat|..]
  }

  /** `s.replace(/^dir\//, 'repl/')`: a leading `dir/` becomes `repl/`. */
  function ReplaceLeadingDir(s: string, dir: string, repl: string): string
  {
    if StartsWith(s, dir + "/") then repl + "/" + s[|dir| + 1..] else s
  }

  // ---------------------------------------------------------------------
  // Implementation to spec

  /** `resolveStandardSpecPath` */
  function ResolveStandardSpecPath(n: string): string
  {
    var moved :=
      if HasDir(n, "app") then
        ReplaceLeadingDir(ReplaceLastDir(n, "app", "spec"), "app", "spec")
      else if HasDir(n, "lib") then
        ReplaceLeadingDir(ReplaceLastDir(n, "lib", "spec"), "lib", "spec")
      else if !HasDir(n, "spec") then
        match LastIndexOf(n, '/')
        case Some(k) => n[..k] + "/spec" + n[k..]
        case None => "spec/" + n
      else n;
    InsertSpecSuffix(moved)
  }

  /** The relative part of a pack implementation path, moved under `spec/`. */
  function SpecRelativePath(rel: string): string
  {
    if StartsWith(rel, "app/") then ReplaceLeadingDir(rel, "app", "spec")
    else if !StartsWith(rel, "spec/") then "spec/" + rel
    else rel
  }

  /** The spec path inside the pack: `<prefix>packs/<name>/` and the relative part moved under `spec/`. */
  function PackSpecTarget(prefix: string, info: PackInfo): string
  {
    prefix + "packs/" + info.packName + "/" + InsertSpecSuffix(SpecRelativePath(info.relativePath))
  }

  /** `resolvePackSpecPath`, falling back to the standard resolver when the pack pattern does not match. */
  function ResolvePackSpecPath(n: string): string
  {
    match ExtractPackInfo(n)
    case None => ResolveStandardSpecPath(n)
    case Some(info) => PackSpecTarget(PackPrefix(n), info)
  }

  /** `resolveSpecPath` */
  function ResolveSpecPath(p: string): string
  {
    var n := Normalize(p);
    if IsPackFile(n) then ResolvePackSpecPath(n) else ResolveStandardSpecPath(n)
  }

  // ---------------------------------------------------------------------
  // Spec to implementation

  /** `RAILS_APP_DIRECTORIES`: first directories under `spec/` that belong under `app/`. */
  const RailsAppDirectories: seq<string> := [
    "models", "controllers", "services", "helpers", "mailers", "jobs",
    "workers", "concerns", "views", "channels", "components", "decorators",
    "policies", "serializers", "uploaders", "validators", "lib"
  ]

  /**
   * `^(.*)\/spec\/(.*)$`, or else `^spec\/(.*)$`: the text before and the
   * text after the spec directory (the prefix is empty for the second
   * pattern). The first pattern splits at the last `/spec/` with no line
   * terminator before it; if the text after that one holds a line
   * terminator, so does the text after every earlier one and after a
   * leading `spec/`, and neither pattern matches.
   */
  function SpecSplit(n: string): Option<(string, string)>
  {
    match GreedyPrefixEnd(n, "/spec/")
    case Some(i) => if NoLineBreak(n[i + 6..]) then Some((n[..i], n[i + 6..])) else None
    case None => if StartsWith(n, "spec/") && NoLineBreak(n[5..]) then Some(("", n[5..])) else None
  }

  /** The directory a spec's relative path maps back to: `app/` for a Rails app directory, `lib/` otherwise. */
  function ImplementationBase(rel: string): string
  {
    if Split(rel, '/')[0] in RailsAppDirectories then "app/" else "lib/"
  }

  /** `resolveStandardImplementationPath` */
  function ResolveStandardImplementationPath(n: string): string
  {
    var moved :=
      if HasDir(n, "spec") then
        match SpecSplit(n)
        case None => n
        case Some((prefix, rel)) =>
          if prefix != "" then prefix + "/" + ImplementationBase(rel) + rel else ImplementationBase(rel) + rel
      else n;
    RemoveSpecSuffix(moved)
  }

  /** The implementation path inside the pack: a leading `spec/` of the relative part becomes `app/`. */
  function PackImplementationTarget(prefix: string, info: PackInfo): string
  {
    prefix + "packs/" + info.packName + "/" + RemoveSpecSuffix(ReplaceLeadingDir(info.relativePath, "spec", "app"))
  }

  /** `resolvePackImplementationPath`, falling back to the standard resolver when the pack pattern does not match. */
  function ResolvePackImplementationPath(n: string): string
  {
    match ExtractPackInfo(n)
    case None => ResolveStandardImplementationPath(n)
    case Some(info) => PackImplementationTarget(PackPrefix(n), info)
  }

  /** `resolveImplementationPath` */
  function ResolveImplementationPath(p: string): string
  {
    var n := Normalize(p);
    if IsPackFile(n) then ResolvePackImplementationPath(n) else ResolveStandardImplementationPath(n)
  }

  // ---------------------------------------------------------------------
  // Entry point

  /** `togglePath` */
  function TogglePath(p: string): PathResolutionResult
  {
    var n := Normalize(p);
    var isPack := IsPackFile(n);
    var isSpec := IsSpecFile(n);
    var target := if isSpec then ResolveImplementationPath(n) else ResolveSpecPath(n);
    var packName :=
      if isPack then
        match ExtractPackInfo(n)
        case Some(info) => Some(info.packName)
        case None => None
      else None;
    PathResolutionResult(target, isSpec, isPack, packName)
  }
}
