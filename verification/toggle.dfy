/**
 * `togglePath`: what the result record holds, and toggling twice on the
 * usual layouts, with the spec flag, the pack flag and the pack name of
 * both steps.
 */
module Toggle {
  import opened Text
  import opened Types
  import opened PathResolver
  import opened Classification
  import opened PackProperties
  import opened RoundTrips

  /**
   * The record `togglePath` returns: the spec flag and the pack flag
   * classify the path, the target is the implementation of a spec and the
   * spec of anything else, and a pack name is reported exactly when the
   * pack pattern matches (which makes the path a pack file), as that
   * match's name.
   */
  lemma TogglePathFields(p: string)
    ensures TogglePath(p).isSpec == IsSpecFile(p)
    ensures TogglePath(p).isPack == IsPackFile(p)
    ensures TogglePath(p).targetPath
      == (if IsSpecFile(p) then ResolveImplementationPath(p) else ResolveSpecPath(p))
    ensures TogglePath(p).packName.Some? <==> ExtractPackInfo(p).Some?
    ensures ExtractPackInfo(p).Some? ==>
      IsPackFile(p) && TogglePath(p).packName == Some(ExtractPackInfo(p).value.packName)
  {
    NormalizeIdempotent(p);
    ExtractImpliesPackFile(p);
    ExtractImpliesPackFile(Normalize(p));
  }

  /** A path that is neither a spec nor a pack file toggles to its spec, with no pack name. */
  lemma ToggleOfPlain(p: string)
    requires !IsSpecFile(p) && !IsPackFile(p)
    ensures TogglePath(p) == PathResolutionResult(ResolveSpecPath(p), false, false, None)
  {
    TogglePathFields(p);
  }

  /** A spec outside packs toggles to its implementation, with no pack name. */
  lemma ToggleOfPlainSpec(q: string)
    requires IsSpecFile(q) && !IsPackFile(q)
    ensures TogglePath(q) == PathResolutionResult(ResolveImplementationPath(q), true, false, None)
  {
    TogglePathFields(q);
  }

  /** A non-spec path the pack pattern reads as pack `name` toggles to its spec, with that pack name. */
  lemma ToggleOfPack(p: string, name: string, rel: string)
    requires ExtractPackInfo(p) == Some(PackInfo(name, rel)) && !IsSpecFile(p)
    ensures TogglePath(p) == PathResolutionResult(ResolveSpecPath(p), false, true, Some(name))
  {
    TogglePathFields(p);
  }

  /** A spec the pack pattern reads as pack `name` toggles to its implementation, with that pack name. */
  lemma ToggleOfPackSpec(q: string, name: string, rel: string)
    requires ExtractPackInfo(q) == Some(PackInfo(name, rel)) && IsSpecFile(q)
    ensures TogglePath(q) == PathResolutionResult(ResolveImplementationPath(q), true, true, Some(name))
  {
    TogglePathFields(q);
  }

  /**
   * A path outside packs whose spec resolves back to it: toggling goes to
   * the spec and toggling again comes back.
   */
  lemma PlainToggleTwice(p: string, q: string)
    requires !IsSpecFile(p) && !IsPackFile(p) && IsSpecFile(q) && !IsPackFile(q)
    requires ResolveSpecPath(p) == q && ResolveImplementationPath(q) == p
    ensures TogglePath(p) == PathResolutionResult(q, false, false, None)
    ensures TogglePath(TogglePath(p).targetPath) == PathResolutionResult(p, true, false, None)
  {
    ToggleOfPlain(p);
    ToggleOfPlainSpec(q);
  }

  /** `app/X` toggles to `spec/X_spec`, outside any pack, and that toggles back to `app/X`. */
  lemma ToggleAppTwice(X: string)
    requires '\\' !in X && NoLineBreak(X) && !EndsWith(X, "_spec.rb")
    requires "app" !in Split(X, '/') && "spec" !in Split(X, '/') && "packs" !in Split(X, '/')
    requires Split(X, '/')[0] in RailsAppDirectories
    ensures TogglePath("app/" + X)
      == PathResolutionResult("spec/" + InsertSpecSuffix(X), false, false, None)
    ensures TogglePath(TogglePath("app/" + X).targetPath)
      == PathResolutionResult("app/" + X, true, false, None)
  {
    AppToggleSides(X, "app/" + X, "spec/" + InsertSpecSuffix(X));
    PlainToggleTwice("app/" + X, "spec/" + InsertSpecSuffix(X));
  }

  /** The facts `PlainToggleTwice` needs about `app/X` and its spec. */
  lemma AppToggleSides(X: string, p: string, q: string)
    requires '\\' !in X && NoLineBreak(X) && !EndsWith(X, "_spec.rb")
    requires "app" !in Split(X, '/') && "spec" !in Split(X, '/') && "packs" !in Split(X, '/')
    requires Split(X, '/')[0] in RailsAppDirectories
    requires p == "app/" + X && q == "spec/" + InsertSpecSuffix(X)
    ensures !IsSpecFile(p) && !IsPackFile(p) && IsSpecFile(q) && !IsPackFile(q)
    ensures ResolveSpecPath(p) == q && ResolveImplementationPath(q) == p
  {
    AppRoundTrip(X);
    HeadSpelling("app", "app/", X);
    PlainImplementationSide(p, "app", X);
    PlainSpecSide(q, X);
  }

  /** `lib/X` toggles to `spec/X_spec`, outside any pack, and that toggles back to `lib/X`. */
  lemma ToggleLibTwice(X: string)
    requires '\\' !in X && NoLineBreak(X) && !EndsWith(X, "_spec.rb")
    requires "app" !in Split(X, '/') && "lib" !in Split(X, '/')
    requires "spec" !in Split(X, '/') && "packs" !in Split(X, '/')
    requires Split(X, '/')[0] !in RailsAppDirectories
    ensures TogglePath("lib/" + X)
      == PathResolutionResult("spec/" + InsertSpecSuffix(X), false, false, None)
    ensures TogglePath(TogglePath("lib/" + X).targetPath)
      == PathResolutionResult("lib/" + X, true, false, None)
  {
    LibToggleSides(X, "lib/" + X, "spec/" + InsertSpecSuffix(X));
    PlainToggleTwice("lib/" + X, "spec/" + InsertSpecSuffix(X));
  }

  /** The facts `PlainToggleTwice` needs about `lib/X` and its spec. */
  lemma LibToggleSides(X: string, p: string, q: string)
    requires '\\' !in X && NoLineBreak(X) && !EndsWith(X, "_spec.rb")
    requires "app" !in Split(X, '/') && "lib" !in Split(X, '/')
    requires "spec" !in Split(X, '/') && "packs" !in Split(X, '/')
    requires Split(X, '/')[0] !in RailsAppDirectories
    requires p == "lib/" + X && q == "spec/" + InsertSpecSuffix(X)
    ensures !IsSpecFile(p) && !IsPackFile(p) && IsSpecFile(q) && !IsPackFile(q)
    ensures ResolveSpecPath(p) == q && ResolveImplementationPath(q) == p
  {
    LibRoundTrip(X);
    HeadSpelling("lib", "lib/", X);
    PlainImplementationSide(p, "lib", X);
    PlainSpecSide(q, X);
  }

  /** Outside packs, `d/X` (for a directory `d` other than `spec`) is neither a spec nor a pack file. */
  lemma PlainImplementationSide(p: string, d: string, X: string)
    requires p == d + "/" + X
    requires d != "spec" && d != "packs" && '/' !in d && '\\' !in d
    requires '\\' !in X && !EndsWith(X, "_spec.rb")
    requires "spec" !in Split(X, '/') && "packs" !in Split(X, '/')
    ensures !IsSpecFile(p) && !IsPackFile(p)
  {
    assert '\\' !in p by {
      assert forall ch | ch in p :: ch in d || ch == '/' || ch in X;
    }
    NormalizeFixed(p);
    HeadSegments(d, X);
    assert "packs" !in Split(Normalize(p), '/');
    NotPackFile(p);
    assert !EndsWith(p, "_spec.rb") by {
      EndsWithAfterSlash(d + "/", X, "_spec.rb");
    }
    assert "spec" !in Split(Normalize(p), '/');
  }

  /** `spec/Y` for the suffixed `Y` of a path without `spec` or `packs` directories: a spec outside packs. */
  lemma PlainSpecSide(q: string, X: string)
    requires q == "spec/" + InsertSpecSuffix(X)
    requires '\\' !in X && NoLineBreak(X)
    requires "spec" !in Split(X, '/') && "packs" !in Split(X, '/')
    ensures IsSpecFile(q) && !IsPackFile(q)
  {
    var Y := InsertSpecSuffix(X);
    SpecHeadPlain(X);
    HeadSegments("spec", Y);
    assert q == "spec" + "/" + Y;
    SpecSegmentIsSpecFile(q);
  }

  /**
   * `<prefix>packs/<name>/app/X` (a single pack directory, not a spec)
   * toggles to `<prefix>packs/<name>/spec/X_spec` in the same pack, and that
   * toggles back.
   */
  lemma TogglePackTwice(p: string, prefix: string, name: string, X: string)
    requires p == prefix + "packs/" + name + "/app/" + X
    requires prefix == "" || (EndsWith(prefix, "/") && NoLineBreak(prefix))
    requires name != "" && '/' !in name && name != "packs"
    requires '\\' !in prefix && '\\' !in name && '\\' !in X
    requires NoLineBreak(X) && !EndsWith(X, "_spec.rb") && "packs" !in Split(X, '/')
    requires !IsSpecFile(p)
    ensures TogglePath(p) == PathResolutionResult(
      prefix + "packs/" + name + "/spec/" + InsertSpecSuffix(X), false, true, Some(name))
    ensures TogglePath(TogglePath(p).targetPath) == PathResolutionResult(p, true, true, Some(name))
  {
    PackImplementationToggle(p, prefix, name, X);
    PackSpecToggle(prefix + "packs/" + name + "/spec/" + InsertSpecSuffix(X), prefix, name, X);
  }

  /** `<prefix>packs/<name>/app/X`, not a spec, toggles to its spec in the same pack. */
  lemma PackImplementationToggle(p: string, prefix: string, name: string, X: string)
    requires p == prefix + "packs/" + name + "/app/" + X
    requires prefix == "" || (EndsWith(prefix, "/") && NoLineBreak(prefix))
    requires name != "" && '/' !in name && name != "packs"
    requires '\\' !in prefix && '\\' !in name && '\\' !in X
    requires NoLineBreak(X) && "packs" !in Split(X, '/')
    requires !IsSpecFile(p)
    ensures TogglePath(p) == PathResolutionResult(
      prefix + "packs/" + name + "/spec/" + InsertSpecSuffix(X), false, true, Some(name))
  {
    assert ExtractPackInfo(p) == Some(PackInfo(name, "app" + "/" + X)) by {
      PackSpellings(prefix, name, X, X);
      HeadSpelling("app", "app/", X);
      PlainDirWords();
      PackSide(p, prefix, name, "app", X);
    }
    ToggleOfPack(p, name, "app" + "/" + X);
    PackAppForward(p, prefix, name, X);
  }

  /** `<prefix>packs/<name>/spec/X_spec` toggles back to `<prefix>packs/<name>/app/X`. */
  lemma PackSpecToggle(q: string, prefix: string, name: string, X: string)
    requires q == prefix + "packs/" + name + "/spec/" + InsertSpecSuffix(X)
    requires prefix == "" || (EndsWith(prefix, "/") && NoLineBreak(prefix))
    requires name != "" && '/' !in name && name != "packs"
    requires '\\' !in prefix && '\\' !in name && '\\' !in X
    requires NoLineBreak(X) && !EndsWith(X, "_spec.rb") && "packs" !in Split(X, '/')
    ensures TogglePath(q) == PathResolutionResult(prefix + "packs/" + name + "/app/" + X, true, true, Some(name))
  {
    var Y := InsertSpecSuffix(X);
    PackSpecBackwardOfInsert(prefix, name, X);
    SuffixedPlain(X);
    PackSpecSide(q, prefix, name, Y);
    ToggleOfPackSpec(q, name, "spec/" + Y);
  }

  /** Adding `_spec` adds no backslash, no line terminator and no `packs` directory. */
  lemma SuffixedPlain(X: string)
    requires '\\' !in X && NoLineBreak(X) && "packs" !in Split(X, '/')
    ensures var Y := InsertSpecSuffix(X); '\\' !in Y && NoLineBreak(Y) && "packs" !in Split(Y, '/')
  {
    InsertKeepsPlain(X);
    InsertKeepsDirWords(X);
  }

  /** A path `<prefix>packs/<name>/spec/Y` with a single pack directory: a spec of pack `name`. */
  lemma PackSpecSide(q: string, prefix: string, name: string, Y: string)
    requires q == prefix + "packs/" + name + "/spec/" + Y
    requires prefix == "" || (EndsWith(prefix, "/") && NoLineBreak(prefix))
    requires name != "" && '/' !in name && name != "packs"
    requires '\\' !in prefix && '\\' !in name && '\\' !in Y
    requires NoLineBreak(Y) && "packs" !in Split(Y, '/')
    ensures IsSpecFile(q) && ExtractPackInfo(q) == Some(PackInfo(name, "spec/" + Y))
  {
    PackSpellings(prefix, name, Y, Y);
    HeadSpelling("spec", "spec/", Y);
    PlainDirWords();
    PackSide(q, prefix, name, "spec", Y);
    PackSpecIsSpecFile(q, prefix, name, Y);
  }

  /** `<prefix>packs/<name>/d/X` with a single pack directory: a normalised pack file of pack `name`. */
  lemma PackSide(p: string, prefix: string, name: string, d: string, X: string)
    requires p == prefix + "packs/" + name + "/" + (d + "/" + X)
    requires prefix == "" || (EndsWith(prefix, "/") && NoLineBreak(prefix))
    requires name != "" && '/' !in name && name != "packs"
    requires '\\' !in prefix && '\\' !in name && '\\' !in d && '\\' !in X
    requires '/' !in d && d != "packs" && NoLineBreak(d) && NoLineBreak(X) && "packs" !in Split(X, '/')
    ensures Normalize(p) == p
    ensures IsPackFile(p) && ExtractPackInfo(p) == Some(PackInfo(name, d + "/" + X))
  {
    PlainPackPath(prefix, name, d, X);
    SinglePackSplit(p, prefix, name, d + "/" + X);
  }

  /** `app` and `spec` are plain directory names other than `packs`. */
  lemma PlainDirWords()
    ensures '/' !in "app" && '\\' !in "app" && "app" != "packs" && NoLineBreak("app")
    ensures '/' !in "spec" && '\\' !in "spec" && "spec" != "packs" && NoLineBreak("spec")
  {
  }

  /** A path with a `/spec/` directory is a spec. */
  lemma PackSpecIsSpecFile(q: string, prefix: string, name: string, Y: string)
    requires q == prefix + "packs/" + name + "/spec/" + Y
    requires Normalize(q) == q
    ensures IsSpecFile(q)
  {
    IsSpecFileIff(q);
    var k := |prefix| + 6 + |name|;
    assert At(q, k, "/spec/");
  }
}
